/** Path MTU discovery: don't-fragment probes, two at the ends and then a binary search. */
module MtuOptimizer {

  datatype Notes = NoReply | StandardConfirmed | Discovered | NotConverged

  datatype MtuResult = MtuResult(optimalMtu: int, optimalMss: int, found: bool, notes: Notes)

  /** One probe and whether an echo reply came back. */
  datatype Probe = Probe(size: int, ok: bool)

  /** The network: whether the k-th probe, of the given payload size, is answered. */
  type Network = (nat, int) -> bool

  /** A path that passes payloads up to `limit`, every time. */
  ghost predicate FixedLimit(net: Network, limit: int) {
    forall k: nat, size: int :: net(k, size) <==> size <= limit
  }

  /** A path that never passes more than `limit`, but may lose any probe. */
  ghost predicate LossyLimit(net: Network, limit: int) {
    forall k: nat, size: int :: net(k, size) ==> size <= limit
  }

  /** The log lists the probes in order with the answers the network gave. */
  ghost predicate Faithful(net: Network, log: seq<Probe>) {
    forall k :: 0 <= k < |log| ==> log[k].ok == net(k, log[k].size)
  }

  /** No successful probe was larger than `best`. */
  ghost predicate NoneLarger(log: seq<Probe>, best: int) {
    forall k :: 0 <= k < |log| && log[k].ok ==> log[k].size <= best
  }

  /** Some probe after the first was answered. */
  ghost predicate LaterSuccess(log: seq<Probe>) {
    exists k :: 1 <= k < |log| && log[k].ok
  }

  lemma LogGrows(net: Network, log: seq<Probe>, size: int, best: int)
    requires |log| >= 1 && Faithful(net, log)
    ensures var (p, next) := (Probe(size, net(|log|, size)), log + [Probe(size, net(|log|, size))]);
            && Faithful(net, next) && p in next && next[0] == log[0] && (|log| >= 2 ==> next[1] == log[1])
            && (forall q :: q in log ==> q in next)
            && (LaterSuccess(next) <==> LaterSuccess(log) || p.ok)
            && (NoneLarger(next, best) <==> NoneLarger(log, best) && (p.ok ==> size <= best))
  {
    var next := log + [Probe(size, net(|log|, size))];
    assert next[|log|] == Probe(size, net(|log|, size));
    assert forall k :: 0 <= k < |log| ==> next[k] == log[k];
  }

  lemma LargerBound(log: seq<Probe>, a: int, b: int)
    requires NoneLarger(log, a) && a <= b
    ensures NoneLarger(log, b)
  {
  }

  /** How often an interval of `width` sizes can be halved until nothing is left. */
  function Halvings(width: nat): nat {
    if width == 0 then 0 else 1 + Halvings(width / 2)
  }

  lemma {:induction false} HalvingsMonotone(a: nat, b: nat)
    requires a <= b
    ensures Halvings(a) <= Halvings(b)
  {
    if a > 0 { HalvingsMonotone(a / 2, b / 2); }
  }

  /** The state of the binary search: sizes below `low` are settled as passing, sizes above
      `high` as failing, and `best` is the largest size seen to pass, or -1. */
  ghost predicate Searching(net: Network, log: seq<Probe>, low: int, high: int, best: int) {
    && 1200 <= low <= high + 1 <= 1473
    && Faithful(net, log) && |log| >= 2 && log[0] == Probe(1200, true) && log[1] == Probe(1472, false)
    && |log| + Halvings(high - low + 1) <= 11
    && best == (if low == 1200 then -1 else low - 1)
    && (best > 0 ==> Probe(best, true) in log)
    && NoneLarger(log, if best > 0 then best else 1200)
    && (best == -1 <==> !LaterSuccess(log))
    && forall limit :: FixedLimit(net, limit) ==> low - 1 <= limit <= high
  }

  lemma StartSearch(net: Network)
    requires net(0, 1200) && !net(1, 1472)
    ensures Searching(net, [Probe(1200, true), Probe(1472, false)], 1200, 1472, -1)
  {
    assert Halvings(273) == 9;
  }

  lemma SearchStep(net: Network, log: seq<Probe>, low: int, high: int, best: int, mid: int, ok: bool)
    requires Searching(net, log, low, high, best) && low <= high
    requires mid == low + (high - low) / 2 && ok == net(|log|, mid)
    ensures var next := log + [Probe(mid, ok)];
            if ok then Searching(net, next, mid + 1, high, mid) else Searching(net, next, low, mid - 1, best)
  {
    HalvingsMonotone(high - mid, (high - low + 1) / 2);
    HalvingsMonotone(mid - low, (high - low + 1) / 2);
    LogGrows(net, log, mid, mid);
    LogGrows(net, log, mid, if best > 0 then best else 1200);
    LargerBound(log, if best > 0 then best else 1200, mid);
    hide Faithful, LaterSuccess, NoneLarger;
  }

  /** No probe that fits the path was lost. */
  ghost predicate NoneLost(log: seq<Probe>, limit: int) {
    forall k :: 0 <= k < |log| && log[k].size <= limit ==> log[k].ok
  }

  /** While no probe that fits was lost the limit lies in the search interval; as soon as one is,
      it lies above, for good. */
  ghost predicate LossTracked(net: Network, log: seq<Probe>, low: int, high: int) {
    forall limit :: LossyLimit(net, limit) && 1200 <= limit < 1472 ==>
      if NoneLost(log, limit) then low - 1 <= limit <= high else high < limit
  }

  lemma LossGrows(log: seq<Probe>, p: Probe, limit: int)
    ensures NoneLost(log + [p], limit) <==> NoneLost(log, limit) && (p.size <= limit ==> p.ok)
  {
    var next := log + [p];
    assert next[|log|] == p;
    assert forall k :: 0 <= k < |log| ==> next[k] == log[k];
  }

  lemma StartLossTracked(net: Network)
    requires net(0, 1200) && !net(1, 1472)
    ensures LossTracked(net, [Probe(1200, true), Probe(1472, false)], 1200, 1472)
  {
  }

  lemma LossStep(net: Network, log: seq<Probe>, low: int, high: int, mid: int, ok: bool)
    requires LossTracked(net, log, low, high) && low <= mid <= high && ok == net(|log|, mid)
    ensures LossTracked(net, log + [Probe(mid, ok)], if ok then mid + 1 else low, if ok then high else mid - 1)
  {
    forall limit | LossyLimit(net, limit) && 1200 <= limit < 1472
      ensures var next := log + [Probe(mid, ok)];
              var (lo, hi) := (if ok then mid + 1 else low, if ok then high else mid - 1);
              if NoneLost(next, limit) then lo - 1 <= limit <= hi else hi < limit
    {
      LossGrows(log, Probe(mid, ok), limit);
    }
  }

  /** What discovery promises about its result, given the probes it made. */
  ghost predicate Answers(net: Network, log: seq<Probe>, r: MtuResult) {
    && Faithful(net, log) && 1 <= |log| <= 11
    && r.optimalMss == r.optimalMtu - 40
    // a reported size was itself seen to pass, and nothing larger was
    && (if r.found then
          && Probe(r.optimalMtu - 28, true) in log
          && 1200 <= r.optimalMtu - 28 <= 1472
          && NoneLarger(log, r.optimalMtu - 28)
        else r.optimalMtu == 1500)
    // why it is, or nothing is
    && log[0].size == 1200 && (|log| >= 2 ==> log[1].size == 1472)
    && (r.notes == StandardConfirmed <==> |log| >= 2 && log[1].ok)
    && (r.notes == NoReply <==> !log[0].ok)
    && (r.notes == NotConverged <==> log[0].ok && !LaterSuccess(log))
    && (r.found <==> r.notes == StandardConfirmed || r.notes == Discovered)
  }

  lemma SearchDone(net: Network, log: seq<Probe>, low: int, high: int, best: int)
    requires Searching(net, log, low, high, best) && low > high
    ensures best > 0 ==> Answers(net, log, MtuResult(best + 28, best - 12, true, Discovered))
    ensures best <= 0 ==> Answers(net, log, MtuResult(1500, 1460, false, NotConverged))
    ensures forall limit :: FixedLimit(net, limit) ==> best == limit
  {
  }

  /** On a path that passes no more than `limit` and may lose probes, the limit itself is reported
      exactly if no probe that fits was lost. */
  ghost predicate ExactUnlessLost(net: Network, log: seq<Probe>, r: MtuResult) {
    forall limit :: LossyLimit(net, limit) && 1200 <= limit < 1472 ==>
      (r.found && r.optimalMtu == limit + 28 <==> NoneLost(log, limit))
  }

  /** Probes that get lost can only make the answer smaller: whatever is reported fits the path. */
  lemma NeverOverestimates(net: Network, log: seq<Probe>, r: MtuResult, limit: int)
    requires Answers(net, log, r) && LossyLimit(net, limit) && r.found
    ensures r.optimalMtu - 28 <= limit
  {
    var k :| 0 <= k < |log| && log[k] == Probe(r.optimalMtu - 28, true);
    assert net(k, log[k].size);
  }

  /** On a steady path the answer is the limit, up to the 1472 bytes that fill an Ethernet frame. */
  ghost predicate ExactIfSteady(net: Network, r: MtuResult) {
    forall limit :: FixedLimit(net, limit) ==>
      if limit < 1200 then r.notes == NoReply
      else r.found && r.optimalMtu == (if limit < 1472 then limit else 1472) + 28
  }

  /** On any path that passes no more than `limit`, what is reported fits. */
  ghost predicate NeverTooLarge(net: Network, r: MtuResult) {
    forall limit :: LossyLimit(net, limit) && r.found ==> r.optimalMtu - 28 <= limit
  }

  ghost predicate Promised(net: Network, log: seq<Probe>, r: MtuResult) {
    Answers(net, log, r) && ExactIfSteady(net, r) && NeverTooLarge(net, r) && ExactUnlessLost(net, log, r)
  }

  lemma FirstProbeLost(net: Network)
    requires !net(0, 1200)
    ensures Promised(net, [Probe(1200, false)], MtuResult(1500, 1460, false, NoReply))
  {
    assert [Probe(1200, false)][0] == Probe(1200, false);
  }

  lemma SecondProbePassed(net: Network)
    requires net(0, 1200) && net(1, 1472)
    ensures Promised(net, [Probe(1200, true), Probe(1472, true)], MtuResult(1500, 1460, true, StandardConfirmed))
  {
    var (log, r) := ([Probe(1200, true), Probe(1472, true)], MtuResult(1500, 1460, true, StandardConfirmed));
    assert log[1] == Probe(1472, true);
    forall limit | LossyLimit(net, limit) ensures r.optimalMtu - 28 <= limit { NeverOverestimates(net, log, r, limit); }
  }

  lemma SearchPromised(net: Network, log: seq<Probe>, low: int, high: int, best: int)
    requires Searching(net, log, low, high, best) && LossTracked(net, log, low, high) && low > high
    ensures Promised(net, log, if best > 0 then MtuResult(best + 28, best - 12, true, Discovered)
                               else MtuResult(1500, 1460, false, NotConverged))
  {
    var r := if best > 0 then MtuResult(best + 28, best - 12, true, Discovered)
             else MtuResult(1500, 1460, false, NotConverged);
    SearchDone(net, log, low, high, best);
    hide Answers, Faithful, NoneLarger, LaterSuccess, NoneLost, FixedLimit, LossyLimit, Halvings;
    forall limit | LossyLimit(net, limit) && r.found ensures r.optimalMtu - 28 <= limit {
      NeverOverestimates(net, log, r, limit);
    }
  }

  /** `DiscoverOptimalMtu` */
  method DiscoverOptimalMtu(net: Network) returns (result: MtuResult, log: seq<Probe>)
    ensures Answers(net, log, result)
    ensures ExactIfSteady(net, result)
    ensures NeverTooLarge(net, result)
    ensures ExactUnlessLost(net, log, result)
  {
    hide Searching, LossTracked, Answers, ExactIfSteady, NeverTooLarge, ExactUnlessLost;
    log := [Probe(1200, net(0, 1200))];
    if !net(0, 1200) {
      FirstProbeLost(net);
      return MtuResult(1500, 1460, false, NoReply), log;
    }
    log := log + [Probe(1472, net(1, 1472))];
    assert log == [Probe(1200, true), Probe(1472, net(1, 1472))];
    if net(1, 1472) {
      SecondProbePassed(net);
      return MtuResult(1500, 1460, true, StandardConfirmed), log;
    }
    var low, high, optimalPayload := 1200, 1472, -1;
    StartSearch(net);
    StartLossTracked(net);
    while low <= high
      invariant Searching(net, log, low, high, optimalPayload)
      invariant LossTracked(net, log, low, high)
      decreases high - low
    {
      var mid := low + (high - low) / 2;
      var ok := net(|log|, mid);
      SearchStep(net, log, low, high, optimalPayload, mid, ok);
      LossStep(net, log, low, high, mid, ok);
      log := log + [Probe(mid, ok)];
      if ok {
        optimalPayload := mid;
        low := mid + 1;
      } else {
        high := mid - 1;
      }
    }
    SearchPromised(net, log, low, high, optimalPayload);
    if optimalPayload > 0 {
      var mtu := optimalPayload + 28;
      result := MtuResult(mtu, mtu - 40, true, Discovered);
    } else {
      result := MtuResult(1500, 1460, false, NotConverged);
    }
  }

  /** And what is reported is the largest size that passed, so it is determined by the log. */
  lemma AnswerDetermined(net: Network, log: seq<Probe>, a: MtuResult, b: MtuResult)
    requires Answers(net, log, a) && Answers(net, log, b) && a.found && b.found
    ensures a.optimalMtu == b.optimalMtu && a.optimalMss == b.optimalMss
  {
    var k :| 0 <= k < |log| && log[k] == Probe(a.optimalMtu - 28, true);
    var j :| 0 <= j < |log| && log[j] == Probe(b.optimalMtu - 28, true);
  }
}
