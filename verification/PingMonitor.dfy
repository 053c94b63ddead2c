/** The continuous ping monitor: counters, history, statistics and jitter kept up to date one
    reply at a time. */
module PingMonitor {
  import opened PingStats

  /** `asm_calc_jitter_rfc3550`: J + (|D| - J) / 16. */
  function CalcJitter(current: real, diff: real): real {
    current + (Abs(diff) - current) * 0.0625
  }

  function Abs(x: real): real { if x < 0.0 then -x else x }

  /** The jitter estimate of section 6.4.1 of RFC 3550 over consecutive round-trip times. */
  function Jitter(v: seq<real>): real {
    if |v| < 2 then 0.0
    else CalcJitter(Jitter(Front(v)), Last(v) - Last(Front(v)))
  }

  /** The replies that arrived. */
  function Valid(raw: seq<real>): (v: seq<real>)
    ensures |v| <= |raw|
    ensures v != [] ==> Last(v) >= 0.0
  {
    if raw == [] then []
    else if Last(raw) >= 0.0 then Valid(Front(raw)) + [Last(raw)]
    else Valid(Front(raw))
  }

  /** What is remembered: losses become the marker -1. */
  function History(raw: seq<real>): (h: seq<real>)
    ensures |h| == |raw|
  {
    seq(|raw|, i requires 0 <= i < |raw| => if raw[i] >= 0.0 then raw[i] else -1.0)
  }

  datatype Stats = Stats(sent: nat, received: nat, lost: nat, lossRate: real, summary: Summary,
                         jitter: real, history: seq<real>)

  /** `sent > 0 ? (double) lost / sent * 100 : 0` */
  function LossRate(lost: nat, sent: nat): real {
    if sent > 0 then Over(lost as real, sent) * 100.0 else 0.0
  }

  const NO_REPLY: Summary := Summary(99999.0, 0.0, 0.0, 0.0)

  /** Until a reply arrives the initial values stay. */
  function SummaryOf(v: seq<real>): Summary {
    if v == [] then NO_REPLY else Definition(v)
  }

  /** The statistics of a list of probe results, computed from scratch. */
  function Batch(raw: seq<real>): Stats {
    var v := Valid(raw);
    var lost := |raw| - |v|;
    Stats(|raw|, |v|, lost,
          LossRate(lost, |raw|),
          SummaryOf(v), Jitter(v), History(raw))
  }

  /** The call of the single pass with the vector of replies and the four result fields, laid
      out in memory one after the other. */
  method UpdatedSummary(v: seq<real>) returns (s: Summary)
    requires v != []
    ensures s == Definition(v)
  {
    var n := |v|;
    var mem := new real[n + 5](i requires 0 <= i < n + 5 => if 1 <= i <= n then v[i - 1] else 0.0);
    assert mem[1..1 + n] == v;
    hide Definition;
    CalcPingStats(mem, 1, n, n + 1, n + 2, n + 3, n + 4);
    s := Summary(mem[n + 1], mem[n + 2], mem[n + 3], mem[n + 4]);
  }

  /** The state of one monitoring run. */
  class Session {
    var sent: nat
    var received: nat
    var lost: nat
    var lossRate: real
    var summary: Summary
    var jitterMs: real
    var rttHistory: seq<real>
    var previousRtt: real
    var validRtts: seq<real>

    /** The incrementally kept state is the batch result for the probes so far. */
    ghost predicate Tracks(raw: seq<real>)
      reads this
    {
      Counts(raw) && sent == |raw| && lossRate == LossRate(lost, sent)
    }

    /** All of it but the number of probes sent and the loss rate. */
    ghost predicate Counts(raw: seq<real>)
      reads `received, `lost, `summary, `jitterMs, `rttHistory, `previousRtt, `validRtts
    {
      && validRtts == Valid(raw) && rttHistory == History(raw)
      && received == |validRtts| && lost == |raw| - |validRtts|
      && summary == SummaryOf(validRtts) && jitterMs == Jitter(validRtts)
      && previousRtt == (if validRtts == [] then -1.0 else Last(validRtts))
    }

    function Snapshot(): Stats
      reads this
    {
      Stats(sent, received, lost, lossRate, summary, jitterMs, rttHistory)
    }

    constructor ()
      ensures Tracks([])
    {
      sent, received, lost, lossRate := 0, 0, 0, 0.0;
      summary, jitterMs := NO_REPLY, 0.0;
      rttHistory, validRtts, previousRtt := [], [], -1.0;
    }

    /** The body of the loop for the probe result `rtt`; negative means lost. */
    method Probe(ghost raw: seq<real>, rtt: real)
      requires Tracks(raw)
      modifies this
      ensures Tracks(raw + [rtt])
    {
      hide Counts, LossRate;
      sent := sent + 1;
      if rtt >= 0.0 {
        Received(raw, rtt);
      } else {
        Lost(raw, rtt);
      }
      lossRate := LossRate(lost, sent);
    }

    method Received(ghost raw: seq<real>, rtt: real)
      requires Counts(raw) && rtt >= 0.0
      modifies this`received, this`validRtts, this`rttHistory, this`jitterMs, this`previousRtt, this`summary
      ensures Counts(raw + [rtt])
    {
      ListsGrow(raw, rtt);
      JitterGrows(validRtts, rtt);
      JitterStarts();
      assert validRtts != [] ==> previousRtt >= 0.0;
      hide Jitter, CalcJitter, Valid, History, SummaryOf, Definition;
      received := received + 1;
      validRtts := validRtts + [rtt];
      rttHistory := rttHistory + [rtt];
      if previousRtt >= 0.0 {
        jitterMs := CalcJitter(jitterMs, rtt - previousRtt);
      }
      previousRtt := rtt;
      summary := UpdatedSummary(validRtts);
      SummaryGrows(validRtts);
    }

    method Lost(ghost raw: seq<real>, rtt: real)
      requires Counts(raw) && rtt < 0.0
      modifies this`lost, this`rttHistory
      ensures Counts(raw + [rtt])
    {
      ListsGrow(raw, rtt);
      hide Jitter, Valid, History, SummaryOf;
      lost := lost + 1;
      rttHistory := rttHistory + [-1.0];
    }

    /** Kept one at a time, the statistics are those of the whole list. */
    lemma SnapshotIsBatch(raw: seq<real>)
      requires Tracks(raw)
      ensures Snapshot() == Batch(raw)
    {
    }
  }

  lemma SummaryGrows(v: seq<real>)
    requires v != []
    ensures SummaryOf(v) == Definition(v)
  {
  }

  lemma ListsGrow(raw: seq<real>, rtt: real)
    ensures Valid(raw + [rtt]) == if rtt >= 0.0 then Valid(raw) + [rtt] else Valid(raw)
    ensures History(raw + [rtt]) == History(raw) + [if rtt >= 0.0 then rtt else -1.0]
  {
    assert Front(raw + [rtt]) == raw && Last(raw + [rtt]) == rtt;
  }

  lemma JitterStarts()
    ensures Jitter([]) == 0.0
  {
  }

  lemma JitterGrows(v: seq<real>, rtt: real)
    ensures Jitter(v + [rtt]) == if v == [] then 0.0 else CalcJitter(Jitter(v), rtt - Last(v))
  {
    assert Front(v + [rtt]) == v;
  }

  /** `RunContinuousMonitor`: at most `count` probes, fewer if the stop request is seen after
      `stopAfter` of them. `seen` lists what the callback was shown, one record per probe. */
  method RunContinuousMonitor(count: int, stopAfter: nat, probes: seq<real>)
    returns (stats: Stats, seen: seq<Stats>)
    requires |probes| >= count
    ensures |seen| == (if count <= 0 then 0 else if stopAfter < count then stopAfter else count)
    ensures forall k :: 0 <= k < |seen| ==> seen[k] == Batch(probes[..k + 1])
    ensures stats == Final(probes[..|seen|])
  {
    hide Batch;
    var session := new Session();
    seen := [];
    var i := 0;
    while i < count && i < stopAfter
      invariant 0 <= i == |seen| && (i > 0 ==> i <= count && i <= stopAfter)
      invariant session.Tracks(probes[..i])
      invariant forall k :: 0 <= k < i ==> seen[k] == Batch(probes[..k + 1])
    {
      session.Probe(probes[..i], probes[i]);
      assert probes[..i] + [probes[i]] == probes[..i + 1];
      session.SnapshotIsBatch(probes[..i + 1]);
      seen := seen + [session.Snapshot()];
      i := i + 1;
    }
    stats := session.Snapshot();
    session.SnapshotIsBatch(probes[..i]);
    BatchReceived(probes[..i]);
    if stats.received == 0 {
      stats := stats.(summary := stats.summary.(min := 0.0));
    }
  }

  lemma BatchReceived(raw: seq<real>)
    ensures Batch(raw).received == |Valid(raw)|
  {
  }

  /** What is returned: a run without any reply reports a minimum of zero. */
  function Final(raw: seq<real>): Stats {
    var b := Batch(raw);
    if Valid(raw) == [] then b.(summary := b.summary.(min := 0.0)) else b
  }

  // ---- What holds of every record shown ----------------------------------------------------

  lemma {:induction false} ValidAreValid(raw: seq<real>)
    ensures forall i :: 0 <= i < |Valid(raw)| ==> Valid(raw)[i] >= 0.0
  {
    if raw != [] {
      ValidAreValid(Front(raw));
    }
  }

  /** Removing the loss markers from the history leaves the replies. */
  lemma {:induction false} HistoryKeepsValid(raw: seq<real>)
    ensures Valid(History(raw)) == Valid(raw)
  {
    if raw != [] {
      HistoryKeepsValid(Front(raw));
      assert Front(History(raw)) == History(Front(raw));
    }
  }

  lemma {:induction false} JitterBounds(v: seq<real>, lo: real, hi: real)
    requires lo <= hi
    requires forall i :: 0 <= i < |v| ==> lo <= v[i] <= hi
    ensures 0.0 <= Jitter(v) <= hi - lo
  {
    if |v| >= 2 {
      JitterBounds(Front(v), lo, hi);
      assert lo <= v[|v| - 1] <= hi && lo <= v[|v| - 2] <= hi;
    }
  }

  lemma CalcJitterZeroIff(j: real, d: real)
    requires j >= 0.0
    ensures CalcJitter(j, d) >= 0.0
    ensures CalcJitter(j, d) == 0.0 <==> j == 0.0 && d == 0.0
  {
  }

  /** The jitter is positive exactly when two consecutive replies differed. */
  lemma {:induction false} JitterZeroIff(v: seq<real>)
    ensures Jitter(v) >= 0.0
    ensures Jitter(v) == 0.0 <==> forall i :: 1 <= i < |v| ==> v[i] == v[i - 1]
  {
    hide CalcJitter;
    if |v| >= 2 {
      var f := Front(v);
      JitterZeroIff(f);
      CalcJitterZeroIff(Jitter(f), Last(v) - Last(f));
      assert Last(v) == v[|v| - 1] && Last(f) == v[|v| - 2];
      if Jitter(v) == 0.0 {
        forall i | 1 <= i < |v| ensures v[i] == v[i - 1] {
          if i < |f| { assert f[i] == f[i - 1]; }
        }
      }
    }
  }

  /** 15/16 to the power n. */
  function Damping(n: nat): real {
    if n == 0 then 1.0 else 0.9375 * Damping(n - 1)
  }

  /** Reply `k` lies `d` above or below the one before. */
  predicate Moved(v: seq<real>, k: nat, d: real)
    requires 1 <= k < |v|
  {
    v[k] - v[k - 1] == d || v[k - 1] - v[k] == d
  }

  /** From `i` on, consecutive replies lie `d` apart. */
  ghost predicate Apart(v: seq<real>, i: nat, d: real) {
    i >= 1 && forall k :: i <= k < |v| ==> Moved(v, k, d)
  }

  lemma ApartFront(v: seq<real>, i: nat, d: real)
    requires Apart(v, i, d) && i < |v|
    ensures Apart(Front(v), i, d)
    ensures Last(v) - Last(Front(v)) == d || Last(Front(v)) - Last(v) == d
  {
    assert Moved(v, |v| - 1, d);
    forall k | i <= k < |v| - 1 ensures Moved(Front(v), k, d) { assert Moved(v, k, d); }
  }

  lemma JitterMoves(v: seq<real>, d: real)
    requires |v| >= 2 && d >= 0.0
    requires Last(v) - Last(Front(v)) == d || Last(Front(v)) - Last(v) == d
    ensures d - Jitter(v) == 0.9375 * (d - Jitter(Front(v)))
  {
    var j := Jitter(Front(v));
    assert Jitter(v) == CalcJitter(j, Last(v) - Last(Front(v)));
    hide Jitter;
  }

  lemma Damped(a: real, x: real)
    ensures Times(0.9375 * a, x) == 0.9375 * Times(a, x)
    ensures Times(1.0, x) == x
  {
  }

  /** While consecutive replies differ by `d`, up or down, each brings the jitter a sixteenth of the
      way from what it was towards `d`. */
  lemma {:induction false} JitterConverges(before: seq<real>, after: seq<real>, d: real)
    requires before != [] && d >= 0.0 && Apart(before + after, |before|, d)
    ensures d - Jitter(before + after) == Times(Damping(|after|), d - Jitter(before))
  {
    hide Jitter, Apart, Times;
    Damped(if after == [] then 0.0 else Damping(|after| - 1), d - Jitter(before));
    if after == [] {
      assert before + after == before;
    } else {
      assert Front(before + after) == before + after[..|after| - 1];
      ApartFront(before + after, |before|, d);
      JitterConverges(before, after[..|after| - 1], d);
      JitterMoves(before + after, d);
    }
  }

  /** In closed form, for n + 1 replies each `d` from the one before. */
  lemma JitterIs(v: seq<real>, d: real)
    requires v != [] && d >= 0.0 && Apart(v, 1, d)
    ensures Jitter(v) == d - Times(Damping(|v| - 1), d)
  {
    assert Jitter(v[..1]) == 0.0;
    hide Jitter, Apart, Times;
    assert v == v[..1] + v[1..];
    JitterConverges(v[..1], v[1..], d);
  }

  /** Every probe is counted once as received or lost; jitter is bounded by the spread of the
      replies, and the loss rate is a percentage. */
  lemma BatchInvariants(raw: seq<real>)
    ensures var b := Batch(raw);
            && b.sent == b.received + b.lost == |b.history| == |raw|
            && b.received == |Valid(b.history)|
            && 0.0 <= b.lossRate <= 100.0
            && Times(b.lossRate, b.sent as real) == 100.0 * (b.lost as real)
            && (b.received == 0 ==> b.summary == Summary(99999.0, 0.0, 0.0, 0.0) && b.jitter == 0.0)
            && (b.received > 0 ==>
                  && b.summary == Definition(Valid(b.history))
                  && 0.0 <= b.jitter <= b.summary.max - b.summary.min
                  && 0.0 <= b.summary.min <= b.summary.mean <= b.summary.max)
  {
    hide Jitter, LossRate, Times;
    HistoryKeepsValid(raw);
    var v := Valid(raw);
    Percentage(|raw| - |v|, |raw|);
    JitterStarts();
    if v != [] {
      ValidAreValid(raw);
      VarianceBounds(v);
      DefinitionUnfolds(v);
      ExtremesAre(v[0], v);
      JitterBounds(v, MinFrom(v[0], v), MaxFrom(v[0], v));
    }
  }

  lemma Percentage(k: nat, n: nat)
    requires k <= n
    ensures 0.0 <= LossRate(k, n) <= 100.0
    ensures Times(LossRate(k, n), n as real) == 100.0 * (k as real)
  {
    if n > 0 {
      var (x, y) := (k as real, n as real);
      Quotient(x, y);
      var q := Over(x, n);
      assert Times(q, y) == x;
      Scaled(q, y);
      hide Over, Times;
    }
  }

  lemma Quotient(x: real, y: real)
    requires 0.0 <= x <= y && y > 0.0
    ensures 0.0 <= x / y <= 1.0 && x / y * y == x
  {
  }

  lemma Scaled(q: real, y: real)
    ensures Times(q * 100.0, y) == 100.0 * Times(q, y)
  {
  }
}
