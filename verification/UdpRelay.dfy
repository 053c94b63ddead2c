/** The UDP relay: receive a datagram, copy it to the relay buffer with streaming stores,
    forward it, account for it, and clear what was received. */
module UdpRelay {
  import opened Machine
  import opened MemoryKernels

  /** One round of the worker loop. `Quiet`: recvfrom timed out, failed, or delivered an empty
      datagram. `Packet`: it delivered `data`; sendto then returned `sent`, and copying plus
      sending took `us` microseconds. */
  datatype Turn = Quiet | Packet(data: seq<byte>, sent: int, us: real) {
    predicate Valid() {
      Packet? ==> 1 <= |data| <= BUFFER && sent <= |data| && us >= 0.0
    }

    predicate Forwarded() { Packet? && sent > 0 }
  }

  const BUFFER: nat := 65536

  /** The payloads handed to sendto must be the datagrams received, in order. */
  function Payloads(turns: seq<Turn>): seq<seq<byte>> {
    if turns == [] then []
    else
      var t := turns[|turns| - 1];
      Payloads(turns[..|turns| - 1]) + (if t.Packet? then [t.data] else [])
  }

  function PacketCount(turns: seq<Turn>): nat {
    if turns == [] then 0
    else PacketCount(turns[..|turns| - 1]) + (if turns[|turns| - 1].Forwarded() then 1 else 0)
  }

  function ByteCount(turns: seq<Turn>): nat {
    if turns == [] then 0
    else
      var t := turns[|turns| - 1];
      ByteCount(turns[..|turns| - 1]) + (if t.Forwarded() then t.sent else 0)
  }

  /** The moving average of the successful sends: 0.95 of the old value plus 0.05 of the new. */
  function Average(turns: seq<Turn>): real {
    if turns == [] then 0.0
    else
      var t := turns[|turns| - 1];
      var a := Average(turns[..|turns| - 1]);
      if t.Forwarded() then a * 0.95 + t.us * 0.05 else a
  }

  /** The longest datagram so far. */
  function Longest(turns: seq<Turn>): nat {
    if turns == [] then 0
    else
      var t := turns[|turns| - 1];
      var n := Longest(turns[..|turns| - 1]);
      if t.Packet? && |t.data| > n then |t.data| else n
  }

  /** Largest latency of a successful send; zero if there was none. */
  function Slowest(turns: seq<Turn>): real {
    if turns == [] then 0.0
    else
      var t := turns[|turns| - 1];
      var m := Slowest(turns[..|turns| - 1]);
      if t.Forwarded() && t.us > m then t.us else m
  }

  ghost predicate AllValid(turns: seq<Turn>) {
    forall i :: 0 <= i < |turns| ==> turns[i].Valid()
  }

  /** The reported latency stays below the slowest send, strictly unless every send took no
      time at all: the average starts from zero and never quite catches up. */
  lemma {:induction false} AverageBounds(turns: seq<Turn>)
    requires AllValid(turns)
    ensures 0.0 <= Average(turns) <= Slowest(turns)
    ensures Slowest(turns) > 0.0 ==> Average(turns) < Slowest(turns)
  {
    if turns != [] {
      AverageBounds(turns[..|turns| - 1]);
    }
  }

  /** A stretch of sends that all take `us` moves the average geometrically towards `us`. */
  lemma {:induction false} AverageConverges(before: seq<Turn>, after: seq<Turn>, us: real)
    requires forall i :: 0 <= i < |after| ==> after[i].Forwarded() && after[i].us == us
    ensures us - Average(before + after) == Decay(|after|) * (us - Average(before))
  {
    hide Average, Payloads, PacketCount, ByteCount, Longest;
    if after == [] {
      assert before + after == before;
    } else {
      var n := |after| - 1;
      AverageConverges(before, after[..n], us);
      assert before + after == (before + after[..n]) + [after[n]];
      OneMore(before + after[..n], after[n]);
      Scaled(Decay(n), us - Average(before));
    }
  }

  lemma Scaled(d: real, x: real)
    ensures (0.95 * d) * x == 0.95 * (d * x)
  {
  }

  /** 0.95 to the power n. */
  function Decay(n: nat): real {
    if n == 0 then 1.0 else 0.95 * Decay(n - 1)
  }

  function Total(payloads: seq<seq<byte>>): nat {
    if payloads == [] then 0 else Total(payloads[..|payloads| - 1]) + |payloads[|payloads| - 1]|
  }

  lemma TotalMore(payloads: seq<seq<byte>>, p: seq<byte>)
    ensures Total(payloads + [p]) == Total(payloads) + |p|
  {
    assert (payloads + [p])[..|payloads|] == payloads;
  }

  /** Every forwarded packet carries at least one byte, and no more is forwarded than the payloads
      hold. */
  lemma {:induction false} CountsAgree(turns: seq<Turn>)
    requires AllValid(turns)
    ensures PacketCount(turns) <= ByteCount(turns) <= Total(Payloads(turns))
    ensures PacketCount(turns) <= |Payloads(turns)|
    ensures Longest(turns) <= BUFFER
  {
    if turns != [] {
      var (rest, t) := (turns[..|turns| - 1], turns[|turns| - 1]);
      CountsAgree(rest);
      assert t.Valid();
      assert turns == rest + [t];
      OneMore(rest, t);
      TotalMore(Payloads(rest), if t.Packet? then t.data else []);
      assert Payloads(rest) + [] == Payloads(rest);
    }
  }

  /** The slowest successful send: none takes longer, and it is one of them if there is any. */
  lemma {:induction false} SlowestIs(turns: seq<Turn>)
    requires AllValid(turns)
    ensures forall i :: 0 <= i < |turns| && turns[i].Forwarded() ==> turns[i].us <= Slowest(turns)
    ensures Slowest(turns) == 0.0
      || exists i :: 0 <= i < |turns| && turns[i].Forwarded() && turns[i].us == Slowest(turns)
  {
    if turns != [] {
      var rest := turns[..|turns| - 1];
      SlowestIs(rest);
      assert forall i :: 0 <= i < |rest| ==> rest[i] == turns[i];
    }
  }

  /** Every datagram of UDP is covered, with every outcome of the sending. */
  lemma AnyDatagram(data: seq<byte>, sent: int, us: real)
    requires 1 <= |data| <= 65536 && sent <= |data| && us >= 0.0
    ensures Packet(data, sent, us).Valid()
  {
  }

  /** One more round. */
  lemma OneMore(before: seq<Turn>, t: Turn)
    ensures var after := before + [t];
            && Payloads(after) == Payloads(before) + (if t.Packet? then [t.data] else [])
            && PacketCount(after) == PacketCount(before) + (if t.Forwarded() then 1 else 0)
            && ByteCount(after) == ByteCount(before) + (if t.Forwarded() then t.sent else 0)
            && Average(after) == (if t.Forwarded() then Average(before) * 0.95 + t.us * 0.05 else Average(before))
            && Longest(after) == if t.Packet? && |t.data| > Longest(before) then |t.data| else Longest(before)
  {
    assert (before + [t])[..|before|] == before;
  }

  /** Memory between two rounds: the packet buffer is clear as far as any datagram reached,
      and nothing but the two buffers has changed. */
  ghost predicate BetweenRounds(now: seq<byte>, was: seq<byte>, packet: nat, relay: nat, reached: nat) {
    && |now| == |was|
    && (forall i :: 0 <= i < |was| && packet <= i < packet + reached ==> now[i] == 0)
    && (forall i :: 0 <= i < |was| && !(packet <= i < packet + reached) && !(relay <= i < relay + BUFFER)
          ==> now[i] == was[i])
  }

  lemma Wraps(counter: u64, total: nat, more: nat)
    requires counter == total % TWO64
    ensures (counter + more) % TWO64 == (total + more) % TWO64
  {
  }

  lemma NoRounds(was: seq<byte>, packet: nat, relay: nat)
    ensures Payloads([]) == [] && Longest([]) == 0 && BetweenRounds(was, was, packet, relay, 0)
  {
  }

  /** Receiving over stale bytes, copying and clearing: the copy is the datagram, whatever
      both buffers held. */
  lemma RoundEffect(was: seq<byte>, now: seq<byte>, packet: nat, relay: nat, data: seq<byte>, reached: nat)
    requires packet + BUFFER <= |now| && relay + BUFFER <= |now|
    requires packet + BUFFER <= relay || relay + BUFFER <= packet
    requires |data| <= BUFFER && reached <= BUFFER
    requires BetweenRounds(now, was, packet, relay, reached)
    ensures var copied := Copied(Stored(now, packet, data), relay, packet, |data|);
            && copied[relay..relay + |data|] == data
            && BetweenRounds(Cleared(copied, packet, |data|), was, packet, relay,
                             if |data| > reached then |data| else reached)
  {
    var filled := Stored(now, packet, data);
    var copied := Copied(filled, relay, packet, |data|);
    assert forall i :: 0 <= i < |now| ==>
      filled[i] == if packet <= i < packet + |data| then data[i - packet] else now[i];
    assert forall i :: 0 <= i < |data| ==> copied[relay + i] == filled[packet + i] == data[i];
  }

  /** Index of the first round with a datagram; the length if there is none. */
  function FirstPacket(turns: seq<Turn>): (k: nat)
    ensures k <= |turns| && (k < |turns| ==> turns[k].Packet?)
    ensures forall i :: 0 <= i < k ==> !turns[i].Packet?
  {
    if turns == [] || turns[0].Packet? then 0 else 1 + FirstPacket(turns[1..])
  }

  /** The rounds whose datagram is passed on before the process ends: with AVX2 all of them;
      otherwise none with a datagram, except the first if there is AVX to copy it. */
  function Survived(cpu: Cpu, turns: seq<Turn>): seq<Turn> {
    var k := FirstPacket(turns);
    if cpu.avx2 || k == |turns| then turns else if cpu.avx then turns[..k + 1] else turns[..k]
  }

  datatype StartOutcome = Refused | Started | Terminated

  /** Between the two buffers the copy is one, and only AVX can be missing. */
  lemma RelayCopies(cpu: Cpu, packet: nat, relay: nat, n: nat)
    requires 0 < packet && 0 < relay && Aligned(relay, 32) && 1 <= n <= BUFFER
    requires packet + BUFFER <= relay || relay + BUFFER <= packet
    ensures CopiesWell(relay, packet, n)
    ensures MemcpyTrap(cpu, relay, packet, n) == if cpu.avx then NoTrap else InvalidOpcode
  {
  }

  class UdpProxy {
    var running: bool
    var joinable: bool
    var packetsForwarded: u64
    var bytesForwarded: u64
    var avgForwardLatencyUs: real

    /** The kept statistics are those of the rounds so far; counters are 64-bit. */
    ghost predicate Accounts(turns: seq<Turn>)
      reads this
    {
      && packetsForwarded == PacketCount(turns) % TWO64
      && bytesForwarded == ByteCount(turns) % TWO64
      && avgForwardLatencyUs == Average(turns)
    }

    constructor ()
      ensures !running && !joinable && Accounts([])
    {
      running, joinable := false, false;
      packetsForwarded, bytesForwarded, avgForwardLatencyUs := 0, 0, 0.0;
    }

    /** Refused while active; otherwise fresh counters and a worker. Assigning the new thread to
        one that was never joined ends the process; RelayLifecycle says when that happens. */
    method Start() returns (outcome: StartOutcome)
      modifies this
      ensures old(running) ==> outcome == Refused && unchanged(this)
      ensures !old(running) && old(joinable) ==> outcome == Terminated
      ensures !old(running) && !old(joinable) ==> outcome == Started && running && joinable && Accounts([])
    {
      if running { return Refused; }
      running := true;
      packetsForwarded, bytesForwarded, avgForwardLatencyUs := 0, 0, 0.0;
      if joinable { return Terminated; }
      joinable := true;
      return Started;
    }

    /** `if (sent > 0) { ... }` */
    method Account(ghost before: seq<Turn>, t: Turn)
      requires t.Forwarded() && Accounts(before)
      modifies this`packetsForwarded, this`bytesForwarded, this`avgForwardLatencyUs
      ensures Accounts(before + [t])
    {
      Wraps(packetsForwarded, PacketCount(before), 1);
      Wraps(bytesForwarded, ByteCount(before), t.sent);
      packetsForwarded := (packetsForwarded + 1) % TWO64;
      bytesForwarded := (bytesForwarded + t.sent) % TWO64;
      avgForwardLatencyUs := avgForwardLatencyUs * 0.95 + t.us * 0.05;
      hide Payloads, PacketCount, ByteCount, Average, Longest;
      OneMore(before, t);
    }

    /** `recvfrom` */
    method Receive(mem: array<byte>, packet: nat, data: seq<byte>)
      requires packet + |data| <= mem.Length
      modifies mem
      ensures mem[..] == Stored(old(mem[..]), packet, data)
    {
      ghost var was := mem[..];
      forall i | packet <= i < packet + |data| { mem[i] := data[i - packet]; }
      assert mem[..] == Stored(was, packet, data);
    }

    /** A round with the datagram `t.data`: receive, copy, send, account and clear. The copy and
        the clearing are called without asking for AVX or AVX2. */
    method Forward(cpu: Cpu, mem: array<byte>, ghost was: seq<byte>, packet: nat, relay: nat, t: Turn,
                   ghost before: seq<Turn>)
      returns (sent: seq<seq<byte>>, trap: Trap)
      requires 0 < packet && packet + BUFFER <= mem.Length
      requires 0 < relay && relay + BUFFER <= mem.Length && Aligned(relay, 32)
      requires packet + BUFFER <= relay || relay + BUFFER <= packet
      requires t.Packet? && t.Valid() && Accounts(before) && Longest(before) <= BUFFER
      requires BetweenRounds(mem[..], was, packet, relay, Longest(before))
      modifies mem, this`packetsForwarded, this`bytesForwarded, this`avgForwardLatencyUs
      ensures trap == if cpu.avx2 then NoTrap else InvalidOpcode
      ensures sent == if cpu.avx then [t.data] else []
      ensures Accounts(if cpu.avx then before + [t] else before)
      ensures trap == NoTrap ==> BetweenRounds(mem[..], was, packet, relay, Longest(before + [t]))
    {
      hide BetweenRounds, Cleared, Copied, Stored, Aligned, CopyChunks, MemcpyTrap, MemcpyResult, CopiesWell;
      hide Payloads, PacketCount, ByteCount, Average, Longest;
      RoundEffect(was, mem[..], packet, relay, t.data, Longest(before));
      OneMore(before, t);
      var received := |t.data|;
      RelayCopies(cpu, packet, relay, received);
      Receive(mem, packet, t.data);
      sent := [];
      trap := Avx2Memcpy(cpu, mem, relay, packet, received);
      if trap != NoTrap { return; }
      sent := [mem[relay..relay + received]];
      if t.sent > 0 {
        Account(before, t);
      }
      trap := Avx2Memzero(cpu, mem, packet, received);
    }

    /** The worker loop over the rounds it runs before it sees the flag cleared. `wire` lists
        what was passed to sendto. Both buffers are 32-byte aligned; what they hold at first is
        arbitrary. Since every prefix of a run is a run, this also describes each round. */
    method Relay(cpu: Cpu, mem: array<byte>, packet: nat, relay: nat, turns: seq<Turn>)
      returns (wire: seq<seq<byte>>, trap: Trap)
      requires 0 < packet && packet + BUFFER <= mem.Length && Aligned(packet, 32)
      requires 0 < relay && relay + BUFFER <= mem.Length && Aligned(relay, 32)
      requires packet + BUFFER <= relay || relay + BUFFER <= packet
      requires AllValid(turns) && Accounts([])
      modifies mem, this`packetsForwarded, this`bytesForwarded, this`avgForwardLatencyUs
      ensures trap == if cpu.avx2 || FirstPacket(turns) == |turns| then NoTrap else InvalidOpcode
      ensures wire == Payloads(Survived(cpu, turns))
      ensures Accounts(Survived(cpu, turns))
      ensures trap == NoTrap ==> BetweenRounds(mem[..], old(mem[..]), packet, relay, Longest(turns))
    {
      hide Payloads, PacketCount, ByteCount, Average, Longest, BetweenRounds;
      wire, trap := [], NoTrap;
      ghost var was := mem[..];
      NoRounds(was, packet, relay);
      assert turns[..0] == [];
      for k := 0 to |turns|
        invariant wire == Payloads(turns[..k])
        invariant Accounts(turns[..k])
        invariant BetweenRounds(mem[..], was, packet, relay, Longest(turns[..k]))
        invariant cpu.avx2 || k <= FirstPacket(turns)
        invariant trap == NoTrap
      {
        var t := turns[k];
        assert turns[..k + 1] == turns[..k] + [t] && t.Valid();
        OneMore(turns[..k], t);
        if t.Packet? {
          CountsAgree(turns[..k]);
          var sent;
          sent, trap := Forward(cpu, mem, was, packet, relay, t, turns[..k]);
          wire := wire + sent;
          if trap != NoTrap { return; }
        }
      }
      assert turns[..|turns|] == turns;
    }
  }
}
