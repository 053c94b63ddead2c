/** The DNS query packet, and the question name decoded again by the rules of sections 3.1 and
    4.1.2 of RFC 1035. */
module DnsQuery {
  import opened Machine

  const DOT: byte := 0x2E

  /** Transaction id, recursion desired, one question, no other records. */
  const HEADER: seq<byte> := [0x12, 0x34, 0x01, 0x00, 0x00, 0x01, 0x00, 0x00, 0x00, 0x00, 0x00, 0x00]

  /** Type A, class IN. */
  const TRAILER: seq<byte> := [0x00, 0x01, 0x00, 0x01]

  /** `domain.find('.', from)`, with the length standing for npos. */
  function FindDot(d: seq<byte>, from: nat): (k: nat)
    requires from <= |d|
    ensures from <= k <= |d|
    ensures k < |d| ==> d[k] == DOT
    ensures forall i :: from <= i < k ==> d[i] != DOT
    decreases |d| - from
  {
    if from == |d| || d[from] == DOT then from else FindDot(d, from + 1)
  }

  /** The labels from position `from` on. */
  function Labels(d: seq<byte>, from: nat): (ls: seq<seq<byte>>)
    requires from <= |d|
    ensures ls != []
    decreases |d| - from
  {
    var k := FindDot(d, from);
    if k == |d| then [d[from..]] else [d[from..k]] + Labels(d, k + 1)
  }

  lemma LabelsFirst(d: seq<byte>, from: nat)
    requires from <= |d|
    ensures var k := FindDot(d, from);
            Labels(d, from) == if k == |d| then [d[from..]] else [d[from..k]] + Labels(d, k + 1)
  {
  }

  /** `static_cast<uint8_t>` of a length. */
  function LengthByte(n: nat): byte { n % 0x100 }

  /** A label with its length byte, which holds the length modulo 256. */
  function WireLabel(l: seq<byte>): seq<byte> { [LengthByte(|l|)] + l }

  function Wire(ls: seq<seq<byte>>): seq<byte> {
    if ls == [] then [] else WireLabel(ls[0]) + Wire(ls[1..])
  }

  /** The encoded name: all labels, then the root label. */
  function QName(d: seq<byte>): seq<byte> { Wire(Labels(d, 0)) + [0] }

  lemma {:induction false} WireConcat(a: seq<seq<byte>>, b: seq<seq<byte>>)
    ensures Wire(a + b) == Wire(a) + Wire(b)
  {
    if a == [] {
      assert a + b == b;
    } else {
      assert (a + b)[1..] == a[1..] + b;
      WireConcat(a[1..], b);
    }
  }

  lemma WireSnoc(done: seq<seq<byte>>, l: seq<byte>)
    ensures Wire(done + [l]) == Wire(done) + WireLabel(l)
  {
    WireConcat(done, [l]);
    assert Wire([l]) == WireLabel(l) + Wire([]);
  }

  /** `packet.push_back(length)` and the characters of `part` one by one. */
  method PushLabel(packet: seq<byte>, part: seq<byte>) returns (packet': seq<byte>)
    ensures packet' == packet + WireLabel(part)
  {
    packet' := packet + [LengthByte(|part|)];
    for i := 0 to |part|
      invariant packet' == packet + [LengthByte(|part|)] + part[..i]
    {
      packet' := packet' + [part[i]];
    }
  }

  lemma Appended(start: seq<byte>, done: seq<seq<byte>>, l: seq<byte>)
    ensures start + Wire(done) + WireLabel(l) == start + Wire(done + [l])
  {
    hide Wire, WireLabel;
    WireSnoc(done, l);
  }

  /** `Encode QNAME`: the loop over the dots, the last label and the root label. */
  method PushName(start0: seq<byte>, domain: seq<byte>) returns (packet: seq<byte>)
    ensures packet == start0 + QName(domain)
  {
    hide Wire, WireLabel, Labels, FindDot;
    packet := start0;
    var start := 0;
    var dot := FindDot(domain, 0);
    ghost var done: seq<seq<byte>> := [];
    WireNothing();
    while dot != |domain|
      invariant 0 <= start <= |domain| && dot == FindDot(domain, start)
      invariant Labels(domain, 0) == done + Labels(domain, start)
      invariant packet == start0 + Wire(done)
      decreases |domain| - start
    {
      LabelsFirst(domain, start);
      var part := domain[start..dot];
      packet := PushLabel(packet, part);
      Appended(start0, done, part);
      assert done + ([part] + Labels(domain, dot + 1)) == (done + [part]) + Labels(domain, dot + 1);
      done := done + [part];
      start := dot + 1;
      dot := FindDot(domain, start);
    }
    LabelsFirst(domain, start);
    var last := domain[start..];
    packet := PushLabel(packet, last);
    Appended(start0, done, last);
    packet := packet + [0];
  }

  /** The packet built by `MeasureDnsLatency`. */
  method BuildQuery(domain: seq<byte>) returns (packet: seq<byte>)
    ensures packet == HEADER + QName(domain) + TRAILER
  {
    hide QName;
    packet := HEADER;
    packet := PushName(packet, domain);
    packet := packet + TRAILER;
  }

  lemma WireNothing()
    ensures Wire([]) == []
  {
  }

  // ---- The shape of the encoding ------------------------------------------------------------

  /** What stands at place `i` of the domain, one place later in the encoding. */
  function Encoded(d: seq<byte>, i: nat): byte
    requires i < |d|
  {
    if d[i] as char == '.' then LengthByte(FindDot(d, i + 1) - (i + 1)) else d[i]
  }

  /** The name is the domain moved up by one, with every dot, and the new first place, holding
      the length of the label that follows, modulo 256. */
  lemma {:induction false} WireShape(d: seq<byte>, from: nat)
    requires from <= |d|
    ensures var w := Wire(Labels(d, from));
            && |w| == |d| - from + 1
            && w[0] == LengthByte(FindDot(d, from) - from)
            && forall i :: from <= i < |d| ==> w[i - from + 1] == Encoded(d, i)
    decreases |d| - from
  {
    hide LengthByte, FindDot;
    var k := FindDot(d, from);
    WireFirst(d, from);
    if k < |d| {
      WireShape(d, k + 1);
      hide Wire, Labels;
      var (w, rest) := (Wire(Labels(d, from)), Wire(Labels(d, k + 1)));
      forall i | from <= i < |d|
        ensures w[i - from + 1] == Encoded(d, i)
      {
        if i > k { assert w[i - from + 1] == rest[i - (k + 1) + 1]; }
      }
    }
  }

  lemma WireFirst(d: seq<byte>, from: nat)
    requires from <= |d|
    ensures var k := FindDot(d, from);
            Wire(Labels(d, from)) ==
              WireLabel(d[from..k]) + if k == |d| then [] else Wire(Labels(d, k + 1))
  {
    hide WireLabel, FindDot;
    var k := FindDot(d, from);
    if k < |d| {
      assert Labels(d, from)[1..] == Labels(d, k + 1);
    } else {
      WireSnoc([], d[from..]);
      WireNothing();
      assert d[from..k] == d[from..] && [] + [d[from..]] == [d[from..]];
      assert WireLabel(d[from..]) + [] == WireLabel(d[from..]) == [] + WireLabel(d[from..]);
    }
  }

  lemma QNameLength(d: seq<byte>)
    ensures |QName(d)| == |d| + 2 && QName(d)[|d| + 1] == 0
  {
    WireShape(d, 0);
  }

  // ---- The labels are the ones between the dots -----------------------------------------------

  function Join(ls: seq<seq<byte>>): seq<byte>
    requires ls != []
  {
    if |ls| == 1 then ls[0] else ls[0] + ['.' as byte] + Join(ls[1..])
  }

  ghost predicate DotFree(ls: seq<seq<byte>>) {
    forall j, i :: 0 <= j < |ls| && 0 <= i < |ls[j]| ==> ls[j][i] as char != '.'
  }

  lemma {:induction false} LabelsJoin(d: seq<byte>, from: nat)
    requires from <= |d|
    ensures DotFree(Labels(d, from)) && Join(Labels(d, from)) == d[from..]
    decreases |d| - from
  {
    hide Join, Labels, FindDot;
    var k := FindDot(d, from);
    LabelsFirst(d, from);
    if k < |d| {
      LabelsJoin(d, k + 1);
      JoinMore(d[from..k], Labels(d, k + 1));
      assert d[from..] == d[from..k] + [DOT] + d[k + 1..];
    } else {
      JoinOne(d[from..]);
    }
  }

  lemma JoinOne(l: seq<byte>)
    ensures Join([l]) == l
  {
  }

  lemma JoinMore(l: seq<byte>, ls: seq<seq<byte>>)
    requires ls != []
    ensures Join([l] + ls) == l + [DOT] + Join(ls)
  {
    assert ([l] + ls)[1..] == ls;
  }

  // ---- Decoding -------------------------------------------------------------------------------

  datatype Decoded = Malformed | Name(labels: seq<seq<byte>>, rest: seq<byte>)

  /** Length byte 0 ends the name; 1 to 63 start a label; larger values are pointers or reserved. */
  function DecodeLabels(w: seq<byte>): Decoded
    decreases |w|
  {
    if w == [] then Malformed
    else if w[0] == 0 then Name([], w[1..])
    else if w[0] > 63 || 1 + w[0] as int > |w| then Malformed
    else
      var n := 1 + w[0] as int;
      match DecodeLabels(w[n..])
      case Malformed => Malformed
      case Name(labels, rest) => Name([w[1..n]] + labels, rest)
  }

  /** A whole name has at most 255 bytes, length bytes included. */
  function Decode(w: seq<byte>): Decoded {
    var d := DecodeLabels(w);
    if d.Name? && |w| - |d.rest| > 255 then Malformed else d
  }

  ghost predicate LegalLabels(ls: seq<seq<byte>>) {
    forall j :: 0 <= j < |ls| ==> 1 <= |ls[j]| <= 63
  }

  lemma {:induction false} DecodedLegal(w: seq<byte>)
    ensures DecodeLabels(w).Name? ==> LegalLabels(DecodeLabels(w).labels)
    decreases |w|
  {
    if w != [] && 0 < w[0] <= 63 && 1 + w[0] as int <= |w| {
      DecodedLegal(w[1 + w[0] as int..]);
    }
  }

  /** Decoding succeeds exactly on encoded legal labels, and gives them back with what follows. */
  lemma {:induction false} DecodeIff(w: seq<byte>, ls: seq<seq<byte>>, rest: seq<byte>)
    ensures DecodeLabels(w) == Name(ls, rest) <==> LegalLabels(ls) && w == Wire(ls) + [0] + rest
    decreases |w|
  {
    if DecodeLabels(w) == Name(ls, rest) {
      DecodedLegal(w);
      DecodedWire(w);
    } else if LegalLabels(ls) && w == Wire(ls) + [0] + rest {
      DecodeWire(ls, rest);
    }
  }

  lemma {:induction false} DecodedWire(w: seq<byte>)
    ensures var d := DecodeLabels(w); d.Name? ==> w == Wire(d.labels) + [0] + d.rest
    decreases |w|
  {
    var d := DecodeLabels(w);
    if d.Name? {
      if w[0] == 0 {
        assert w == [] + [0] + w[1..];
      } else {
        var n := 1 + w[0] as int;
        DecodedWire(w[n..]);
        assert d.labels[1..] == DecodeLabels(w[n..]).labels;
        assert WireLabel(w[1..n]) == w[..n];
        assert w == w[..n] + w[n..];
      }
    }
  }

  lemma {:induction false} DecodeWire(ls: seq<seq<byte>>, tail: seq<byte>)
    requires LegalLabels(ls)
    ensures DecodeLabels(Wire(ls) + [0] + tail) == Name(ls, tail)
  {
    if ls == [] {
      assert Wire(ls) + [0] + tail == [0] + tail;
      assert ([0] + tail)[1..] == tail;
    } else {
      DecodeWire(ls[1..], tail);
      hide DecodeLabels;
      var more := Wire(ls[1..]) + [0] + tail;
      assert Wire(ls) + [0] + tail == WireLabel(ls[0]) + more;
      DecodeLabel(ls[0], more);
      assert ls == [ls[0]] + ls[1..];
    }
  }

  lemma LabelParts(l: seq<byte>, more: seq<byte>)
    requires |l| <= 255
    ensures var w := WireLabel(l) + more;
            |w| >= 1 + |l| && w[0] == |l| && w[1..1 + |l|] == l && w[1 + |l|..] == more
  {
  }

  lemma DecodeFirst(w: seq<byte>)
    requires w != [] && 0 < w[0] <= 63 && 1 + w[0] as int <= |w|
    requires DecodeLabels(w[1 + w[0] as int..]).Name?
    ensures var (n, d) := (1 + w[0] as int, DecodeLabels(w[1 + w[0] as int..]));
            DecodeLabels(w) == Name([w[1..n]] + d.labels, d.rest)
  {
  }

  /** A legal label in front is decoded first. */
  lemma DecodeLabel(l: seq<byte>, more: seq<byte>)
    requires 1 <= |l| <= 63 && DecodeLabels(more).Name?
    ensures DecodeLabels(WireLabel(l) + more) == Name([l] + DecodeLabels(more).labels, DecodeLabels(more).rest)
  {
    hide DecodeLabels, WireLabel;
    LabelParts(l, more);
    DecodeFirst(WireLabel(l) + more);
  }

  /** Decoding the question gives back the labels of the domain, and leaves type and class,
      exactly when every label has 1 to 63 bytes and the domain at most 253. */
  lemma RoundTripIff(domain: seq<byte>, tail: seq<byte>)
    ensures Decode(QName(domain) + tail) == Name(Labels(domain, 0), tail)
       <==> LegalLabels(Labels(domain, 0)) && |domain| <= 253
  {
    QNameLength(domain);
    if LegalLabels(Labels(domain, 0)) {
      DecodeWire(Labels(domain, 0), tail);
    } else {
      DecodedLegal(QName(domain) + tail);
    }
  }

  // ---- The whole packet ---------------------------------------------------------------------------

  /** Two bytes of a packet, the high one first. */
  function Big16(w: seq<byte>, i: nat): u16
    requires i + 2 <= |w|
  {
    0x100 * (w[i] as int) + w[i + 1] as int
  }

  /** A message with one question and no other records, as sections 4.1.1 and 4.1.2 of RFC 1035
      lay it out: identification, flags (`low` is the byte that answers use), and the question. */
  datatype Message =
    | Unreadable
    | Question(id: nat, response: bool, opcode: nat, authoritative: bool, truncated: bool, recursion: bool,
               low: nat, labels: seq<seq<byte>>, qtype: nat, qclass: nat)

  function DecodeMessage(w: seq<byte>): Message {
    if |w| < 12 then Unreadable
    else if Big16(w, 4) != 1 || Big16(w, 6) != 0 || Big16(w, 8) != 0 || Big16(w, 10) != 0 then Unreadable
    else
      match Decode(w[12..])
      case Malformed => Unreadable
      case Name(labels, rest) =>
        if |rest| != 4 then Unreadable
        else
          var flags := w[2] as int;
          Question(Big16(w, 0), flags / 0x80 == 1, flags / 8 % 0x10, flags / 4 % 2 == 1, flags / 2 % 2 == 1,
                   flags % 2 == 1, w[3], labels, Big16(rest, 0), Big16(rest, 2))
  }

  /** What the header says. */
  predicate QueryHeader(h: seq<byte>) {
    && |h| == 12
    && Big16(h, 0) == 0x1234 && h[2] == 1 && h[3] == 0
    && Big16(h, 4) == 1 && Big16(h, 6) == 0 && Big16(h, 8) == 0 && Big16(h, 10) == 0
  }

  lemma HeaderIs()
    ensures QueryHeader(HEADER)
    ensures |TRAILER| == 4 && Big16(TRAILER, 0) == 1 && Big16(TRAILER, 2) == 1
  {
  }

  lemma MessageParts(h: seq<byte>, q: seq<byte>, t: seq<byte>)
    requires QueryHeader(h) && |t| == 4
    ensures DecodeMessage(h + q + t) ==
      match Decode(q + t)
      case Malformed => Unreadable
      case Name(labels, rest) =>
        if |rest| != 4 then Unreadable
        else Question(0x1234, false, 0, false, false, true, 0, labels, Big16(rest, 0), Big16(rest, 2))
  {
    var w := h + q + t;
    assert w[12..] == q + t;
    assert forall i :: 0 <= i < 12 ==> w[i] == h[i];
    hide Decode;
  }

  /** The packet is a standard query with recursion desired for the addresses of the domain in the
      Internet, exactly if the domain has a legal name. */
  lemma QueryReadsIff(domain: seq<byte>)
    ensures DecodeMessage(HEADER + QName(domain) + TRAILER)
         == Question(0x1234, false, 0, false, false, true, 0, Labels(domain, 0), 1, 1)
       <==> LegalLabels(Labels(domain, 0)) && |domain| <= 253
  {
    HeaderIs();
    hide *;
    MessageParts(HEADER, QName(domain), TRAILER);
    RoundTripIff(domain, TRAILER);
    DecodedRest(domain);
  }

  /** Four bytes cannot be left over but as the trailer. */
  lemma DecodedRest(domain: seq<byte>)
    ensures var d := Decode(QName(domain) + TRAILER);
            d.Name? && |d.rest| == 4 ==> d.rest == TRAILER
  {
    var w := QName(domain) + TRAILER;
    RestIsSuffix(w);
    hide Decode, DecodeLabels, QName;
    DecodeIs(w);
    assert w[|w| - 4..] == TRAILER;
  }

  lemma DecodeIs(w: seq<byte>)
    ensures Decode(w).Name? ==> DecodeLabels(w) == Decode(w)
  {
    hide DecodeLabels;
  }

  lemma {:induction false} RestIsSuffix(w: seq<byte>)
    ensures var d := DecodeLabels(w);
            d.Name? ==> |d.rest| <= |w| && d.rest == w[|w| - |d.rest|..]
    decreases |w|
  {
    if w != [] && 0 < w[0] <= 63 && 1 + w[0] as int <= |w| {
      RestIsSuffix(w[1 + w[0] as int..]);
    }
  }

  // ---- Telling domains apart --------------------------------------------------------------------

  ghost predicate LabelsUpTo(ls: seq<seq<byte>>, limit: nat) {
    forall j :: 0 <= j < |ls| ==> |ls[j]| <= limit
  }

  /** While a length fits its byte, the encoding determines the labels, empty ones included. */
  lemma {:induction false} WireInjective(ls: seq<seq<byte>>, ms: seq<seq<byte>>)
    requires LabelsUpTo(ls, 255) && LabelsUpTo(ms, 255) && Wire(ls) == Wire(ms)
    ensures ls == ms
  {
    if ls != [] && ms != [] {
      var (l, m) := (ls[0], ms[0]);
      assert |l| == Wire(ls)[0] == Wire(ms)[0] == |m|;
      WireHead(ls);
      WireHead(ms);
      WireInjective(ls[1..], ms[1..]);
      assert ls == [l] + ls[1..] && ms == [m] + ms[1..];
    }
  }

  lemma WireHead(ls: seq<seq<byte>>)
    requires ls != []
    ensures var n := 1 + |ls[0]|;
            |Wire(ls)| >= n && Wire(ls)[1..n] == ls[0] && Wire(ls)[n..] == Wire(ls[1..])
  {
  }

  lemma QNameInjective(a: seq<byte>, b: seq<byte>)
    requires LabelsUpTo(Labels(a, 0), 255) && LabelsUpTo(Labels(b, 0), 255) && QName(a) == QName(b)
    ensures a == b
  {
    hide Wire, Labels, Join;
    var (w, v) := (Wire(Labels(a, 0)), Wire(Labels(b, 0)));
    assert w == QName(a)[..|w|] && |w| == |QName(a)| - 1 == |v| && v == QName(b)[..|v|];
    WireInjective(Labels(a, 0), Labels(b, 0));
    LabelsJoin(a, 0);
    LabelsJoin(b, 0);
    assert a[0..] == a && b[0..] == b;
  }

  /** 0xFF repeated `n` times: one label. */
  function Filled(n: nat): (l: seq<byte>)
    ensures |l| == n && forall i :: 0 <= i < n ==> l[i] == 0xFF
  {
    seq(n, _ => 0xFF)
  }

  lemma OneLabel(l: seq<byte>, from: nat)
    requires from <= |l| && forall i :: from <= i < |l| ==> l[i] != DOT
    ensures Labels(l, from) == [l[from..]]
  {
  }

  /** A label of 256 bytes 0xFF and an empty label followed by one of 255 have the same encoding. */
  lemma Collision()
    ensures var (a, b) := (Filled(256), [DOT] + Filled(255));
            && a != b && QName(a) == QName(b)
            && LabelsUpTo(Labels(a, 0), 256) && LabelsUpTo(Labels(b, 0), 256)
  {
    var (a, b) := (Filled(256), [DOT] + Filled(255));
    assert a[0] != b[0];
    OneLabel(a, 0);
    OneLabel(b, 1);
    assert b[1..] == Filled(255) && FindDot(b, 0) == 0 && b[0..0] == [];
    assert Labels(b, 0) == [[]] + [Filled(255)];
    assert a[0..] == a;
    WireSnoc([], a);
    WireSnoc([], []);
    WireSnoc([[]], Filled(255));
    WireNothing();
    var none: seq<seq<byte>>, empty: seq<byte> := [], [];
    assert none + [a] == [a] && none + [empty] == [empty];
    assert a == [0xFF] + Filled(255);
  }

  /** One encoding for both, no label longer than `limit`. */
  ghost predicate SameQuestion(a: seq<byte>, b: seq<byte>, limit: nat) {
    LabelsUpTo(Labels(a, 0), limit) && LabelsUpTo(Labels(b, 0), limit) && QName(a) == QName(b)
  }

  /** Different domains have different questions exactly as long as no label is longer than 255. */
  lemma QNameInjectiveIff(limit: nat)
    ensures (forall a, b :: SameQuestion(a, b, limit) ==> a == b) <==> limit <= 255
  {
    hide Labels, QName;
    if limit <= 255 {
      forall a, b | SameQuestion(a, b, limit) ensures a == b { QNameInjective(a, b); }
    } else {
      Collision();
      assert SameQuestion(Filled(256), [DOT] + Filled(255), limit);
    }
  }
}
