/** What the CRC is good for: the published check value, detection of every burst of errors that
    fits in 32 consecutive bits and of every error in an odd number of bits, and exactly which
    buffers of one length share their CRC. */
module Crc32cLaws {
  import opened Machine
  import opened Gf2
  import opened Crc32c

  // ---- Check value ------------------------------------------------------------------------

  function Four(c: bv32, s: seq<bool>): bv32
    requires |s| == 4
  {
    BitStep(BitStep(BitStep(BitStep(c, s[0]), s[1]), s[2]), s[3])
  }

  lemma SerialOne(c: bv32, s: seq<bool>)
    requires s != []
    ensures Serial(c, s) == Serial(BitStep(c, s[0]), s[1..])
  {
  }

  lemma FourIsSerial(c: bv32, s: seq<bool>)
    requires |s| == 4
    ensures Serial(c, s) == Four(c, s)
  {
    hide BitStep;
    var (c1, c2) := (BitStep(c, s[0]), BitStep(BitStep(c, s[0]), s[1]));
    var c3 := BitStep(c2, s[2]);
    assert s[1..][1..] == s[2..] && s[2..][1..] == s[3..];
    assert Serial(BitStep(c3, s[3]), s[3..][1..]) == BitStep(c3, s[3]);
    hide Serial;
    SerialOne(c, s);
    SerialOne(c1, s[1..]);
    SerialOne(c2, s[2..]);
    SerialOne(c3, s[3..]);
  }

  /** The register after one more byte of input. */
  function AfterByte(c: bv32, n: byte): bv32 { Four(Four(c, Nibble(n)), Nibble(n / 16)) }

  lemma ByteResult(c: bv32, n: byte)
    ensures Serial(c, BitsOf(n, 8)) == AfterByte(c, n)
  {
    assert BitsOf(n / 256, 0) == [];
    hide Four, Serial, BitsOf;
    BitsOf8(n, 0);
    assert BitsOf(n, 8) == Nibble(n) + Nibble(n / 16);
    SerialConcat(c, Nibble(n), Nibble(n / 16));
    FourIsSerial(c, Nibble(n));
    FourIsSerial(Four(c, Nibble(n)), Nibble(n / 16));
  }

  lemma SerialByByte(c: bv32, s: seq<byte>)
    requires s != []
    ensures Serial(c, MessageBits(s)) == Serial(AfterByte(c, s[0]), MessageBits(s[1..]))
  {
    hide Serial, BitsOf, AfterByte;
    ByteResult(c, s[0]);
    SerialConcat(c, BitsOf(s[0], 8), MessageBits(s[1..]));
  }

  lemma EndOfMessage(c: bv32)
    ensures Serial(c, MessageBits([])) == c
  {
  }

  lemma AfterByteIs(c: bv32, n: byte, lo: seq<bool>, hi: seq<bool>, mid: bv32, end: bv32)
    requires |lo| == |hi| == 4 && mid == Four(c, lo) && end == Four(mid, hi)
    requires Nibble(n) == lo && Nibble(n / 16) == hi
    ensures AfterByte(c, n) == end
  {
  }

  lemma Digits1To3()
    ensures AfterByte(0xFFFFFFFF, 0x31) == 0x6F0A661C
    ensures AfterByte(0x6F0A661C, 0x32) == 0x8CAA3B9F
    ensures AfterByte(0x8CAA3B9F, 0x33) == 0xEF84D04D
  {
    hide AfterByte;
    AfterByteIs(0xFFFFFFFF, 0x31, [true, false, false, false], [true, true, false, false],
                0xECCF57E5, 0x6F0A661C);
    AfterByteIs(0x6F0A661C, 0x32, [false, true, false, false], [true, true, false, false],
                0xE5C00E7B, 0x8CAA3B9F);
    AfterByteIs(0x8CAA3B9F, 0x33, [true, true, false, false], [true, true, false, false],
                0xCB47857D, 0xEF84D04D);
  }

  lemma Digits4To6()
    ensures AfterByte(0xEF84D04D, 0x34) == 0x09C50B11
    ensures AfterByte(0x09C50B11, 0x35) == 0xE72EDCCA
    ensures AfterByte(0xE72EDCCA, 0x36) == 0xBECA8E79
  {
    hide AfterByte;
    AfterByteIs(0xEF84D04D, 0x34, [false, false, true, false], [true, true, false, false],
                0x9C50B113, 0x09C50B11);
    AfterByteIs(0x09C50B11, 0x35, [true, false, true, false], [true, true, false, false],
                0x41E74D0D, 0xE72EDCCA);
    AfterByteIs(0xE72EDCCA, 0x36, [false, true, true, false], [true, true, false, false],
                0xCDFFCB08, 0xBECA8E79);
  }

  lemma Digits7To9()
    ensures AfterByte(0xBECA8E79, 0x37) == 0xEDBD6815
    ensures AfterByte(0xEDBD6815, 0x38) == 0x9F787F65
    ensures AfterByte(0x9F787F65, 0x39) == 0x1CF96D7C
  {
    hide AfterByte;
    AfterByteIs(0xBECA8E79, 0x37, [true, true, true, false], [true, true, false, false],
                0xE8DC00FD, 0xEDBD6815);
    AfterByteIs(0xEDBD6815, 0x38, [false, false, false, true], [true, true, false, false],
                0xDD08372A, 0x9F787F65);
    AfterByteIs(0x9F787F65, 0x39, [true, false, false, true], [true, true, false, false],
                0xCA7AA132, 0x1CF96D7C);
  }

  /** The check value of CRC-32C: the nine ASCII digits "123456789" give 0xE3069283. */
  lemma CheckValue()
    ensures Crc([0x31, 0x32, 0x33, 0x34, 0x35, 0x36, 0x37, 0x38, 0x39]) == 0xE306_9283
  {
    Digits1To3();
    Digits4To6();
    Digits7To9();
    hide Serial, MessageBits, AfterByte;
    var s: seq<byte> := [0x31, 0x32, 0x33, 0x34, 0x35, 0x36, 0x37, 0x38, 0x39];
    assert s[0..] == s && s[9..] == [];
    assert forall k :: 0 <= k < 9 ==> s[k..][1..] == s[k + 1..];
    SerialByByte(0xFFFFFFFF, s[0..]);
    SerialByByte(0x6F0A661C, s[1..]);
    SerialByByte(0x8CAA3B9F, s[2..]);
    SerialByByte(0xEF84D04D, s[3..]);
    SerialByByte(0x09C50B11, s[4..]);
    SerialByByte(0xE72EDCCA, s[5..]);
    SerialByByte(0xBECA8E79, s[6..]);
    SerialByByte(0xEDBD6815, s[7..]);
    SerialByByte(0x9F787F65, s[8..]);
    EndOfMessage(0x1CF96D7C);
  }

  // ---- Error detection --------------------------------------------------------------------

  /** Two messages agree outside the `n` positions from `i` on. */
  ghost predicate AgreeOutside<T>(a: seq<T>, b: seq<T>, i: nat, n: nat) {
    |a| == |b| && forall k :: 0 <= k < |a| && !(i <= k < i + n) ==> a[k] == b[k]
  }

  /** The register after a message, as a polynomial. */
  function Register(m: seq<bool>): poly { Feed(Bits(0xFFFF_FFFF, 32), m) }

  /** Equal checksums are equal registers. */
  lemma SameCrcIff(a: seq<byte>, b: seq<byte>)
    ensures Crc(a) == Crc(b) <==> Register(MessageBits(a)) == Register(MessageBits(b))
  {
    hide Serial, MessageBits, Bits, Feed, FromBits, Narrow, Complement;
    var x, y := Serial(0xFFFF_FFFF, MessageBits(a)), Serial(0xFFFF_FFFF, MessageBits(b));
    ComplementTwice(x);
    ComplementTwice(y);
    SerialIsFeed(0xFFFF_FFFF, MessageBits(a));
    SerialIsFeed(0xFFFF_FFFF, MessageBits(b));
    AlwaysNarrow(x);
    AlwaysNarrow(y);
    FromBitsBits(x, 32);
    FromBitsBits(y, 32);
  }

  lemma {:induction false} BitsOfInjective(n: nat, m: nat, k: nat, p: nat)
    requires p == Power(k) && n < p && m < p && BitsOf(n, k) == BitsOf(m, k)
    ensures n == m
    decreases k
  {
    if k > 0 {
      assert BitsOf(n, k)[1..] == BitsOf(n / 2, k - 1) && BitsOf(m, k)[1..] == BitsOf(m / 2, k - 1);
      assert BitsOf(n, k)[0] == BitsOf(m, k)[0];
      BitsOfInjective(n / 2, m / 2, k - 1, Power(k - 1));
    }
  }

  lemma {:induction false} MessageInjective(a: seq<byte>, b: seq<byte>)
    requires MessageBits(a) == MessageBits(b)
    ensures a == b
  {
    assert |a| == |b|;
    if a != [] {
      hide BitsOf;
      var x, y := BitsOf(a[0], 8), BitsOf(b[0], 8);
      assert MessageBits(a)[..8] == x && MessageBits(b)[..8] == y;
      assert MessageBits(a)[8..] == MessageBits(a[1..]) && MessageBits(b)[8..] == MessageBits(b[1..]);
      BitsOfInjective(a[0], b[0], 8, Power(8));
      MessageInjective(a[1..], b[1..]);
    }
  }

  /** Messages that agree outside a window, in three parts. */
  lemma AroundWindow(m: seq<bool>, n: seq<bool>, i: nat, k: nat)
    requires AgreeOutside(m, n, i, k) && i + k <= |m|
    ensures m == m[..i] + m[i..i + k] + m[i + k..] && n == m[..i] + n[i..i + k] + m[i + k..]
  {
    assert n[..i] == m[..i] && n[i + k..] == m[i + k..];
  }

  /** Every burst of errors within 32 consecutive transmitted bits changes the CRC. */
  lemma BitBurstDetected(a: seq<byte>, b: seq<byte>, i: nat)
    requires a != b && AgreeOutside(MessageBits(a), MessageBits(b), i, 32)
    ensures Crc(a) != Crc(b)
  {
    SameCrcIff(a, b);
    var (m, n) := (MessageBits(a), MessageBits(b));
    var lo := if i < |m| then i else |m|;
    var k := if lo + 32 < |m| then 32 else |m| - lo;
    assert AgreeOutside(m, n, lo, k);
    hide MessageBits, Crc, Feed, Bits, AgreeOutside;
    AroundWindow(m, n, lo, k);
    if m[lo..lo + k] == n[lo..lo + k] {
      MessageInjective(a, b);
    } else {
      BurstDetected(Bits(0xFFFF_FFFF, 32), m[..lo], m[lo..lo + k], n[lo..lo + k], m[lo + k..]);
    }
  }

  /** Of the errors within 33 consecutive bits exactly one pattern leaves the CRC as it was: the
      generator itself. */
  lemma LongerBitBurstIff(a: seq<byte>, b: seq<byte>, i: nat)
    requires a != b && AgreeOutside(MessageBits(a), MessageBits(b), i, 33) && i + 33 <= 8 * |a|
    ensures Crc(a) == Crc(b)
       <==> Xor(MessageBits(a)[i..i + 33], MessageBits(b)[i..i + 33]) == Generator()
  {
    hide MessageBits, Crc, Feed, Bits, Generator;
    SameCrcIff(a, b);
    var (m, n) := (MessageBits(a), MessageBits(b));
    AroundWindow(m, n, i, 33);
    if m[i..i + 33] == n[i..i + 33] { MessageInjective(a, b); }
    LongerBurstIff(Bits(0xFFFF_FFFF, 32), m[..i], m[i..i + 33], n[i..i + 33], m[i + 33..]);
  }

  /** Every error in an odd number of bits changes the CRC, at any length. */
  lemma OddErrorDetected(a: seq<byte>, b: seq<byte>)
    requires |a| == |b| && Weight(Xor(MessageBits(a), MessageBits(b))) % 2 == 1
    ensures Crc(a) != Crc(b)
  {
    hide MessageBits, Crc, Feed, Bits, Weight;
    SameCrcIff(a, b);
    OddWeightXor(MessageBits(a), MessageBits(b));
    FeedParity(Bits(0xFFFF_FFFF, 32), MessageBits(a));
    FeedParity(Bits(0xFFFF_FFFF, 32), MessageBits(b));
  }

  lemma {:induction false} MessageBitAt(s: seq<byte>, k: nat)
    requires k < 8 * |s|
    ensures MessageBits(s)[k] == BitsOf(s[k / 8], 8)[k % 8]
  {
    hide BitsOf;
    if k >= 8 {
      MessageBitAt(s[1..], k - 8);
    }
  }

  /** In particular every error within a window of four consecutive bytes. */
  lemma WindowErrorDetected(a: seq<byte>, b: seq<byte>, i: nat)
    requires a != b && AgreeOutside(a, b, i, 4)
    ensures Crc(a) != Crc(b)
  {
    hide BitsOf, MessageBits;
    forall k | 0 <= k < 8 * |a| && !(8 * i <= k < 8 * i + 32)
      ensures MessageBits(a)[k] == MessageBits(b)[k]
    {
      MessageBitAt(a, k);
      MessageBitAt(b, k);
    }
    BitBurstDetected(a, b, 8 * i);
  }

  /** In general two different buffers of the same length share their CRC exactly when they have
      at least four bytes and the difference of their bits is a multiple of the generator. */
  lemma CollisionIff(a: seq<byte>, b: seq<byte>)
    requires |a| == |b| && a != b
    ensures Crc(a) == Crc(b) <==>
      |a| >= 4 && exists q: poly ::
        |q| == 8 * |a| - 32 && Xor(MessageBits(a), MessageBits(b)) == TimesGenerator(q)
  {
    hide MessageBits, Crc, Feed, Bits, TimesGenerator;
    if |a| < 4 {
      WindowErrorDetected(a, b, 0);
    } else {
      SameCrcIff(a, b);
      SameRegisterIff(Bits(0xFFFF_FFFF, 32), MessageBits(a), MessageBits(b));
    }
  }
}
