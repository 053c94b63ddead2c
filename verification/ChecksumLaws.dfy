/** What the checksum is good for: agreement with the network-order checksum of RFC 1071,
    agreement of the scalar and the assembly routines, verification of a stored checksum,
    and detection of a damaged word. */
module ChecksumLaws {
  import opened Machine
  import opened OnesComplement
  import opened InternetChecksum

  // ---- What the routines return for a buffer --------------------------------------------

  /** `s` placed at address 1. */
  function AtOne(s: seq<byte>): (m: seq<byte>)
    ensures |m| == |s| + 1
  {
    [0] + s
  }

  lemma AsmAtOne(s: seq<byte>)
    ensures AsmChecksum(AtOne(s), 1, |s|) == if s == [] then 0 else Checksum(s)
  {
    assert AtOne(s)[1..1 + |s|] == s;
  }

  /** The result of the assembly on a buffer that is not null. */
  function Returned(s: seq<byte>): u16 { AsmChecksum(AtOne(s), 1, |s|) }

  /** Neither the address nor the memory around the buffer matters. */
  lemma ReturnedAnywhere(mem: seq<byte>, buffer: nat, len: nat)
    requires buffer != 0 && buffer + len <= |mem|
    ensures AsmChecksum(mem, buffer, len) == Returned(mem[buffer..buffer + len])
  {
    AsmAtOne(mem[buffer..buffer + len]);
  }

  // ---- Network byte order -------------------------------------------------------------

  /** The sum of section 1 of RFC 1071: big-endian words, an odd last byte Z padded to [Z,0]. */
  function NetworkSum(s: seq<byte>): u16 {
    if |s| == 0 then 0
    else if |s| == 1 then 0x100 * s[0]
    else OnesAdd(0x100 * (s[0] as int) + s[1] as int, NetworkSum(s[2..]))
  }

  function NetworkChecksum(s: seq<byte>): u16 { 0xFFFF - NetworkSum(s) }

  function Swap(x: u16): u16 { x / 0x100 + 0x100 * (x % 0x100) }

  lemma SwapParts(h: byte, l: byte)
    ensures Swap(0x100 * h as int + l as int) == 0x100 * l as int + h as int
  {
  }

  /** Swapping the bytes of both words swaps the bytes of their one's-complement sum. */
  lemma SwapAdd(ah: byte, al: byte, bh: byte, bl: byte)
    ensures var a, b := 0x100 * ah as int + al as int, 0x100 * bh as int + bl as int;
            Swap(OnesAdd(a, b)) == OnesAdd(Swap(a), Swap(b))
  {
    hide Swap;
    SwapParts(ah, al);
    SwapParts(bh, bl);
    var lo, hi := al as int + bl as int, ah as int + bh as int;
    var c := if lo >= 0x100 then 1 else 0;
    if hi + c < 0x100 {
      SwapParts(hi + c, lo - 0x100 * c);
    } else if lo - 0x100 * c + 1 < 0x100 {
      SwapParts(hi + c - 0x100, lo - 0x100 * c + 1);
    } else {
      SwapParts(hi + c - 0xFF, 0);
    }
  }

  /** Section 2(B) of RFC 1071. */
  lemma {:induction false} NetworkSumEven(s: seq<byte>)
    requires |s| % 2 == 0
    ensures NetworkSum(s) == Swap(OnesSum(s))
  {
    hide Swap, OnesAdd;
    if s == [] {
      SwapParts(0, 0);
    } else {
      NetworkSumEven(s[2..]);
      var r := OnesSum(s[2..]);
      SwapAdd(s[1], s[0], r / 0x100, r % 0x100);
      SwapParts(s[1], s[0]);
    }
  }

  lemma OnesAddAssociative(a: u16, b: u16, c: u16)
    ensures OnesAdd(OnesAdd(a, b), c) == OnesAdd(a, OnesAdd(b, c))
  {
  }

  /** Both sums can be taken piecewise at a word boundary. */
  lemma {:induction false} SumsSplit(w: seq<byte>, t: seq<byte>)
    requires |w| % 2 == 0
    ensures OnesSum(w + t) == OnesAdd(OnesSum(w), OnesSum(t))
    ensures NetworkSum(w + t) == OnesAdd(NetworkSum(w), NetworkSum(t))
  {
    if w == [] {
      assert w + t == t;
    } else {
      assert (w + t)[2..] == w[2..] + t;
      SumsSplit(w[2..], t);
      OnesAddAssociative(Word16(w, 0), OnesSum(w[2..]), OnesSum(t));
      OnesAddAssociative(0x100 * (w[0] as int) + w[1] as int, NetworkSum(w[2..]), NetworkSum(t));
    }
  }

  /** An odd last byte is added as it is in one order, and times 256 in the other. */
  lemma OddSums(w: seq<byte>, z: byte)
    requires |w| % 2 == 0
    ensures Swap(OnesSum(w + [z])) == OnesAdd(Swap(OnesSum(w)), z)
    ensures NetworkSum(w + [z]) == OnesAdd(Swap(OnesSum(w)), 0x100 * z as int)
  {
    hide NetworkSum, OnesSum, Swap, OnesAdd;
    SumsSplit(w, [z]);
    NetworkSumEven(w);
    SingleByte(z);
    var r := OnesSum(w);
    SwapAdd(r / 0x100, r % 0x100, z, 0);
    SwapParts(z, 0);
  }

  /** The routines return the RFC 1071 checksum, up to the byte order of the machine, exactly
      for the non-empty buffers of even length and those of odd length whose last byte is zero. */
  lemma NetworkOrderIff(s: seq<byte>)
    ensures Swap(Returned(s)) == NetworkChecksum(s)
       <==> s != [] && (|s| % 2 == 0 || s[|s| - 1] == 0)
  {
    AsmAtOne(s);
    if s != [] { ComplementOrderIff(s); }
  }

  lemma ComplementOrderIff(s: seq<byte>)
    ensures Swap(Checksum(s)) == NetworkChecksum(s) <==> |s| % 2 == 0 || s[|s| - 1] == 0
  {
    hide NetworkSum, OnesSum, Swap;
    SwapComplement(OnesSum(s));
    if |s| % 2 == 0 {
      NetworkSumEven(s);
    } else {
      assert s == s[..|s| - 1] + [s[|s| - 1]];
      OddSums(s[..|s| - 1], s[|s| - 1]);
    }
  }

  lemma SingleByte(z: byte)
    ensures OnesSum([z]) == NetworkSum([z]) == 0x100 * z as int
  {
  }

  lemma SwapComplement(x: u16)
    ensures Swap(0xFFFF - x) == 0xFFFF - Swap(x)
  {
    SwapParts(0xFF - x / 0x100, 0xFF - x % 0x100);
  }

  // ---- Verifying a stored checksum ----------------------------------------------------

  /** `s` with the word `v` stored at `at`, low byte first. */
  function Store16(s: seq<byte>, at: nat, v: u16): seq<byte>
    requires at + 2 <= |s|
  {
    s[..at] + [v % 0x100, v / 0x100] + s[at + 2..]
  }

  lemma StoredWordSum(s: seq<byte>, at: nat, v: u16)
    requires at + 2 <= |s| && at % 2 == 0
    ensures WordSum(Store16(s, at, v)) == WordSum(Store16(s, at, 0)) + v
  {
    forall x: u16
      ensures WordSum(Store16(s, at, x)) == WordSum(s[..at]) + x + WordSum(s[at + 2..])
    {
      var field := [x % 0x100, x / 0x100];
      assert Store16(s, at, x) == s[..at] + (field + s[at + 2..]);
      WordSumConcat(s[..at], field + s[at + 2..]);
      WordSumConcat(field, s[at + 2..]);
      assert WordSum(field) == Word16(field, 0) == x;
    }
  }

  /** A receiver that recomputes the checksum over a buffer gets zero exactly when the buffer is
      empty or its words add up to a positive multiple of 65535. */
  lemma VerifiesIff(s: seq<byte>)
    ensures Returned(s) == 0 <==> s == [] || (WordSum(s) > 0 && WordSum(s) % 0xFFFF == 0)
  {
    AsmAtOne(s);
    ZeroChecksumIff(s);
  }

  lemma ZeroChecksumIff(s: seq<byte>)
    ensures Checksum(s) == 0 <==> WordSum(s) > 0 && WordSum(s) % 0xFFFF == 0
  {
    hide OnesSum, WordSum;
    OnesSumIsCanon(s);
    CanonTop(WordSum(s));
  }

  lemma CanonTop(x: nat)
    ensures Canon(x) == 0xFFFF <==> x > 0 && x % 0xFFFF == 0
  {
    if x > 0 { CanonEqual(x, 0xFFFF); }
  }

  /** Storing the checksum of a buffer in a cleared field at an even offset makes the
      recomputed checksum zero. */
  lemma StoredChecksumVerifies(s: seq<byte>, at: nat)
    requires at + 2 <= |s| && at % 2 == 0
    ensures Returned(Store16(s, at, Returned(Store16(s, at, 0)))) == 0
  {
    hide WordSum;
    var cleared := Store16(s, at, 0);
    AsmAtOne(cleared);
    var c := Checksum(cleared);
    StoredWordSum(s, at, c);
    OnesSumIsCanon(cleared);
    VerifiesIff(Store16(s, at, c));
  }

  /** All bytes outside the word at `at` are zero. */
  ghost predicate RestZero(s: seq<byte>, at: nat) {
    forall i :: 0 <= i < |s| && i != at && i != at + 1 ==> s[i] == 0
  }

  /** Damage to one 16-bit word goes unnoticed exactly when it turns 0x0000 into 0xFFFF or back
      in a buffer whose other words are not all zero. */
  lemma WordErrorIff(s: seq<byte>, at: nat, a: u16, b: u16)
    requires at + 2 <= |s| && at % 2 == 0 && a < b
    ensures Returned(Store16(s, at, a)) == Returned(Store16(s, at, b))
       <==> a == 0 && b == 0xFFFF && !RestZero(s, at)
  {
    StoredCanon(s, at, a);
    StoredCanon(s, at, b);
    RestZeroIff(s, at);
    hide Canon, Returned, Store16, WordSum, RestZero;
    var rest := WordSum(Store16(s, at, 0));
    CanonEqual(rest + a, rest + b);
  }

  lemma StoredCanon(s: seq<byte>, at: nat, v: u16)
    requires at + 2 <= |s| && at % 2 == 0
    ensures Returned(Store16(s, at, v)) == 0xFFFF - Canon(WordSum(Store16(s, at, 0)) + v)
  {
    hide Canon, WordSum;
    AsmAtOne(Store16(s, at, v));
    OnesSumIsCanon(Store16(s, at, v));
    StoredWordSum(s, at, v);
  }

  lemma RestZeroIff(s: seq<byte>, at: nat)
    requires at + 2 <= |s| && at % 2 == 0
    ensures WordSum(Store16(s, at, 0)) == 0 <==> RestZero(s, at)
  {
    var t := Store16(s, at, 0);
    ZeroSumIff(t);
    assert forall i :: 0 <= i < |s| && i != at && i != at + 1 ==> t[i] == s[i];
    assert t[at] == 0 && t[at + 1] == 0;
  }

  lemma {:induction false} ZeroSumIff(s: seq<byte>)
    ensures WordSum(s) == 0 <==> forall i :: 0 <= i < |s| ==> s[i] == 0
  {
    if |s| >= 2 {
      ZeroSumIff(s[2..]);
      assert forall i :: 2 <= i < |s| ==> s[i] == s[2..][i - 2];
      assert s[0] == 0 && s[1] == 0 <==> Word16(s, 0) == 0;
    }
  }

  // ---- The scalar routine against the assembly ------------------------------------------

  /** The scalar sum drops one multiple of 2^32 per wrap, and each is worth one; so the routines
      agree on the non-empty buffers for which the number of wraps is a multiple of 65535 and
      the wrapped sum is not zero by accident, and on no others. */
  lemma ScalarAgreesIff(s: seq<byte>)
    ensures ScalarResult(s) == Returned(s)
       <==> s != [] && (WordSum(s) / TWO32) % 0xFFFF == 0 && (WordSum(s) % TWO32 == 0 ==> WordSum(s) == 0)
  {
    AsmAtOne(s);
    if s != [] { ScalarIsChecksumIff(s); } else { assert WordSum([]) == 0; }
  }

  lemma ScalarIsChecksumIff(s: seq<byte>)
    ensures ScalarResult(s) == Checksum(s)
       <==> (WordSum(s) / TWO32) % 0xFFFF == 0 && (WordSum(s) % TWO32 == 0 ==> WordSum(s) == 0)
  {
    hide WordSum, Canon;
    OnesSumIsCanon(s);
    var w := WordSum(s);
    CanonEqual(w, w % TWO32);
    WrapsCount(w / TWO32);
  }

  lemma WrapsCount(q: nat)
    ensures (TWO32 * q) % 0xFFFF == q % 0xFFFF
  {
    assert TWO32 * q == 0xFFFF * (0x1_0001 * q) + q;
  }

  lemma {:induction false} WordSumBound(s: seq<byte>)
    ensures WordSum(s) <= 0xFFFF * ((|s| + 1) / 2)
    ensures |s| % 2 == 1 ==> WordSum(s) <= 0xFFFF * (|s| / 2) + 0xFF00
  {
    if |s| >= 2 {
      var (r, w) := (s[2..], Word16(s, 0));
      WordSumBound(r);
      assert WordSum(s) == w + WordSum(r);
      assert |s| == |r| + 2 && (|s| + 1) / 2 == (|r| + 1) / 2 + 1 && |s| / 2 == |r| / 2 + 1;
      hide *;
    }
  }

  function Repeated(b: byte, n: nat): (s: seq<byte>)
    ensures |s| == n
  {
    seq(n, _ => b)
  }

  lemma {:induction false} WordSumOnes(n: nat)
    ensures WordSum(Repeated(0xFF, 2 * n)) == 0xFFFF * n
  {
    if n > 0 {
      WordSumOnes(n - 1);
      assert Repeated(0xFF, 2 * n)[2..] == Repeated(0xFF, 2 * (n - 1));
    }
  }

  const SCALAR_LIMIT: nat := 131074

  /** 131075 bytes of 0xFF followed by zeros. */
  function Overflowing(n: nat): (s: seq<byte>)
    requires n > SCALAR_LIMIT
    ensures |s| == n
  {
    Repeated(0xFF, SCALAR_LIMIT) + [0xFF] + Repeated(0, n - SCALAR_LIMIT - 1)
  }

  lemma OverflowingSum(n: nat)
    requires n > SCALAR_LIMIT
    ensures TWO32 < WordSum(Overflowing(n)) < TWO32 + 0x1_0000
  {
    var tail := [0xFF] + Repeated(0, n - SCALAR_LIMIT - 1);
    assert Overflowing(n) == Repeated(0xFF, SCALAR_LIMIT) + tail;
    WordSumConcat(Repeated(0xFF, SCALAR_LIMIT), tail);
    WordSumOnes(65537);
    if |tail| >= 2 {
      assert tail[2..] == Repeated(0, |tail| - 2);
      ZeroSumIff(tail[2..]);
    }
  }

  lemma ScalarWithinLimit(s: seq<byte>)
    requires 1 <= |s| <= SCALAR_LIMIT
    ensures ScalarResult(s) == Returned(s)
  {
    hide WordSum, Canon, Returned;
    WordSumBound(s);
    ScalarAgreesIff(s);
  }

  lemma ScalarBeyondLimit(n: nat)
    requires n == 0 || n > SCALAR_LIMIT
    ensures exists s: seq<byte> :: |s| == n && ScalarResult(s) != Returned(s)
  {
    var s: seq<byte> := if n == 0 then [] else Overflowing(n);
    ScalarAgreesIff(s);
    if n > 0 { OverflowingSum(n); }
    hide *;
    assert |s| == n && ScalarResult(s) != Returned(s);
  }

  /** The scalar routine can stand in for the assembly on buffers of length n, whatever they
      contain, exactly when n lies between 1 and 131074: at 131074 the 32-bit sum still fits,
      one byte more and it can wrap. On the empty buffer the scalar routine gives 0xFFFF and
      the assembly 0. */
  lemma ScalarAgreesForLengthIff(n: nat)
    ensures (forall s: seq<byte> :: |s| == n ==> ScalarResult(s) == Returned(s))
       <==> 1 <= n <= SCALAR_LIMIT
  {
    hide ScalarResult, Returned;
    if 1 <= n <= SCALAR_LIMIT {
      forall s: seq<byte> | |s| == n
        ensures ScalarResult(s) == Returned(s)
      {
        ScalarWithinLimit(s);
      }
    } else {
      ScalarBeyondLimit(n);
    }
  }
}
