/** One's-complement sums of 16-bit words (section 1 of RFC 1071). */
module OnesComplement {
  import opened Machine

  /** Addition with end-around carry. */
  function OnesAdd(a: u16, b: u16): u16 {
    if a + b < 0x1_0000 then a + b else a + b - 0xFFFF
  }

  /** One's-complement sum of the little-endian words of `s`; an odd last byte is the
      HIGH half of the last word, as in the routines that compute it. */
  function OnesSum(s: seq<byte>): u16 {
    if |s| == 0 then 0
    else if |s| == 1 then 0x100 * s[0]
    else OnesAdd(Word16(s, 0), OnesSum(s[2..]))
  }

  /** The Internet checksum of a non-empty buffer, in the byte order of the machine. */
  function Checksum(s: seq<byte>): u16 {
    0xFFFF - OnesSum(s)
  }

  /** The same words added up in the naturals. */
  function WordSum(s: seq<byte>): nat {
    if |s| == 0 then 0
    else if |s| == 1 then 0x100 * s[0]
    else Word16(s, 0) + WordSum(s[2..])
  }

  /** The 16-bit one's-complement value of a natural: zero only for zero, else in 1..0xFFFF. */
  function Canon(x: nat): u16 {
    if x == 0 then 0 else (x - 1) % 0xFFFF + 1
  }

  lemma CanonSmall(x: u16)
    ensures Canon(x) == x
  {
  }

  lemma SameResidue(x: nat, y: nat)
    ensures x % 0xFFFF == y % 0xFFFF <==> (x - y) % 0xFFFF == 0
  {
    var d := x / 0xFFFF - y / 0xFFFF;
    assert x - y == 0xFFFF * d + (x % 0xFFFF - y % 0xFFFF);
  }

  /** Two naturals have the same one's-complement value exactly when they are both zero or both
      positive and congruent modulo 65535. */
  lemma CanonEqual(a: nat, b: nat)
    ensures Canon(a) == Canon(b) <==> ((a == 0 <==> b == 0) && (a - b) % 0xFFFF == 0)
  {
    if a > 0 && b > 0 {
      SameResidue(a - 1, b - 1);
      assert (a - 1) - (b - 1) == a - b;
    }
  }

  lemma CanonShift(a: nat, b: nat, k: int)
    requires a - b == 0xFFFF * k
    requires a == 0 <==> b == 0
    ensures Canon(a) == Canon(b)
  {
  }

  lemma CanonAdd(a: nat, b: nat, x: nat)
    requires Canon(a) == Canon(b)
    ensures Canon(a + x) == Canon(b + x)
  {
    CanonEqual(a, b);
    CanonEqual(a + x, b + x);
  }

  /** End-around carry loses nothing: adding word by word in 16 bits or adding everything
      in the naturals and reducing once gives the same word. */
  lemma {:induction false} OnesSumIsCanon(s: seq<byte>)
    ensures OnesSum(s) == Canon(WordSum(s))
  {
    if |s| == 1 {
      CanonSmall(0x100 * s[0] as int);
    } else if |s| >= 2 {
      hide Canon, OnesAdd;
      OnesSumIsCanon(s[2..]);
      OnesAddIsCanon(Word16(s, 0), WordSum(s[2..]));
    }
  }

  lemma OnesAddIsCanon(w: u16, r: nat)
    ensures OnesAdd(w, Canon(r)) == Canon(w + r)
  {
    CanonAdd(r, Canon(r), w);
  }

  lemma WordSumUnroll(s: seq<byte>)
    requires |s| >= 8
    ensures WordSum(s)
         == Word16(s, 0) + Word16(s, 2) + Word16(s, 4) + Word16(s, 6) + WordSum(s[8..])
  {
    assert s[2..][2..] == s[4..] && s[4..][2..] == s[6..] && s[6..][2..] == s[8..];
    assert WordSum(s[6..]) == Word16(s, 6) + WordSum(s[8..]);
    assert WordSum(s[4..]) == Word16(s, 4) + WordSum(s[6..]);
    assert WordSum(s[2..]) == Word16(s, 2) + WordSum(s[4..]);
  }

  /** A 64-bit load counts for the four words it holds. */
  lemma Load64Counts(s: seq<byte>, x: nat)
    requires |s| >= 8
    ensures Canon(x + Word64(s, 0) + WordSum(s[8..])) == Canon(x + WordSum(s))
  {
    hide Canon, WordSum;
    WordSumUnroll(s);
    CanonShift(x + Word64(s, 0) + WordSum(s[8..]), x + WordSum(s),
               Word16(s, 2) + 0x1_0001 * Word16(s, 4) + 0x1_0001_0001 * Word16(s, 6));
  }

  /** Whole words in front can be split off. */
  lemma {:induction false} WordSumConcat(a: seq<byte>, b: seq<byte>)
    requires |a| % 2 == 0
    ensures WordSum(a + b) == WordSum(a) + WordSum(b)
  {
    if a == [] {
      assert a + b == b;
    } else {
      WordSumConcat(a[2..], b);
      assert (a + b)[2..] == a[2..] + b;
    }
  }
}
