/** Polynomials over GF(2), as coefficient lists with the highest power first, and the
    remainder modulo the Castagnoli polynomial 0x11EDC6F41 (section 12.1 of RFC 3720). */
module Gf2 {

  type poly = seq<bool>

  /** The 33 coefficients of 0x11EDC6F41. */
  function Generator(): (g: poly)
    ensures |g| == 33 && g[0] && g[32]
  {
    [true,
     false, false, false, true, true, true, true, false,
     true, true, false, true, true, true, false, false,
     false, true, true, false, true, true, true, true,
     false, true, false, false, false, false, false, true]
  }

  function Zeros(n: nat): (z: poly)
    ensures |z| == n && forall i :: 0 <= i < n ==> !z[i]
  {
    seq(n, _ => false)
  }

  function Xor(a: poly, b: poly): (c: poly)
    requires |a| == |b|
    ensures |c| == |a| && forall i :: 0 <= i < |a| ==> c[i] == (a[i] != b[i])
  {
    seq(|a|, i requires 0 <= i < |a| => a[i] != b[i])
  }

  lemma XorCons(a: bool, p: poly, b: bool, q: poly)
    requires |p| == |q|
    ensures Xor([a] + p, [b] + q) == [a != b] + Xor(p, q)
  {
  }

  /** One step of long division: cancel the leading coefficient and drop it. */
  function Reduce(p: poly): (r: poly)
    requires |p| >= 33
    ensures |r| == |p| - 1
    ensures forall i :: 0 <= i < |r| ==> r[i] == (p[i + 1] != (p[0] && i < 32 && Generator()[i + 1]))
  {
    hide Generator;
    if p[0] then Xor(p, Generator() + Zeros(|p| - 33))[1..] else p[1..]
  }

  /** The remainder of `p` modulo the generator: 32 coefficients. */
  function Rem(p: poly): (r: poly)
    requires |p| >= 32
    ensures |r| == 32
    decreases |p|
  {
    if |p| == 32 then p else Rem(Reduce(p))
  }

  /** Put one more term in front of a product: shift it and add the generator if `b`. */
  function PutTerm(b: bool, p: poly): (r: poly)
    requires |p| >= 32
    ensures |r| == |p| + 1 && r[0] == b
    ensures forall i :: 0 <= i < |p| ==> r[i + 1] == (p[i] != (b && i < 32 && Generator()[i + 1]))
  {
    hide Generator;
    if b then Xor(Generator() + Zeros(|p| - 32), [false] + p) else [false] + p
  }

  /** `q` times the generator, as a list of |q| + 32 coefficients. */
  function TimesGenerator(q: poly): (p: poly)
    ensures |p| == |q| + 32
  {
    if q == [] then Zeros(32) else PutTerm(q[0], TimesGenerator(q[1..]))
  }

  /** Long division leaves the remainder: the one polynomial of degree below 32 that differs
      from `p` by a multiple of the generator. */
  lemma RemIff(p: poly, r: poly)
    requires |p| >= 32 && |r| == 32
    ensures r == Rem(p)
       <==> exists q :: |q| == |p| - 32 && p == MultiplePlus(q, r)
  {
    var q := RemExists(p);
    forall q' | |q'| == |p| - 32 && p == MultiplePlus(q', r)
      ensures r == Rem(p)
    {
      RemUnique(q', r);
    }
  }

  /** `q` times the generator, plus a polynomial of degree below 32. */
  function MultiplePlus(q: poly, r: poly): (p: poly)
    requires |r| == 32
    ensures |p| == |q| + 32
  {
    Xor(TimesGenerator(q), Zeros(|q|) + r)
  }

  lemma MultiplePlusAt(q: poly, r: poly, i: nat)
    requires q != [] && |r| == 32 && i < |q| + 31
    ensures MultiplePlus(q, r)[0] == q[0]
    ensures MultiplePlus(q, r)[i + 1]
         == (MultiplePlus(q[1..], r)[i] != (q[0] && i < 32 && Generator()[i + 1]))
  {
    hide Generator, PutTerm;
    assert TimesGenerator(q) == PutTerm(q[0], TimesGenerator(q[1..]));
    hide TimesGenerator;
    assert (Zeros(|q|) + r)[i + 1] == (Zeros(|q| - 1) + r)[i];
  }

  /** One step of long division takes off the leading term of the multiple. */
  lemma ReduceMultiple(q: poly, r: poly)
    requires q != [] && |r| == 32
    ensures Reduce(MultiplePlus(q, r)) == MultiplePlus(q[1..], r)
  {
    hide Reduce, MultiplePlus, Generator;
    forall i | 0 <= i < |q| + 31
      ensures Reduce(MultiplePlus(q, r))[i] == MultiplePlus(q[1..], r)[i]
    {
      MultiplePlusAt(q, r, i);
    }
  }

  /** And it can be undone. */
  lemma UndoReduce(p: poly, q: poly, r: poly)
    requires |p| >= 33 && |q| == |p| - 32 && |r| == 32 && q[0] == p[0]
    requires Reduce(p) == MultiplePlus(q[1..], r)
    ensures p == MultiplePlus(q, r)
  {
    hide Reduce, MultiplePlus, Generator;
    var y := MultiplePlus(q, r);
    forall i | 0 <= i < |p|
      ensures p[i] == y[i]
    {
      MultiplePlusAt(q, r, if i > 0 then i - 1 else 0);
      if i > 0 { assert Reduce(p)[i - 1] == MultiplePlus(q[1..], r)[i - 1]; }
    }
  }

  lemma {:induction false} RemExists(p: poly) returns (q: poly)
    requires |p| >= 32
    ensures |q| == |p| - 32 && p == MultiplePlus(q, Rem(p))
    decreases |p|
  {
    if |p| == 32 {
      q := [];
      assert p == MultiplePlus(q, p);
    } else {
      hide Reduce, MultiplePlus;
      var t := RemExists(Reduce(p));
      q := [p[0]] + t;
      assert q[1..] == t;
      UndoReduce(p, q, Rem(p));
    }
  }

  lemma {:induction false} RemUnique(q: poly, r: poly)
    requires |r| == 32
    ensures Rem(MultiplePlus(q, r)) == r
  {
    if q == [] {
      assert MultiplePlus(q, r) == r;
    } else {
      hide Reduce, MultiplePlus;
      ReduceMultiple(q, r);
      RemUnique(q[1..], r);
    }
  }

  // ---- A shift register that divides as the coefficients arrive -------------------------

  /** Shift the 32 coefficients up and cancel what leaves, one message coefficient at a time. */
  function Shift(s: poly, b: bool): (s': poly)
    requires |s| == 32
    ensures |s'| == 32
    ensures forall i :: 0 <= i < 32 ==>
      s'[i] == ((i < 31 && s[i + 1]) != (s[0] != b && Generator()[i + 1]))
  {
    hide Generator;
    var t := s[1..] + [false];
    if s[0] != b then Xor(t, Generator()[1..]) else t
  }

  function Feed(s: poly, m: poly): (s': poly)
    requires |s| == 32
    ensures |s'| == 32
    decreases |m|
  {
    if m == [] then s else Feed(Shift(s, m[0]), m[1..])
  }

  /** The register holds the remainder of (state times x^n) plus (message times x^32). */
  lemma {:induction false} FeedIsRem(s: poly, m: poly)
    requires |s| == 32
    ensures Feed(s, m) == Rem(Xor(s + Zeros(|m|), m + Zeros(32)))
    decreases |m|
  {
    hide Generator, Shift, Reduce;
    var p := Xor(s + Zeros(|m|), m + Zeros(32));
    if m == [] {
      assert p == s;
    } else {
      FeedIsRem(Shift(s, m[0]), m[1..]);
      assert Reduce(p) == Xor(Shift(s, m[0]) + Zeros(|m| - 1), m[1..] + Zeros(32));
    }
  }

  lemma {:induction false} FeedConcat(s: poly, a: poly, b: poly)
    requires |s| == 32
    ensures Feed(s, a + b) == Feed(Feed(s, a), b)
    decreases |a|
  {
    if a == [] {
      assert a + b == b;
    } else {
      assert (a + b)[1..] == a[1..] + b;
      FeedConcat(Shift(s, a[0]), a[1..], b);
    }
  }

  /** The register never forgets: for a fixed coefficient the step is one to one. */
  lemma ShiftInjective(s: poly, t: poly, b: bool)
    requires |s| == |t| == 32 && Shift(s, b) == Shift(t, b)
    ensures s == t
  {
    var u, v := Shift(s, b), Shift(t, b);
    assert u[31] == (s[0] != b) && v[31] == (t[0] != b);
    forall i | 1 <= i < 32
      ensures s[i] == t[i]
    {
      assert u[i - 1] == v[i - 1];
    }
  }

  lemma {:induction false} FeedInjective(s: poly, t: poly, m: poly)
    requires |s| == |t| == 32 && Feed(s, m) == Feed(t, m)
    ensures s == t
    decreases |m|
  {
    if m != [] {
      FeedInjective(Shift(s, m[0]), Shift(t, m[0]), m[1..]);
      ShiftInjective(s, t, m[0]);
    }
  }

  /** At most 32 coefficients can be added into the register before they are fed. */
  lemma {:induction false} FeedAsXor(s: poly, m: poly)
    requires |s| == 32 && |m| <= 32
    ensures Feed(s, m) == Feed(Xor(s, m + Zeros(32 - |m|)), Zeros(|m|))
    decreases |m|
  {
    hide Generator, Shift;
    if m != [] {
      var x := Xor(s, m + Zeros(32 - |m|));
      assert Zeros(|m|)[1..] == Zeros(|m| - 1);
      FeedAsXor(Shift(s, m[0]), m[1..]);
      assert Shift(x, false) == Xor(Shift(s, m[0]), m[1..] + Zeros(33 - |m|));
    }
  }

  lemma ShortBurst(t: poly, x: poly, y: poly)
    requires |t| == 32 && |x| == |y| <= 32 && x != y
    ensures Feed(t, x) != Feed(t, y)
  {
    hide Feed, Shift;
    FeedAsXor(t, x);
    FeedAsXor(t, y);
    var u, v := Xor(t, x + Zeros(32 - |x|)), Xor(t, y + Zeros(32 - |y|));
    var i :| 0 <= i < |x| && x[i] != y[i];
    assert u[i] != v[i];
    if Feed(u, Zeros(|x|)) == Feed(v, Zeros(|x|)) {
      FeedInjective(u, v, Zeros(|x|));
    }
  }

  lemma FeedThree(s: poly, a: poly, b: poly, c: poly)
    requires |s| == 32
    ensures Feed(s, a + b + c) == Feed(Feed(Feed(s, a), b), c)
  {
    FeedConcat(s, a + b, c);
    FeedConcat(s, a, b);
  }

  /** Two messages that differ only inside a burst of at most 32 coefficients leave the
      register in different states, whatever surrounds the burst. */
  lemma BurstDetected(s: poly, before: poly, x: poly, y: poly, after: poly)
    requires |s| == 32 && |x| == |y| <= 32 && x != y
    ensures Feed(s, before + x + after) != Feed(s, before + y + after)
  {
    hide Feed, Shift;
    FeedThree(s, before, x, after);
    FeedThree(s, before, y, after);
    ShortBurst(Feed(s, before), x, y);
    if Feed(s, before + x + after) == Feed(s, before + y + after) {
      FeedInjective(Feed(Feed(s, before), x), Feed(Feed(s, before), y), after);
    }
  }

  lemma FullBurstIff(u: poly, v: poly, x: poly, y: poly)
    requires |u| == |v| == |x| == |y| == 32
    ensures Feed(u, x) == Feed(v, y) <==> Xor(u, x) == Xor(v, y)
  {
    hide Feed;
    assert x + Zeros(0) == x && y + Zeros(0) == y;
    FeedAsXor(u, x);
    FeedAsXor(v, y);
    if Feed(u, x) == Feed(v, y) {
      FeedInjective(Xor(u, x), Xor(v, y), Zeros(32));
    }
  }

  lemma FirstDiffersIff(s: poly, x: poly, y: poly)
    requires |s| == 32 && |x| == |y| == 33 && x[0] != y[0]
    ensures Xor(Shift(s, x[0]), x[1..]) == Xor(Shift(s, y[0]), y[1..]) <==> Xor(x, y) == Generator()
  {
    hide Generator, Shift;
    var (p, q, d) := (Xor(Shift(s, x[0]), x[1..]), Xor(Shift(s, y[0]), y[1..]), Xor(x, y));
    forall i | 0 <= i < 32
      ensures p[i] == q[i] <==> d[i + 1] == Generator()[i + 1]
    {
    }
    if p == q {
      forall i | 0 <= i < 33 ensures d[i] == Generator()[i] {
        if i > 0 { assert p[i - 1] == q[i - 1]; }
      }
    }
    if d == Generator() {
      forall i | 0 <= i < 32 ensures p[i] == q[i] { assert d[i + 1] == Generator()[i + 1]; }
    }
  }

  lemma LoneBurstIff(s: poly, x: poly, y: poly)
    requires |s| == 32 && |x| == |y| == 33 && x != y
    ensures Feed(s, x) == Feed(s, y) <==> Xor(x, y) == Generator()
  {
    assert Feed(s, x) == Feed(Shift(s, x[0]), x[1..]) && Feed(s, y) == Feed(Shift(s, y[0]), y[1..]);
    hide Feed, Generator, Shift;
    if x[0] == y[0] {
      assert x == [x[0]] + x[1..] && y == [y[0]] + y[1..];
      ShortBurst(Shift(s, x[0]), x[1..], y[1..]);
      assert !Xor(x, y)[0];
    } else {
      FullBurstIff(Shift(s, x[0]), Shift(s, y[0]), x[1..], y[1..]);
      FirstDiffersIff(s, x, y);
    }
  }

  /** The limit is sharp: of the longer bursts, of 33 coefficients, exactly the generator
      itself goes unnoticed, whatever surrounds it. */
  lemma LongerBurstIff(s: poly, before: poly, x: poly, y: poly, after: poly)
    requires |s| == 32 && |x| == |y| == 33 && x != y
    ensures Feed(s, before + x + after) == Feed(s, before + y + after) <==> Xor(x, y) == Generator()
  {
    hide Feed, Shift, Generator;
    FeedThree(s, before, x, after);
    FeedThree(s, before, y, after);
    LoneBurstIff(Feed(s, before), x, y);
    if Feed(s, before + x + after) == Feed(s, before + y + after) {
      FeedInjective(Feed(Feed(s, before), x), Feed(Feed(s, before), y), after);
    }
  }

  // ---- Which messages the register cannot tell apart --------------------------------------

  lemma ShiftLinear(s: poly, t: poly, a: bool, b: bool)
    requires |s| == |t| == 32
    ensures Shift(Xor(s, t), a != b) == Xor(Shift(s, a), Shift(t, b))
  {
    hide Generator;
  }

  /** Feeding is linear in the state and the message together. */
  lemma {:induction false} FeedLinear(s: poly, t: poly, m: poly, n: poly)
    requires |s| == |t| == 32 && |m| == |n|
    ensures Feed(Xor(s, t), Xor(m, n)) == Xor(Feed(s, m), Feed(t, n))
    decreases |m|
  {
    hide Generator, Shift;
    if m != [] {
      ShiftLinear(s, t, m[0], n[0]);
      FeedLinear(Shift(s, m[0]), Shift(t, n[0]), m[1..], n[1..]);
      assert Xor(m, n)[1..] == Xor(m[1..], n[1..]);
    }
  }

  lemma XorZeroIff(a: poly, b: poly)
    requires |a| == |b|
    ensures Xor(a, b) == Zeros(|a|) <==> a == b
  {
    if Xor(a, b) == Zeros(|a|) {
      forall i | 0 <= i < |a| ensures a[i] == b[i] { assert Xor(a, b)[i] == Zeros(|a|)[i]; }
    }
  }

  lemma {:induction false} FeedZeros(n: nat)
    ensures Feed(Zeros(32), Zeros(n)) == Zeros(32)
  {
    hide Generator;
    if n > 0 {
      assert Zeros(n)[1..] == Zeros(n - 1);
      assert Shift(Zeros(32), false) == Zeros(32);
      FeedZeros(n - 1);
    }
  }

  /** Starting from zero, the register ends at zero exactly for the multiples of the generator:
      it holds x^32 times the message modulo the generator, and x^32 can be divided out. */
  lemma ZeroIffMultiple(d: poly)
    requires |d| >= 32
    ensures Feed(Zeros(32), d) == Zeros(32) <==> exists q :: |q| == |d| - 32 && d == TimesGenerator(q)
  {
    hide Feed, Rem, TimesGenerator, Generator;
    var r := Rem(d);
    MultipleIff(d);
    FeedRemainder(d);
    FeedAsXor(Zeros(32), r);
    assert Xor(Zeros(32), r + Zeros(0)) == r;
    FeedZeros(32);
    if Feed(r, Zeros(32)) == Zeros(32) { FeedInjective(r, Zeros(32), Zeros(32)); }
  }

  lemma MultipleIff(d: poly)
    requires |d| >= 32
    ensures Rem(d) == Zeros(32) <==> exists q :: |q| == |d| - 32 && d == TimesGenerator(q)
  {
    hide Rem, TimesGenerator, Generator;
    RemIff(d, Zeros(32));
    forall q | |q| == |d| - 32 ensures MultiplePlus(q, Zeros(32)) == TimesGenerator(q) {
      assert Zeros(|q|) + Zeros(32) == Zeros(|d|);
    }
  }

  /** The register depends on the remainder of the message only. */
  lemma {:induction false} FeedRemainder(d: poly)
    requires |d| >= 32
    ensures Feed(Zeros(32), d) == Feed(Zeros(32), Rem(d))
    decreases |d|
  {
    hide Generator, Feed, Shift, Reduce;
    if |d| > 32 {
      FeedReduced(d);
      FeedRemainder(Reduce(d));
    }
  }

  lemma FeedFirst(d: poly)
    requires d != []
    ensures Feed(Zeros(32), d) == Feed(Shift(Zeros(32), d[0]), d[1..])
  {
  }

  lemma ReducedParts(d: poly)
    requires |d| >= 33
    ensures Reduce(d) == Xor(Shift(Zeros(32), d[0]), d[1..33]) + d[33..]
  {
    hide Generator, Shift, Reduce;
  }

  lemma FeedFull(s: poly, x: poly)
    requires |s| == |x| == 32
    ensures Feed(s, x) == Feed(Zeros(32), Xor(s, x))
  {
    hide Feed;
    var z := Xor(s, x);
    FeedAsXor(s, x);
    FeedAsXor(Zeros(32), z);
    assert x + Zeros(0) == x && z + Zeros(0) == z && Xor(Zeros(32), z) == z;
  }

  lemma FeedReduced(d: poly)
    requires |d| >= 33
    ensures Feed(Zeros(32), d) == Feed(Zeros(32), Reduce(d))
  {
    hide Generator, Feed, Shift, Xor, Reduce;
    var (s, x, y) := (Shift(Zeros(32), d[0]), d[1..33], d[33..]);
    FeedFirst(d);
    assert d[1..] == x + y;
    ReducedParts(d);
    FeedConcat(s, x, y);
    FeedConcat(Zeros(32), Xor(s, x), y);
    FeedFull(s, x);
  }

  /** Two messages of the same length leave the same register, from any state, exactly when
      their difference is a multiple of the generator. */
  lemma SameRegisterIff(s: poly, m: poly, n: poly)
    requires |s| == 32 && |m| == |n| >= 32
    ensures Feed(s, m) == Feed(s, n) <==> exists q :: |q| == |m| - 32 && Xor(m, n) == TimesGenerator(q)
  {
    hide Feed, TimesGenerator;
    FeedLinear(s, s, m, n);
    XorZeroIff(s, s);
    XorZeroIff(Feed(s, m), Feed(s, n));
    ZeroIffMultiple(Xor(m, n));
  }

  // ---- Parity -------------------------------------------------------------------------------

  /** How many coefficients are set. */
  function Weight(p: poly): nat {
    if p == [] then 0 else (if p[0] then 1 else 0) + Weight(p[1..])
  }

  predicate OddWeight(p: poly) { Weight(p) % 2 == 1 }

  lemma OddWeightCons(b: bool, p: poly)
    ensures OddWeight([b] + p) <==> b != OddWeight(p)
  {
    assert ([b] + p)[1..] == p;
  }

  lemma {:induction false} OddWeightXor(a: poly, b: poly)
    requires |a| == |b|
    ensures OddWeight(Xor(a, b)) <==> OddWeight(a) != OddWeight(b)
  {
    if a != [] {
      OddWeightXor(a[1..], b[1..]);
      OddWeightCons(a[0], a[1..]);
      OddWeightCons(b[0], b[1..]);
      OddWeightCons(a[0] != b[0], Xor(a[1..], b[1..]));
      assert a == [a[0]] + a[1..] && b == [b[0]] + b[1..];
      XorCons(a[0], a[1..], b[0], b[1..]);
    }
  }

  lemma {:induction false} WeightConcat(a: poly, b: poly)
    ensures Weight(a + b) == Weight(a) + Weight(b)
  {
    if a == [] {
      assert a + b == b;
    } else {
      assert (a + b)[1..] == a[1..] + b;
      WeightConcat(a[1..], b);
    }
  }

  lemma GeneratorHalves()
    ensures Generator()[1..]
         == [false, false, false, true, true, true, true, false, true, true, false, true, true, true, false, false]
          + [false, true, true, false, true, true, true, true, false, true, false, false, false, false, false, true]
  {
  }

  lemma WeightSixteen(a: poly, b: poly, c: poly, d: poly)
    ensures Weight(a + b + c + d) == Weight(a) + Weight(b) + Weight(c) + Weight(d)
  {
    hide Weight;
    WeightConcat(a, b);
    WeightConcat(a + b, c);
    WeightConcat(a + b + c, d);
  }

  lemma WeightFour(a: bool, b: bool, c: bool, d: bool)
    ensures Weight([a, b, c, d])
         == (if a then 1 else 0) + (if b then 1 else 0) + (if c then 1 else 0) + (if d then 1 else 0)
  {
    assert Weight([d]) == if d then 1 else 0;
    assert [c, d][1..] == [d] && [b, c, d][1..] == [c, d] && [a, b, c, d][1..] == [b, c, d];
    assert Weight([c, d]) == (if c then 1 else 0) + Weight([d]);
    assert Weight([b, c, d]) == (if b then 1 else 0) + Weight([c, d]);
  }

  lemma HighWeight()
    ensures Weight([false, false, false, true, true, true, true, false,
                    true, true, false, true, true, true, false, false]) == 9
  {
    hide Weight;
    assert [false, false, false, true] + [true, true, true, false] + [true, true, false, true]
           + [true, true, false, false]
        == [false, false, false, true, true, true, true, false, true, true, false, true, true, true, false, false];
    WeightSixteen([false, false, false, true], [true, true, true, false],
                  [true, true, false, true], [true, true, false, false]);
    WeightFour(false, false, false, true);
    WeightFour(true, true, true, false);
    WeightFour(true, true, false, true);
    WeightFour(true, true, false, false);
  }

  lemma LowWeight()
    ensures Weight([false, true, true, false, true, true, true, true,
                    false, true, false, false, false, false, false, true]) == 8
  {
    hide Weight;
    assert [false, true, true, false] + [true, true, true, true] + [false, true, false, false]
           + [false, false, false, true]
        == [false, true, true, false, true, true, true, true, false, true, false, false, false, false, false, true];
    WeightSixteen([false, true, true, false], [true, true, true, true],
                  [false, true, false, false], [false, false, false, true]);
    WeightFour(false, true, true, false);
    WeightFour(true, true, true, true);
    WeightFour(false, true, false, false);
    WeightFour(false, false, false, true);
  }

  /** The generator has 18 terms, so x + 1 divides it. */
  lemma GeneratorWeight()
    ensures Weight(Generator()[1..]) == 17 && OddWeight(Generator()[1..])
  {
    hide Weight, Generator;
    GeneratorHalves();
    HighWeight();
    LowWeight();
    WeightConcat(
      [false, false, false, true, true, true, true, false, true, true, false, true, true, true, false, false],
      [false, true, true, false, true, true, true, true, false, true, false, false, false, false, false, true]);
  }

  lemma ShiftIs(s: poly, b: bool)
    requires |s| == 32
    ensures var t := s[1..] + [false];
            Shift(s, b) == if s[0] != b then Xor(t, Generator()[1..]) else t
  {
  }

  lemma OddWeightMoved(s: poly)
    requires s != []
    ensures OddWeight(s[1..] + [false]) <==> OddWeight(s) != s[0]
  {
    WeightConcat(s[1..], [false]);
    assert Weight([false]) == 0;
  }

  lemma ParityStep(s: poly, b: bool, g: poly, r: poly)
    requires |s| == |g| == 32 && OddWeight(g)
    requires r == if s[0] != b then Xor(s[1..] + [false], g) else s[1..] + [false]
    ensures OddWeight(r) <==> OddWeight(s) != b
  {
    hide OddWeight;
    OddWeightMoved(s);
    OddWeightXor(s[1..] + [false], g);
  }

  /** A step changes the parity of the register exactly if the coefficient fed is set. */
  lemma ShiftParity(s: poly, b: bool)
    requires |s| == 32
    ensures OddWeight(Shift(s, b)) <==> OddWeight(s) != b
  {
    hide *;
    GeneratorWeight();
    ShiftIs(s, b);
    ParityStep(s, b, Generator()[1..], Shift(s, b));
  }

  lemma {:induction false} FeedParity(s: poly, m: poly)
    requires |s| == 32
    ensures OddWeight(Feed(s, m)) <==> OddWeight(s) != OddWeight(m)
    decreases |m|
  {
    if m != [] {
      FeedParity(Shift(s, m[0]), m[1..]);
      ShiftParity(s, m[0]);
      assert m == [m[0]] + m[1..];
      OddWeightCons(m[0], m[1..]);
      hide Shift, OddWeight;
    }
  }
}
