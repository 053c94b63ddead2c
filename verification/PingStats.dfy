/** Round-trip statistics in one pass and in four, over the reals. The standard deviation is
    represented by its square, the variance. */
module PingStats {

  datatype Summary = Summary(min: real, max: real, mean: real, variance: real)

  function Front(s: seq<real>): (f: seq<real>)
    requires s != []
    ensures |f| == |s| - 1
  {
    s[..|s| - 1]
  }

  function Last(s: seq<real>): real
    requires s != []
  {
    s[|s| - 1]
  }

  function Min(a: real, b: real): real { if a < b then a else b }
  function Max(a: real, b: real): real { if a > b then a else b }

  // ---- What the passes accumulate ---------------------------------------------------------

  function MinFrom(start: real, s: seq<real>): real {
    if s == [] then start else Min(MinFrom(start, Front(s)), Last(s))
  }

  function MaxFrom(start: real, s: seq<real>): real {
    if s == [] then start else Max(MaxFrom(start, Front(s)), Last(s))
  }

  function Sum(s: seq<real>): real {
    if s == [] then 0.0 else Sum(Front(s)) + Last(s)
  }

  /** Products and quotients by name, so that proofs can treat them as opaque terms. */
  function Times(a: real, b: real): real { a * b }

  function Over(a: real, n: nat): real
    requires n > 0
  {
    a / (n as real)
  }

  function SumSq(s: seq<real>): real {
    if s == [] then 0.0 else SumSq(Front(s)) + Times(Last(s), Last(s))
  }

  /** Sum of squared deviations from `m`. */
  function SumSqDiff(s: seq<real>, m: real): real {
    if s == [] then 0.0 else SumSqDiff(Front(s), m) + Times(Last(s) - m, Last(s) - m)
  }

  function Mean(s: seq<real>): real
    requires s != []
  {
    Over(Sum(s), |s|)
  }

  /** What the definitions of minimum, maximum and variance ask for. */
  function Definition(s: seq<real>): Summary
    requires s != []
  {
    Summary(MinFrom(s[0], s), MaxFrom(s[0], s), Mean(s), Over(SumSqDiff(s, Mean(s)), |s|))
  }

  /** Memory with `x` at `p`; a null result pointer is skipped. */
  function Put(s: seq<real>, p: nat, x: real): (t: seq<real>)
    requires p == 0 || p < |s|
    ensures |t| == |s|
  {
    if p == 0 then s else s[p := x]
  }

  predicate Cell(s: seq<real>, p: nat) { p == 0 || p < |s| }

  /** The caller must provide nothing at all for a null or empty list. */
  predicate StatsArguments(s: seq<real>, rtts: nat, count: nat, outMin: nat, outMax: nat, outAvg: nat, outVar: nat) {
    rtts == 0 || count == 0
    || (rtts + count <= |s| && Cell(s, outMin) && Cell(s, outMax) && Cell(s, outAvg) && Cell(s, outVar))
  }

  /** What the single pass leaves in memory: the statistics of the list as it was found, written
      one after the other; nothing for a null or empty list. */
  function StatsResult(s: seq<real>, rtts: nat, count: nat, outMin: nat, outMax: nat, outAvg: nat, outVar: nat):
    (t: seq<real>)
    requires StatsArguments(s, rtts, count, outMin, outMax, outAvg, outVar)
    ensures |t| == |s|
  {
    if rtts == 0 || count == 0 then s
    else
      var d := Definition(s[rtts..rtts + count]);
      Put(Put(Put(Put(s, outMin, d.min), outMax, d.max), outAvg, d.mean), outVar, d.variance)
  }

  /** `asm_calc_ping_stats_simd`: one pass keeping Min, Max, Sum and SumSq. Memory is an array of
      doubles and a pointer an index into it, null being 0. The last pointer gets the variance in
      place of its square root. */
  method CalcPingStats(mem: array<real>, rtts: nat, count: nat, outMin: nat, outMax: nat, outAvg: nat, outVar: nat)
    requires StatsArguments(mem[..], rtts, count, outMin, outMax, outAvg, outVar)
    modifies mem
    ensures mem[..] == StatsResult(old(mem[..]), rtts, count, outMin, outMax, outAvg, outVar)
  {
    if rtts == 0 || count == 0 { return; }
    var d := OnePass(mem, rtts, count);
    if outMin != 0 { mem[outMin] := d.min; }
    if outMax != 0 { mem[outMax] := d.max; }
    if outAvg != 0 { mem[outAvg] := d.mean; }
    if outVar != 0 { mem[outVar] := d.variance; }
  }

  /** The loop and the arithmetic after it. */
  method OnePass(mem: array<real>, rtts: nat, count: nat) returns (r: Summary)
    requires count > 0 && rtts + count <= mem.Length
    ensures r == Definition(mem[rtts..rtts + count])
  {
    hide Times, Over;
    ghost var list := mem[rtts..rtts + count];
    var xmm0, xmm1, xmm2, xmm3 := mem[rtts], mem[rtts], 0.0, 0.0;
    var rdi := 0;
    while rdi < count
      invariant 0 <= rdi <= count
      invariant xmm0 == MinFrom(list[0], list[..rdi]) && xmm1 == MaxFrom(list[0], list[..rdi])
      invariant xmm2 == Sum(list[..rdi]) && xmm3 == SumSq(list[..rdi])
    {
      assert list[..rdi + 1][..rdi] == list[..rdi];
      var val := mem[rtts + rdi];
      xmm0, xmm1 := Min(xmm0, val), Max(xmm1, val);
      xmm2, xmm3 := xmm2 + val, xmm3 + Times(val, val);
      rdi := rdi + 1;
    }
    assert list[..count] == list;
    var mean := Over(xmm2, count);
    var variance := Over(xmm3, count) - Times(mean, mean);
    VarianceIdentity(list);
    DeviationsNonNegative(list, mean);
    r := Summary(xmm0, xmm1, mean, Max(variance, 0.0));
  }

  /** The scalar statistics of the benchmark: four passes, the minimum starting from 9999 and
      the maximum from 0. */
  method ScalarStats(rtts: seq<real>) returns (r: Summary)
    requires rtts != []
    ensures r == FourPass(rtts)
  {
    hide Times, Over;
    var sMin, sMax, sSum := 9999.0, 0.0, 0.0;
    for i := 0 to |rtts|
      invariant sMin == MinFrom(9999.0, rtts[..i])
    {
      assert rtts[..i + 1][..i] == rtts[..i];
      if rtts[i] < sMin { sMin := rtts[i]; }
    }
    for i := 0 to |rtts|
      invariant sMax == MaxFrom(0.0, rtts[..i])
    {
      assert rtts[..i + 1][..i] == rtts[..i];
      if rtts[i] > sMax { sMax := rtts[i]; }
    }
    for i := 0 to |rtts|
      invariant sSum == Sum(rtts[..i])
    {
      assert rtts[..i + 1][..i] == rtts[..i];
      sSum := sSum + rtts[i];
    }
    var sAvg := Over(sSum, |rtts|);
    var sqDiff := 0.0;
    for i := 0 to |rtts|
      invariant sqDiff == SumSqDiff(rtts[..i], sAvg)
    {
      assert rtts[..i + 1][..i] == rtts[..i];
      sqDiff := sqDiff + Times(rtts[i] - sAvg, rtts[i] - sAvg);
    }
    assert rtts[..|rtts|] == rtts;
    r := Summary(sMin, sMax, sAvg, Over(sqDiff, |rtts|));
  }

  function FourPass(s: seq<real>): Summary
    requires s != []
  {
    Summary(MinFrom(9999.0, s), MaxFrom(0.0, s), Mean(s), Over(SumSqDiff(s, Mean(s)), |s|))
  }

  // ---- Why they agree ---------------------------------------------------------------------

  lemma Distribute(a: real, b: real, c: real)
    ensures Times(a, b + c) == Times(a, b) + Times(a, c)
    ensures Times(b + c, a) == Times(b, a) + Times(c, a)
  {
  }

  lemma Square(v: real, m: real)
    ensures Times(v - m, v - m) == Times(v, v) - 2.0 * Times(m, v) + Times(m, m)
  {
    assert (v - m) * (v - m) == v * (v - m) - m * (v - m);
  }

  lemma {:induction false} SumSqDiffExpands(s: seq<real>, m: real)
    ensures SumSqDiff(s, m) == SumSq(s) - 2.0 * Times(m, Sum(s)) + Times(|s| as real, Times(m, m))
  {
    assert Times(m, 0.0) == 0.0 && Times(0.0, Times(m, m)) == 0.0 && Times(1.0, Times(m, m)) == Times(m, m);
    hide Times;
    if s != [] {
      SumSqDiffExpands(Front(s), m);
      Square(Last(s), m);
      Distribute(m, Sum(Front(s)), Last(s));
      Distribute(Times(m, m), |Front(s)| as real, 1.0);
    }
  }

  lemma OverMinus(a: real, b: real, n: nat)
    requires n > 0
    ensures Over(a - b, n) == Over(a, n) - Over(b, n)
    ensures a >= b ==> Over(a, n) >= Over(b, n)
  {
    var x := n as real;
    assert (a - b) / x == a / x - b / x;
  }

  lemma OverTimes(c: real, t: real, n: nat)
    requires n > 0
    ensures Over(Times(c, t), n) == Times(c, Over(t, n))
    ensures Over(Times(n as real, c), n) == c
  {
    var x := n as real;
    assert (c * t) / x == c * (t / x);
    assert (x * c) / x == c;
  }

  /** The mean of the squares less the square of the mean is the mean squared deviation. */
  lemma VarianceIdentity(s: seq<real>)
    requires s != []
    ensures Over(SumSq(s), |s|) - Times(Mean(s), Mean(s)) == Over(SumSqDiff(s, Mean(s)), |s|)
  {
    hide SumSq, Sum, SumSqDiff, Over, Times;
    var (n, m, q, t) := (|s|, Mean(s), SumSq(s), Sum(s));
    SumSqDiffExpands(s, m);
    OverMinus(q - 2.0 * Times(m, t), -Times(n as real, Times(m, m)), n);
    OverMinus(q - Times(m, t), Times(m, t), n);
    OverMinus(q, Times(m, t), n);
    OverMinus(0.0, Times(n as real, Times(m, m)), n);
    OverMinus(0.0, 0.0, n);
    OverTimes(m, t, n);
    OverTimes(Times(m, m), 0.0, n);
  }

  lemma {:induction false} DeviationsNonNegative(s: seq<real>, m: real)
    ensures SumSqDiff(s, m) >= 0.0
    ensures s != [] ==> Over(SumSqDiff(s, m), |s|) >= 0.0
  {
    if s != [] {
      DeviationsNonNegative(Front(s), m);
      SquareNonNegative(Last(s) - m);
      hide Times;
    }
  }

  lemma SquareNonNegative(x: real)
    ensures Times(x, x) >= 0.0
  {
  }

  /** `start` and every value lie between the extremes, and the extremes are attained. */
  lemma {:induction false} ExtremesAre(start: real, s: seq<real>)
    ensures MinFrom(start, s) <= start <= MaxFrom(start, s)
    ensures forall i :: 0 <= i < |s| ==> MinFrom(start, s) <= s[i] <= MaxFrom(start, s)
    ensures MinFrom(start, s) == start || MinFrom(start, s) in s
    ensures MaxFrom(start, s) == start || MaxFrom(start, s) in s
  {
    if s != [] {
      ExtremesAre(start, Front(s));
      assert forall x :: x in Front(s) ==> x in s;
      assert Last(s) in s;
    }
  }

  /** Starting from a constant instead of the first value changes an extreme exactly when all
      values lie beyond the constant. */
  lemma StartMatters(start: real, s: seq<real>)
    requires s != []
    ensures MinFrom(start, s) == MinFrom(s[0], s) <==> MinFrom(s[0], s) <= start
    ensures MaxFrom(start, s) == MaxFrom(s[0], s) <==> MaxFrom(s[0], s) >= start
  {
    ExtremesAre(start, s);
    ExtremesAre(s[0], s);
    var (lo, hi) := (MinFrom(s[0], s), MaxFrom(s[0], s));
    assert lo in s && hi in s;
  }

  /** The one-pass and the four-pass statistics of a non-empty list are the same exactly when
      some value is at most 9999 and some value is at least 0. */
  lemma PassesAgreeIff(s: seq<real>)
    requires s != []
    ensures Definition(s) == FourPass(s)
       <==> (exists i :: 0 <= i < |s| && s[i] <= 9999.0) && (exists i :: 0 <= i < |s| && s[i] >= 0.0)
  {
    StartMatters(9999.0, s);
    StartMatters(0.0, s);
    ExtremesAre(s[0], s);
    hide MinFrom, MaxFrom, SumSqDiff, Sum;
    assert MinFrom(s[0], s) in s && MaxFrom(s[0], s) in s;
  }

  // ---- Bounds -----------------------------------------------------------------------------

  /** (hi - v)(v - lo) is not negative, multiplied out. */
  lemma Spread(v: real, lo: real, hi: real)
    requires lo <= v <= hi
    ensures Times(lo + hi, v) - Times(v, v) - Times(lo, hi) == Times(hi - v, v - lo) >= 0.0
  {
    assert (hi - v) * (v - lo) == hi * (v - lo) - v * (v - lo);
  }

  lemma {:induction false} SpreadSum(s: seq<real>, lo: real, hi: real)
    requires forall i :: 0 <= i < |s| ==> lo <= s[i] <= hi
    ensures Times(lo + hi, Sum(s)) - SumSq(s) - Times(|s| as real, Times(lo, hi)) >= 0.0
    ensures Times(|s| as real, lo) <= Sum(s) <= Times(|s| as real, hi)
  {
    forall x: real ensures Times(x, 0.0) == Times(0.0, x) == 0.0 && Times(1.0, x) == x { }
    hide Times;
    if s != [] {
      var n := |Front(s)| as real;
      assert forall i :: 0 <= i < |Front(s)| ==> Front(s)[i] == s[i];
      SpreadSum(Front(s), lo, hi);
      Spread(s[|s| - 1], lo, hi);
      Distribute(lo + hi, Sum(Front(s)), Last(s));
      Distribute(Times(lo, hi), n, 1.0);
      Distribute(lo, n, 1.0);
      Distribute(hi, n, 1.0);
    }
  }

  /** The mean lies between the extremes, and the variance between zero and the product of the
      distances of the mean to the extremes. */
  lemma VarianceBounds(s: seq<real>)
    requires s != []
    ensures var d := Definition(s);
            && d.min <= d.mean <= d.max
            && 0.0 <= d.variance <= Times(d.max - d.mean, d.mean - d.min)
  {
    var d := Definition(s);
    DefinitionUnfolds(s);
    hide *;
    ExtremesAre(s[0], s);
    SpreadSum(s, d.min, d.max);
    VarianceIdentity(s);
    DeviationsNonNegative(s, d.mean);
    SpreadMean(|s|, Sum(s), SumSq(s), d.min, d.max);
  }

  lemma DefinitionUnfolds(s: seq<real>)
    requires s != []
    ensures var d := Definition(s);
            && d.min == MinFrom(s[0], s) && d.max == MaxFrom(s[0], s)
            && d.mean == Mean(s) == Over(Sum(s), |s|)
            && d.variance == Over(SumSqDiff(s, Mean(s)), |s|)
  {
  }

  lemma SpreadMean(n: nat, t: real, q: real, lo: real, hi: real)
    requires n > 0 && Times(lo + hi, t) - q - Times(n as real, Times(lo, hi)) >= 0.0
    requires Times(n as real, lo) <= t <= Times(n as real, hi)
    ensures var m := Over(t, n);
            lo <= m <= hi && Over(q, n) - Times(m, m) <= Times(hi - m, m - lo)
  {
    hide Over, Times;
    var m := Over(t, n);
    OverMinus(t, Times(n as real, lo), n);
    OverMinus(Times(n as real, hi), t, n);
    OverTimes(lo, 0.0, n);
    OverTimes(hi, 0.0, n);
    Spread(m, lo, hi);
    OverMinus(Times(lo + hi, t), q, n);
    OverMinus(Times(lo + hi, t) - q, Times(n as real, Times(lo, hi)), n);
    OverTimes(lo + hi, t, n);
    OverTimes(Times(lo, hi), 0.0, n);
  }
}
