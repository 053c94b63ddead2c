/** The one-line graph of a ping history. */
module Sparkline {
  import opened PingStats
  import opened PingMonitor

  const LEVELS: string := "_.-=oO#"

  /** `static_cast<int>` of a double: truncation towards zero. */
  function Truncate(x: real): int {
    if x >= 0.0 then x.Floor else -((-x).Floor)
  }

  /** The interval over which the levels are spread; a nearly flat history gets 1. */
  function Range(lo: real, hi: real): (r: real)
    requires lo <= hi
    ensures r > 0.0
  {
    if hi - lo < 0.001 then 1.0 else hi - lo
  }

  /** The level of `val`, before the two clamps of the code. */
  function Level(val: real, lo: real, range: real): int
    requires range > 0.0
  {
    Truncate(((val - lo) / range) * 6.0)
  }

  /** Neither clamp ever fires; levels grow with the value; the lowest value is at level 0; and
      when the range is not degenerate, level 6 means exactly the highest value. */
  lemma LevelLaws(val: real, lo: real, hi: real)
    requires lo <= val <= hi
    ensures var l := Level(val, lo, Range(lo, hi));
            && 0 <= l <= 6
            && (val == lo ==> l == 0)
            && (hi - lo < 0.001 ==> l == 0)
            && (hi - lo >= 0.001 ==> (l == 6 <==> val == hi))
  {
    var r := Range(lo, hi);
    Divide(0.0, val - lo, r);
    Divide(val - lo, r, r);
    var q := (val - lo) / r;
    assert 0.0 <= q;
    if hi - lo < 0.001 {
      Divide(val - lo, 0.001, 1.0);
    } else {
      assert q <= 1.0 && (q == 1.0 <==> val == hi);
    }
  }

  /** In between, the level is the height of the value in sixths of the range, rounded down. */
  lemma LevelIs(val: real, lo: real, hi: real)
    requires lo <= val <= hi
    ensures var (l, r) := (Level(val, lo, Range(lo, hi)), Range(lo, hi));
            Times(l as real, r) <= 6.0 * (val - lo) < Times(l as real + 1.0, r)
  {
    var r := Range(lo, hi);
    Divide(0.0, val - lo, r);
    var q := (val - lo) / r;
    var l := Level(val, lo, r) as real;
    assert l <= q * 6.0 < l + 1.0;
    SixTimes(val - lo, q, r);
    hide Level, Range, Times;
    Heights(l, q * 6.0, r);
    Heights(q * 6.0, l + 1.0, r);
  }

  lemma Heights(p: real, q: real, r: real)
    requires r > 0.0
    ensures p < q ==> Times(p, r) < Times(q, r)
    ensures p <= q ==> Times(p, r) <= Times(q, r)
  {
    Scale(p, q, r);
  }

  lemma SixTimes(x: real, q: real, r: real)
    requires r > 0.0 && q == x / r
    ensures Times(q * 6.0, r) == 6.0 * x
  {
    assert q * r == x;
    assert (q * 6.0) * r == 6.0 * (q * r);
  }

  lemma Divide(a: real, b: real, r: real)
    requires r > 0.0
    ensures a <= b <==> a / r <= b / r
    ensures r / r == 1.0 && 0.0 / r == 0.0
  {
    var (p, q) := (a / r, b / r);
    assert a == p * r && b == q * r;
    Scale(p, q, r);
    Scale(q, p, r);
  }

  lemma Scale(p: real, q: real, r: real)
    requires r > 0.0
    ensures p < q ==> p * r < q * r
    ensures p <= q ==> p * r <= q * r
  {
  }

  lemma LevelMonotone(a: real, b: real, lo: real, hi: real)
    requires lo <= a <= b <= hi
    ensures Level(a, lo, Range(lo, hi)) <= Level(b, lo, Range(lo, hi))
  {
    var r := Range(lo, hi);
    Divide(0.0, a - lo, r);
    Divide(a - lo, b - lo, r);
  }

  /** First of the samples shown. */
  function FirstShown(size: nat, width: int): int {
    if size > width then size - width else 0
  }

  /** The character drawn for one sample. */
  function Glyph(v: real, lo: real, hi: real): char
    requires lo <= hi && (v >= 0.0 ==> lo <= v <= hi)
  {
    if v < 0.0 then 'X' else LevelLaws(v, lo, hi); LEVELS[Level(v, lo, Range(lo, hi))]
  }

  /** `GenerateSparkline` */
  method GenerateSparkline(history: seq<real>, width: int) returns (sparkline: string)
    ensures history == [] ==> sparkline == ""
    ensures history != [] && Valid(history) == [] ==> sparkline == "[PACKET LOSS]"
    ensures Valid(history) != [] ==>
      && |sparkline| == (if width < 0 then 0 else if width < |history| then width else |history|)
      && forall k :: 0 <= k < |sparkline| ==>
           Shown(history, FirstShown(|history|, width) + k, sparkline[k])
  {
    if history == [] { return ""; }
    var valid := [];
    for i := 0 to |history|
      invariant valid == Valid(history[..i])
    {
      assert Front(history[..i + 1]) == history[..i];
      if history[i] >= 0.0 { valid := valid + [history[i]]; }
    }
    assert history[..|history|] == history;
    if valid == [] { return "[PACKET LOSS]"; }
    var (minVal, maxVal) := (MinFrom(valid[0], valid), MaxFrom(valid[0], valid));
    ExtremesAre(valid[0], valid);
    forall i | 0 <= i < |history| && history[i] >= 0.0
      ensures minVal <= history[i] <= maxVal
    {
      ValidHas(history, i);
    }
    hide Valid, MinFrom, MaxFrom, Glyph;
    var startIdx := 0;
    if |history| > width { startIdx := |history| - width; }
    sparkline := Draw(history, startIdx, minVal, maxVal);
  }

  /** The drawing loop, with the clamps the code has. */
  method Draw(history: seq<real>, startIdx: nat, minVal: real, maxVal: real) returns (sparkline: string)
    requires minVal <= maxVal
    requires forall i :: 0 <= i < |history| && history[i] >= 0.0 ==> minVal <= history[i] <= maxVal
    ensures |sparkline| == if startIdx <= |history| then |history| - startIdx else 0
    ensures forall k :: 0 <= k < |sparkline| ==>
      sparkline[k] == Glyph(history[startIdx + k], minVal, maxVal)
  {
    var range := maxVal - minVal;
    if range < 0.001 { range := 1.0; }
    hide Level;
    sparkline := "";
    var i := startIdx;
    while i < |history|
      invariant startIdx <= i && (i <= |history| || i == startIdx)
      invariant |sparkline| == i - startIdx
      invariant forall k :: 0 <= k < |sparkline| ==>
        sparkline[k] == Glyph(history[startIdx + k], minVal, maxVal)
    {
      var val := history[i];
      if val < 0.0 {
        sparkline := sparkline + "X";
      } else {
        LevelLaws(val, minVal, maxVal);
        var level := Level(val, minVal, range);
        if level < 0 { level := 0; }
        if level >= 7 { level := 6; }
        sparkline := sparkline + [LEVELS[level]];
      }
      i := i + 1;
    }
  }

  /** `c` is what the graph shows for sample `i` of a history with at least one reply. */
  ghost predicate Shown(history: seq<real>, i: int, c: char) {
    var v := Valid(history);
    && v != [] && 0 <= i < |history|
    && var (lo, hi) := (MinFrom(v[0], v), MaxFrom(v[0], v));
       && lo <= hi && (history[i] >= 0.0 ==> lo <= history[i] <= hi)
       && c == Glyph(history[i], lo, hi)
  }

  lemma {:induction false} ValidHas(history: seq<real>, i: nat)
    requires i < |history| && history[i] >= 0.0
    ensures history[i] in Valid(history)
  {
    if i < |history| - 1 {
      ValidHas(Front(history), i);
    }
  }

  /** The rank of a level character; losses rank below all levels. */
  function Rank(c: char): int {
    if c == '_' then 0 else if c == '.' then 1 else if c == '-' then 2 else if c == '=' then 3
    else if c == 'o' then 4 else if c == 'O' then 5 else if c == '#' then 6 else -1
  }

  lemma RankOfGlyph(v: real, lo: real, hi: real)
    requires lo <= hi && (v >= 0.0 ==> lo <= v <= hi)
    ensures Rank(Glyph(v, lo, hi)) == if v < 0.0 then -1 else Level(v, lo, Range(lo, hi))
  {
    if v >= 0.0 {
      LevelLaws(v, lo, hi);
      assert forall l :: 0 <= l < 7 ==> Rank(LEVELS[l]) == l;
    }
  }

  /** Reading the graph: X marks exactly the losses; of two replies the slower never has the
      lower mark; the fastest reply has the lowest mark; and unless the history is flat, '#'
      marks exactly the slowest replies. The mark of a reply says where it lies, to a sixth of the
      range. */
  lemma ReadingTheGraph(history: seq<real>, i: int, c: char, j: int, d: char)
    requires Shown(history, i, c) && Shown(history, j, d)
    ensures c == 'X' <==> history[i] < 0.0
    ensures 0.0 <= history[i] <= history[j] ==> Rank(c) <= Rank(d)
    ensures var v := Valid(history);
            var (lo, hi) := (MinFrom(v[0], v), MaxFrom(v[0], v));
            && (history[i] == lo ==> c == '_')
            && (hi - lo >= 0.001 ==> (c == '#' <==> history[i] == hi))
            && (hi - lo < 0.001 ==> c == 'X' || c == '_')
            && (history[i] >= 0.0 ==>
                  var r := if hi - lo < 0.001 then 1.0 else hi - lo;
                  Times(Rank(c) as real, r) <= 6.0 * (history[i] - lo) < Times(Rank(c) as real + 1.0, r))
  {
    var v := Valid(history);
    var (lo, hi) := (MinFrom(v[0], v), MaxFrom(v[0], v));
    ExtremesAre(v[0], v);
    ValidAreValid(history);
    hide Valid, MinFrom, MaxFrom, Level, Range, Times;
    RankOfGlyph(history[i], lo, hi);
    RankOfGlyph(history[j], lo, hi);
    RankDetermines(c);
    if history[i] >= 0.0 {
      LevelLaws(history[i], lo, hi);
      LevelIs(history[i], lo, hi);
      RangeIs(lo, hi);
      if history[i] <= history[j] { LevelMonotone(history[i], history[j], lo, hi); }
    }
  }

  lemma RangeIs(lo: real, hi: real)
    requires lo <= hi
    ensures Range(lo, hi) == if hi - lo < 0.001 then 1.0 else hi - lo
  {
  }

  lemma RankDetermines(c: char)
    ensures Rank(c) == 0 <==> c == '_'
    ensures Rank(c) == 6 <==> c == '#'
    ensures c == 'X' ==> Rank(c) == -1
  {
  }
}
