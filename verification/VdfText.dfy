/** Searching and replacing in the text of a users file: the regular expressions the repair
    uses, and what they do on text made of quoted strings, white space and braces. */
module VdfText {

  const Q: char := '"'

  /** Matched by `\s`. */
  predicate IsSpace(c: char) { c == ' ' || '\t' <= c <= '\r' }

  predicate IsLetter(c: char) { 'a' <= c <= 'z' || 'A' <= c <= 'Z' }

  function Lower(c: char): char {
    if 'A' <= c <= 'Z' then ((c as int) + 32) as char else c
  }

  predicate SameChar(a: char, b: char, fold: bool) { if fold then Lower(a) == Lower(b) else a == b }

  /** Equal text, up to case if `fold`. */
  predicate Same(a: string, b: string, fold: bool) {
    |a| == |b| && forall i :: 0 <= i < |a| ==> SameChar(a[i], b[i], fold)
  }

  /** The white space of a regular expression: blank, tab, line feed, vertical tab, form feed and
      carriage return. */
  lemma SpaceIs(c: char)
    ensures IsSpace(c) <==> c as int in {32, 9, 10, 11, 12, 13}
  {
  }

  /** One letter in its two cases: their codes differ by 32. */
  predicate OtherCase(a: char, b: char) {
    || ('A' <= a <= 'Z' && b as int == a as int + 32)
    || ('A' <= b <= 'Z' && a as int == b as int + 32)
  }

  /** The same text but for the case of letters. */
  predicate CaseVariant(a: string, b: string) {
    |a| == |b| && forall i :: 0 <= i < |a| ==> a[i] == b[i] || OtherCase(a[i], b[i])
  }

  /** `icase` ignores the case of letters and nothing else. */
  lemma SameIff(a: string, b: string)
    ensures Same(a, b, true) <==> CaseVariant(a, b)
    ensures Same(a, b, false) <==> a == b
  {
    hide OtherCase, SameChar;
    forall x: char, y: char
      ensures SameChar(x, y, true) <==> x == y || OtherCase(x, y)
      ensures SameChar(x, y, false) <==> x == y
    {
      SameCharIff(x, y);
    }
  }

  lemma SameCharIff(x: char, y: char)
    ensures SameChar(x, y, true) <==> x == y || OtherCase(x, y)
    ensures SameChar(x, y, false) <==> x == y
  {
  }

  /** What follows the quoted key: nothing; white space and any quoted value; white space and a
      given value; or a given separator and value. */
  datatype Tail = Nothing | AnyValue | Value(v: string) | Exactly(sep: string, v: string)

  /** The patterns of the repair all start with a quoted key. */
  datatype Pattern = Pattern(key: string, fold: bool, tail: Tail)

  /** `s` starts with `w` in quotes. */
  predicate QuotedAt(w: string, fold: bool, s: string) {
    |s| >= |w| + 2 && s[0] == Q && Same(s[1..|w| + 1], w, fold) && s[|w| + 1] == Q
  }

  /** Length of the white space, and of the quote-free text, in front. */
  function SpaceRun(s: string): (n: nat)
    ensures n <= |s|
  {
    if s != "" && IsSpace(s[0]) then 1 + SpaceRun(s[1..]) else 0
  }

  function PlainRun(s: string): (n: nat)
    ensures n <= |s|
  {
    if s != "" && s[0] != Q then 1 + PlainRun(s[1..]) else 0
  }

  /** Length of the quoted value at the start of `s`, or -1: `"[^"]*"`. */
  function QuotedValue(s: string): (n: int)
    ensures n == -1 || 2 <= n <= |s|
  {
    if s != "" && s[0] == Q && 1 + PlainRun(s[1..]) < |s| then PlainRun(s[1..]) + 2 else -1
  }

  /** Length of the match of what follows the key, or -1. */
  function TailMatch(tail: Tail, fold: bool, s: string): (n: int)
    ensures -1 <= n <= |s|
  {
    match tail
    case Nothing => 0
    case AnyValue =>
      var j := SpaceRun(s);
      if QuotedValue(s[j..]) < 0 then -1 else j + QuotedValue(s[j..])
    case Value(v) =>
      var j := SpaceRun(s);
      if QuotedAt(v, fold, s[j..]) then j + |v| + 2 else -1
    case Exactly(sep, v) =>
      if sep <= s && QuotedAt(v, fold, s[|sep|..]) then |sep| + |v| + 2 else -1
  }

  /** Length of the match at the start of `s`, or -1. */
  function Match(p: Pattern, s: string): (n: int)
    ensures n == -1 || 2 <= n <= |s|
  {
    if !QuotedAt(p.key, p.fold, s) then -1
    else
      var k := |p.key| + 2;
      var n := TailMatch(p.tail, p.fold, s[k..]);
      if n < 0 then -1 else k + n
  }

  /** Position of the first match, or -1: `regex_search` and `find`. */
  function Search(p: Pattern, s: string): (i: int)
    ensures i == -1 || 0 <= i < |s|
  {
    if Match(p, s) >= 0 then 0
    else if s == "" then -1
    else var i := Search(p, s[1..]); if i < 0 then -1 else i + 1
  }

  /** `regex_replace`: every match, from left to right, gives way to `sub`. */
  function ReplaceAll(p: Pattern, s: string, sub: string): string
    decreases |s|
  {
    if s == "" then ""
    else if Match(p, s) >= 0 then sub + ReplaceAll(p, s[Match(p, s)..], sub)
    else [s[0]] + ReplaceAll(p, s[1..], sub)
  }

  /** `regex_replace` with `format_first_only`. */
  function ReplaceFirst(p: Pattern, s: string, sub: string): string {
    var i := Search(p, s);
    if i < 0 || Match(p, s[i..]) < 0 then s else s[..i] + sub + s[i + Match(p, s[i..])..]
  }

  // ---- Tokens -------------------------------------------------------------------------------

  datatype Token = Plain(c: char) | Quoted(body: string)

  predicate Brace(c: char) { c == '{' || c == '}' }

  predicate QuoteFree(s: string) { forall i :: 0 <= i < |s| ==> s[i] != Q }

  predicate CleanToken(t: Token) {
    match t
    case Plain(c) => IsSpace(c) || Brace(c)
    case Quoted(b) => QuoteFree(b)
  }

  predicate Clean(toks: seq<Token>) { forall i :: 0 <= i < |toks| ==> CleanToken(toks[i]) }

  /** Nothing searched for contains a quote, and keys start with a letter. */
  predicate CleanTail(tail: Tail) {
    match tail
    case Nothing => true
    case AnyValue => true
    case Value(v) => QuoteFree(v)
    case Exactly(sep, v) => QuoteFree(v) && forall i :: 0 <= i < |sep| ==> IsSpace(sep[i])
  }

  predicate CleanPattern(p: Pattern) {
    p.key != "" && IsLetter(p.key[0]) && QuoteFree(p.key) && CleanTail(p.tail)
  }

  function TokenText(t: Token): (s: string)
    ensures |s| > 0
  {
    match t
    case Plain(c) => [c]
    case Quoted(b) => [Q] + b + [Q]
  }

  function Text(toks: seq<Token>): string {
    if toks == [] then "" else TokenText(toks[0]) + Text(toks[1..])
  }

  lemma {:induction false} TextConcat(a: seq<Token>, b: seq<Token>)
    ensures Text(a + b) == Text(a) + Text(b)
  {
    if a == [] {
      assert a + b == b;
    } else {
      assert (a + b)[1..] == a[1..] + b;
      TextConcat(a[1..], b);
    }
  }

  /** White space tokens in front. */
  function Spaces(toks: seq<Token>): (n: nat)
    ensures n <= |toks|
  {
    if toks != [] && toks[0].Plain? && IsSpace(toks[0].c) then 1 + Spaces(toks[1..]) else 0
  }

  function Plains(s: string): (toks: seq<Token>)
    ensures |toks| == |s|
  {
    seq(|s|, i requires 0 <= i < |s| => Plain(s[i]))
  }

  predicate QuotedToken(toks: seq<Token>, k: nat, w: string, fold: bool) {
    k < |toks| && toks[k].Quoted? && Same(toks[k].body, w, fold)
  }

  /** How many tokens the match covers, or -1. */
  function TokenTail(tail: Tail, fold: bool, toks: seq<Token>): (n: int)
    ensures -1 <= n <= |toks|
  {
    match tail
    case Nothing => 0
    case AnyValue =>
      var k := Spaces(toks);
      if k < |toks| && toks[k].Quoted? then k + 1 else -1
    case Value(v) =>
      var k := Spaces(toks);
      if QuotedToken(toks, k, v, fold) then k + 1 else -1
    case Exactly(sep, v) =>
      if Plains(sep) <= toks && QuotedToken(toks, |sep|, v, fold) then |sep| + 1 else -1
  }

  function TokenMatch(p: Pattern, toks: seq<Token>): (n: int)
    ensures n == -1 || 1 <= n <= |toks|
  {
    if !QuotedToken(toks, 0, p.key, p.fold) then -1
    else
      var n := TokenTail(p.tail, p.fold, toks[1..]);
      if n < 0 then -1 else 1 + n
  }

  lemma QuotedAtIff(w: string, fold: bool, b: string, rest: string)
    requires QuoteFree(w) && QuoteFree(b)
    ensures QuotedAt(w, fold, [Q] + b + [Q] + rest) <==> Same(b, w, fold)
  {
    var s := [Q] + b + [Q] + rest;
    if |b| == |w| {
      assert s[1..|w| + 1] == b;
    } else if |b| < |w| {
      assert !SameChar(Q, w[|b|], fold);
      assert |s| >= |w| + 2 ==> s[1..|w| + 1][|b|] == Q;
    } else {
      assert s[|w| + 1] == b[|w|] != Q;
    }
  }

  /** Text that starts with no quote starts with no quoted word. */
  lemma NotQuoted(w: string, fold: bool, toks: seq<Token>)
    requires Clean(toks) && (toks == [] || toks[0].Plain?)
    ensures !QuotedAt(w, fold, Text(toks))
  {
  }

  lemma QuotedIff(w: string, fold: bool, toks: seq<Token>)
    requires Clean(toks) && QuoteFree(w)
    ensures QuotedAt(w, fold, Text(toks)) <==> QuotedToken(toks, 0, w, fold)
  {
    if toks != [] && toks[0].Quoted? {
      QuotedAtIff(w, fold, toks[0].body, Text(toks[1..]));
    } else {
      NotQuoted(w, fold, toks);
    }
  }

  /** Skipping white space in the text skips the white space tokens. */
  lemma {:induction false} SpacesText(toks: seq<Token>)
    requires Clean(toks)
    ensures SpaceRun(Text(toks)) == Spaces(toks)
    ensures Text(toks)[Spaces(toks)..] == Text(toks[Spaces(toks)..])
    ensures |Text(toks[..Spaces(toks)])| == Spaces(toks)
  {
    if toks != [] && toks[0].Plain? && IsSpace(toks[0].c) {
      SpacesText(toks[1..]);
      var n := Spaces(toks);
      assert toks[1..][n - 1..] == toks[n..];
      assert toks[..n][1..] == toks[1..][..n - 1];
      assert Text(toks)[1..] == Text(toks[1..]);
    }
  }

  lemma {:induction false} PlainRunIs(b: string, rest: string)
    requires QuoteFree(b)
    ensures PlainRun(b + [Q] + rest) == |b|
  {
    var s := b + [Q] + rest;
    if b != "" {
      PlainRunIs(b[1..], rest);
      assert s[1..] == b[1..] + [Q] + rest;
    }
  }

  lemma {:induction false} PlainsText(s: string)
    ensures Text(Plains(s)) == s
  {
    if s != "" {
      PlainsText(s[1..]);
      assert Plains(s)[1..] == Plains(s[1..]);
    }
  }

  // ---- Text matching is token matching --------------------------------------------------------

  lemma TextOne(t: Token)
    ensures Text([t]) == TokenText(t)
  {
    assert Text([t]) == TokenText(t) + Text([]);
  }

  /** The text of the first `n` tokens is a prefix. */
  lemma TextSplit(toks: seq<Token>, n: nat)
    requires n <= |toks|
    ensures Text(toks) == Text(toks[..n]) + Text(toks[n..])
  {
    assert toks == toks[..n] + toks[n..];
    TextConcat(toks[..n], toks[n..]);
  }

  /** A match of `n` characters is the same as one of `m` tokens; -1 is none. */
  ghost predicate Agrees(n: int, toks: seq<Token>, m: int) {
    if m < 0 then n == -1 else m <= |toks| && n == |Text(toks[..m])|
  }

  /** A match that goes on after the first `k` tokens. */
  lemma GoesOn(n: int, toks: seq<Token>, k: nat, m: int)
    requires k <= |toks| && m >= 0 && Agrees(n, toks[k..], m)
    ensures Agrees(|Text(toks[..k])| + n, toks, k + m)
  {
    assert toks[..k + m] == toks[..k] + toks[k..][..m];
    TextConcat(toks[..k], toks[k..][..m]);
  }

  lemma QuotedAgrees(w: string, fold: bool, toks: seq<Token>)
    requires Clean(toks) && QuoteFree(w)
    ensures Agrees(if QuotedAt(w, fold, Text(toks)) then |w| + 2 else -1, toks,
                   if QuotedToken(toks, 0, w, fold) then 1 else -1)
  {
    QuotedIff(w, fold, toks);
    if QuotedToken(toks, 0, w, fold) {
      TextOne(toks[0]);
      assert toks[..1] == [toks[0]];
    }
  }

  lemma QuotedValueIs(b: string, rest: string)
    requires QuoteFree(b)
    ensures QuotedValue([Q] + b + [Q] + rest) == |b| + 2
  {
    PlainRunIs(b, rest);
    assert ([Q] + b + [Q] + rest)[1..] == b + [Q] + rest;
    hide PlainRun, QuoteFree;
  }

  lemma ValueAgrees(toks: seq<Token>)
    requires Clean(toks)
    ensures Agrees(QuotedValue(Text(toks)), toks, if toks != [] && toks[0].Quoted? then 1 else -1)
  {
    if toks != [] && toks[0].Quoted? {
      hide QuotedValue;
      QuotedValueIs(toks[0].body, Text(toks[1..]));
      TextOne(toks[0]);
      assert toks[..1] == [toks[0]];
    }
  }

  /** White space in front shifts a match by the same number of characters and tokens. */
  lemma SpacesShift(toks: seq<Token>, n: int, m: int)
    requires Clean(toks) && -1 <= m <= 1 && m != 0
    requires Agrees(n, toks[Spaces(toks)..], m)
    ensures var k := Spaces(toks);
            && SpaceRun(Text(toks)) == k && Text(toks)[k..] == Text(toks[k..]) && Clean(toks[k..])
            && Agrees(if m < 0 then -1 else k + n, toks, if m < 0 then -1 else k + 1)
  {
    SpacesText(toks);
    hide Spaces, SpaceRun, Text;
    if m > 0 { GoesOn(n, toks, Spaces(toks), 1); }
  }

  lemma AnyValueAgrees(fold: bool, toks: seq<Token>)
    requires Clean(toks)
    ensures Agrees(TailMatch(AnyValue, fold, Text(toks)), toks, TokenTail(AnyValue, fold, toks))
  {
    hide QuotedValue, SpaceRun, Spaces, Text, Clean;
    var rest := toks[Spaces(toks)..];
    CleanRest(toks, Spaces(toks));
    ValueAgrees(rest);
    SpacesShift(toks, QuotedValue(Text(rest)), if rest != [] && rest[0].Quoted? then 1 else -1);
  }

  lemma GivenValueAgrees(v: string, fold: bool, toks: seq<Token>)
    requires Clean(toks) && QuoteFree(v)
    ensures Agrees(TailMatch(Value(v), fold, Text(toks)), toks, TokenTail(Value(v), fold, toks))
  {
    hide QuotedAt, SpaceRun, Spaces, QuotedToken, Text, Clean;
    var k := Spaces(toks);
    var rest := toks[k..];
    CleanRest(toks, k);
    QuotedAgrees(v, fold, rest);
    QuotedIff(v, fold, rest);
    QuotedShift(toks, k, v, fold);
    SpacesShift(toks, if QuotedAt(v, fold, Text(rest)) then |v| + 2 else -1,
                if QuotedToken(rest, 0, v, fold) then 1 else -1);
  }

  lemma ExactlyAgrees(sep: string, v: string, fold: bool, toks: seq<Token>)
    requires Clean(toks) && CleanTail(Exactly(sep, v))
    ensures Agrees(TailMatch(Exactly(sep, v), fold, Text(toks)), toks, TokenTail(Exactly(sep, v), fold, toks))
  {
    hide QuotedAt, QuotedToken, Clean;
    SeparatorIff(sep, toks);
    if sep <= Text(toks) {
      CleanRest(toks, |sep|);
      QuotedAgrees(v, fold, toks[|sep|..]);
      QuotedShift(toks, |sep|, v, fold);
      if QuotedToken(toks, |sep|, v, fold) { GoesOn(|v| + 2, toks, |sep|, 1); }
    }
  }

  lemma TailAgrees(tail: Tail, fold: bool, toks: seq<Token>)
    requires Clean(toks) && CleanTail(tail)
    ensures Agrees(TailMatch(tail, fold, Text(toks)), toks, TokenTail(tail, fold, toks))
  {
    match tail
    case Nothing => assert toks[..0] == [];
    case AnyValue => AnyValueAgrees(fold, toks);
    case Value(v) => GivenValueAgrees(v, fold, toks);
    case Exactly(sep, v) => ExactlyAgrees(sep, v, fold, toks);
  }

  lemma CleanRest(toks: seq<Token>, k: nat)
    requires Clean(toks) && k <= |toks|
    ensures Clean(toks[k..])
  {
  }

  lemma QuotedShift(toks: seq<Token>, k: nat, w: string, fold: bool)
    requires k <= |toks|
    ensures QuotedToken(toks, k, w, fold) <==> QuotedToken(toks[k..], 0, w, fold)
  {
  }

  lemma SeparatorIff(sep: string, toks: seq<Token>)
    requires Clean(toks) && forall i :: 0 <= i < |sep| ==> IsSpace(sep[i])
    ensures sep <= Text(toks) <==> Plains(sep) <= toks
    ensures sep <= Text(toks) ==> Text(toks[..|sep|]) == sep && Text(toks)[|sep|..] == Text(toks[|sep|..])
  {
    if Plains(sep) <= toks {
      assert toks[..|sep|] == Plains(sep);
      TextSplit(toks, |sep|);
      PlainsText(sep);
    } else if sep <= Text(toks) {
      SeparatorBack(sep, toks);
    }
  }

  lemma {:induction false} SeparatorBack(sep: string, toks: seq<Token>)
    requires Clean(toks) && forall i :: 0 <= i < |sep| ==> IsSpace(sep[i])
    requires sep <= Text(toks)
    ensures Plains(sep) <= toks
  {
    if sep != "" {
      assert toks[0] == Plain(sep[0]) && Text(toks)[1..] == Text(toks[1..]);
      PrefixCons(sep[0], sep[1..], Text(toks));
      assert sep == [sep[0]] + sep[1..];
      SeparatorBack(sep[1..], toks[1..]);
      assert Plains(sep) == [Plain(sep[0])] + Plains(sep[1..]);
      PrefixCons(Plain(sep[0]), Plains(sep[1..]), toks);
    }
  }

  lemma PrefixCons<T>(x: T, a: seq<T>, s: seq<T>)
    ensures [x] + a <= s <==> s != [] && s[0] == x && a <= s[1..]
  {
    if s != [] { assert s == [s[0]] + s[1..]; }
  }

  /** The regular expressions see the tokens. */
  lemma MatchIsTokenMatch(p: Pattern, toks: seq<Token>)
    requires Clean(toks) && CleanPattern(p)
    ensures Agrees(Match(p, Text(toks)), toks, TokenMatch(p, toks))
  {
    hide QuotedAt, TailMatch, TokenTail, Clean;
    QuotedAgrees(p.key, p.fold, toks);
    QuotedIff(p.key, p.fold, toks);
    if QuotedToken(toks, 0, p.key, p.fold) {
      CleanRest(toks, 1);
      TailAgrees(p.tail, p.fold, toks[1..]);
      TextSplit(toks, 1);
      if TokenTail(p.tail, p.fold, toks[1..]) >= 0 {
        GoesOn(TailMatch(p.tail, p.fold, Text(toks[1..])), toks, 1, TokenTail(p.tail, p.fold, toks[1..]));
      }
    }
  }

  // ---- Searching and replacing token by token -------------------------------------------------

  /** No match starts within `x` when `y` follows. */
  ghost predicate NoMatchIn(p: Pattern, x: string, y: string) {
    forall i :: 0 <= i < |x| ==> Match(p, (x + y)[i..]) < 0
  }

  lemma OneCharacter(p: Pattern, s: string, sub: string)
    requires s != "" && Match(p, s) < 0
    ensures Search(p, s) == if Search(p, s[1..]) < 0 then -1 else 1 + Search(p, s[1..])
    ensures ReplaceAll(p, s, sub) == [s[0]] + ReplaceAll(p, s[1..], sub)
  {
    hide Match;
  }

  lemma NoMatchRest(p: Pattern, x: string, y: string)
    requires x != "" && NoMatchIn(p, x, y)
    ensures Match(p, x + y) < 0 && NoMatchIn(p, x[1..], y)
  {
    hide Match;
    assert (x + y)[0..] == x + y;
    forall i | 0 <= i < |x| - 1
      ensures Match(p, (x[1..] + y)[i..]) < 0
    {
      assert (x[1..] + y)[i..] == (x + y)[i + 1..];
    }
  }

  lemma {:induction false} SkipText(p: Pattern, x: string, y: string, sub: string)
    requires NoMatchIn(p, x, y)
    ensures Search(p, x + y) == if Search(p, y) < 0 then -1 else |x| + Search(p, y)
    ensures ReplaceAll(p, x + y, sub) == x + ReplaceAll(p, y, sub)
  {
    hide *;
    if x == "" {
      assert x + y == y;
    } else {
      NoMatchRest(p, x, y);
      OneCharacter(p, x + y, sub);
      assert (x + y)[1..] == x[1..] + y && (x + y)[0] == x[0];
      SkipText(p, x[1..], y, sub);
      assert [x[0]] + (x[1..] + ReplaceAll(p, y, sub)) == x + ReplaceAll(p, y, sub);
    }
  }

  /** Nothing matches away from an opening quote, in particular not at a closing quote: what
      follows it is white space, a brace or another quote, but no letter. */
  lemma NoMatchInside(p: Pattern, b: string, y: string, i: nat)
    requires CleanPattern(p) && QuoteFree(b) && 1 <= i <= |b| + 1
    requires y == "" || !IsLetter(y[0])
    ensures Match(p, ([Q] + b + [Q] + y)[i..]) < 0
  {
    var s := [Q] + b + [Q] + y;
    var t := s[i..];
    if i <= |b| {
      assert t[0] == b[i - 1];
    } else {
      assert t == [Q] + y;
      if |t| >= |p.key| + 2 {
        assert t[1..|p.key| + 1][0] == y[0];
        assert !SameChar(y[0], p.key[0], p.fold);
      }
    }
  }

  lemma TextStart(toks: seq<Token>)
    requires Clean(toks)
    ensures Text(toks) == "" || !IsLetter(Text(toks)[0])
  {
  }

  lemma TokenMiss(p: Pattern, toks: seq<Token>)
    requires CleanPattern(p) && Clean(toks) && toks != [] && TokenMatch(p, toks) < 0
    ensures NoMatchIn(p, TokenText(toks[0]), Text(toks[1..]))
  {
    var (x, y) := (TokenText(toks[0]), Text(toks[1..]));
    assert Text(toks) == x + y;
    MatchIsTokenMatch(p, toks);
    TextStart(toks[1..]);
    hide Match, TokenMatch, Text;
    forall i | 0 <= i < |x|
      ensures Match(p, (x + y)[i..]) < 0
    {
      if i == 0 {
        assert (x + y)[0..] == Text(toks);
      } else {
        NoMatchInside(p, toks[0].body, y, i);
      }
    }
  }

  /** Index of the first token a match starts at, or -1. */
  function TokenSearch(p: Pattern, toks: seq<Token>): (k: int)
    ensures k == -1 || 0 <= k < |toks|
  {
    if TokenMatch(p, toks) >= 0 then 0
    else if toks == [] then -1
    else var k := TokenSearch(p, toks[1..]); if k < 0 then -1 else k + 1
  }

  function TokenReplaceAll(p: Pattern, toks: seq<Token>, sub: seq<Token>): seq<Token>
    decreases |toks|
  {
    if toks == [] then []
    else if TokenMatch(p, toks) >= 0 then sub + TokenReplaceAll(p, toks[TokenMatch(p, toks)..], sub)
    else [toks[0]] + TokenReplaceAll(p, toks[1..], sub)
  }

  /** The search finds the text position of the first matching token. */
  lemma {:induction false} SearchIsTokenSearch(p: Pattern, toks: seq<Token>)
    requires CleanPattern(p) && Clean(toks)
    ensures var k := TokenSearch(p, toks);
            Search(p, Text(toks)) == if k < 0 then -1 else |Text(toks[..k])|
  {
    MatchIsTokenMatch(p, toks);
    hide Match, TokenMatch;
    if TokenMatch(p, toks) >= 0 {
      assert toks[..0] == [];
    } else if toks != [] {
      TokenMiss(p, toks);
      CleanRest(toks, 1);
      SearchIsTokenSearch(p, toks[1..]);
      SkipText(p, TokenText(toks[0]), Text(toks[1..]), "");
      var k := TokenSearch(p, toks[1..]);
      if k >= 0 { assert toks[..k + 1][1..] == toks[1..][..k]; }
    }
  }

  lemma {:induction false} ReplaceIsTokenReplace(p: Pattern, toks: seq<Token>, sub: seq<Token>)
    requires CleanPattern(p) && Clean(toks)
    ensures ReplaceAll(p, Text(toks), Text(sub)) == Text(TokenReplaceAll(p, toks, sub))
    decreases |toks|
  {
    MatchIsTokenMatch(p, toks);
    hide Match, TokenMatch;
    if toks != [] {
      var n := TokenMatch(p, toks);
      if n >= 0 {
        TextSplit(toks, n);
        CleanRest(toks, n);
        ReplaceIsTokenReplace(p, toks[n..], sub);
        assert Text(toks)[|Text(toks[..n])|..] == Text(toks[n..]);
        TextConcat(sub, TokenReplaceAll(p, toks[n..], sub));
      } else {
        TokenMiss(p, toks);
        CleanRest(toks, 1);
        ReplaceIsTokenReplace(p, toks[1..], sub);
        SkipText(p, TokenText(toks[0]), Text(toks[1..]), Text(sub));
      }
    }
  }

  // ---- The case of what is searched for ---------------------------------------------------------

  lemma SameVariants(w: string, a: string, b: string)
    requires CaseVariant(a, b)
    ensures Same(w, a, true) <==> Same(w, b, true)
  {
    SameIff(a, b);
  }

  /** A folding pattern matches the same texts in whatever case its value is spelled. */
  lemma MatchVariants(key: string, a: string, b: string, s: string)
    requires CaseVariant(a, b)
    ensures Match(Pattern(key, true, Value(a)), s) == Match(Pattern(key, true, Value(b)), s)
  {
    if QuotedAt(key, true, s) {
      var rest := s[|key| + 2..];
      var t := rest[SpaceRun(rest)..];
      if |t| >= |a| + 2 { SameVariants(t[1..|a| + 1], a, b); }
    }
    hide SpaceRun, Same;
  }

  lemma {:induction false} SearchVariants(key: string, a: string, b: string, s: string)
    requires CaseVariant(a, b)
    ensures Search(Pattern(key, true, Value(a)), s) == Search(Pattern(key, true, Value(b)), s)
  {
    MatchVariants(key, a, b, s);
    hide Match, CaseVariant;
    if s != "" { SearchVariants(key, a, b, s[1..]); }
  }
}
