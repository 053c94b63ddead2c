/** The repair of the Steam users file: text editing with regular expressions, against an update
    of the records the text stands for. */
module LoginUsers {
  import opened VdfText

  const ACCOUNT: string := "AccountName"
  const RECENT: string := "MostRecent"
  const REMEMBER: string := "RememberPassword"
  const OFFLINE: string := "WantsOfflineMode"

  /** An entry that marks a user as the most recent one, spelled as the repair looks for it. */
  const MARKED_TABS: Pattern := Pattern(RECENT, false, Exactly("\t\t", "1"))
  const MARKED_SPACE: Pattern := Pattern(RECENT, false, Exactly(" ", "1"))
  const UNMARKED: Pattern := Pattern(RECENT, false, Value("0"))

  // ---- The text editing -----------------------------------------------------------------------

  /** `"key"\t\t"value"` */
  function FieldText(key: string, value: string): string {
    [Q] + key + [Q] + "\t\t" + [Q] + value + [Q]
  }

  /** Set a field of a block: all its occurrences if it has any, otherwise, if asked for, a new
      one before the closing brace. */
  function SetField(block: string, key: string, value: string, insert: bool): string {
    if Search(Pattern(key, false, Nothing), block) >= 0 then
      ReplaceAll(Pattern(key, false, AnyValue), block, FieldText(key, value))
    else if insert && block != "" then
      block[..|block| - 1] + "\t\t" + FieldText(key, value) + "\n\t" + block[|block| - 1..]
    else block
  }

  function RepairBlock(block: string): string {
    SetField(SetField(SetField(block, RECENT, "1", true), REMEMBER, "1", true), OFFLINE, "0", false)
  }

  /** `rfind(c, from)`: the last place at or before `from`, or -1. */
  function LastIndex(s: string, c: char, from: int): (i: int)
    requires -1 <= from < |s|
    ensures -1 <= i <= from && (i >= 0 ==> s[i] == c)
    decreases from + 1
  {
    if from == -1 || s[from] == c then from else LastIndex(s, c, from - 1)
  }

  lemma {:induction false} LastIndexIs(s: string, c: char, from: int)
    requires -1 <= from < |s|
    ensures forall j :: LastIndex(s, c, from) < j <= from ==> s[j] != c
    decreases from + 1
  {
    if from != -1 && s[from] != c { LastIndexIs(s, c, from - 1); }
  }

  /** `find(c, from)`, or -1. */
  function FirstIndex(s: string, c: char, from: nat): (i: int)
    requires from <= |s|
    ensures i == -1 || (from <= i < |s| && s[i] == c)
    decreases |s| - from
  {
    if from == |s| then -1 else if s[from] == c then from else FirstIndex(s, c, from + 1)
  }

  lemma {:induction false} FirstIndexIs(s: string, c: char, from: nat)
    requires from <= |s|
    ensures var i := FirstIndex(s, c, from);
            forall j :: from <= j < (if i < 0 then |s| else i) ==> s[j] != c
    decreases |s| - from
  {
    if from != |s| && s[from] != c { FirstIndexIs(s, c, from + 1); }
  }

  function AccountPattern(user: string): Pattern { Pattern(ACCOUNT, true, Value(user)) }

  /** `replace` of the part from `start` to `end`. */
  function Spliced(s: string, start: nat, end: nat, part: string): string
    requires start <= end < |s|
  {
    s[..start] + part + s[end + 1..]
  }

  /** The block between the braces around position `at`, repaired in place. */
  function RepairAround(content: string, at: nat): string
    requires at < |content|
  {
    var start, end := LastIndex(content, '{', at), FirstIndex(content, '}', at);
    if start >= 0 && end > start
    then Spliced(content, start, end, RepairBlock(content[start..end + 1]))
    else content
  }

  /** With a known auto-login user. */
  function RepairNamed(content: string, user: string): string {
    var at := Search(AccountPattern(user), content);
    if at < 0 then content else RepairAround(content, at)
  }

  /** Without one: if no user is marked, mark the first that is marked "0". */
  function RepairUnnamed(content: string): string {
    if Search(MARKED_TABS, content) < 0 && Search(MARKED_SPACE, content) < 0
    then ReplaceFirst(UNMARKED, content, FieldText(RECENT, "1"))
    else content
  }

  function RepairText(content: string, user: string): string {
    if user != "" then RepairNamed(content, user) else RepairUnnamed(content)
  }

  // ---- The records ------------------------------------------------------------------------------

  /** `lead "key" sep "value"` */
  datatype Entry = Entry(lead: string, key: string, sep: string, value: string)

  /** `lead "id" sep { entries tail }` */
  datatype User = User(lead: string, id: string, sep: string, entries: seq<Entry>, tail: string)

  datatype File = File(head: seq<Token>, users: seq<User>, foot: seq<Token>)

  /** Key, separator and value of an entry. */
  function PairTokens(e: Entry): seq<Token> { [Quoted(e.key)] + Plains(e.sep) + [Quoted(e.value)] }

  function EntryTokens(e: Entry): seq<Token> { Plains(e.lead) + PairTokens(e) }

  function EntriesTokens(es: seq<Entry>): seq<Token> {
    if es == [] then [] else EntryTokens(es[0]) + EntriesTokens(es[1..])
  }

  function IntroTokens(u: User): seq<Token> { Plains(u.lead) + [Quoted(u.id)] + Plains(u.sep) }

  function BlockTokens(u: User): seq<Token> {
    [Plain('{')] + EntriesTokens(u.entries) + Plains(u.tail) + [Plain('}')]
  }

  function UserTokens(u: User): seq<Token> { IntroTokens(u) + BlockTokens(u) }

  function UsersTokens(us: seq<User>): seq<Token> {
    if us == [] then [] else UserTokens(us[0]) + UsersTokens(us[1..])
  }

  function FileTokens(f: File): seq<Token> { f.head + UsersTokens(f.users) + f.foot }

  function FileText(f: File): string { Text(FileTokens(f)) }

  /** The words the repair searches for. */
  predicate Special(w: string) {
    Same(w, ACCOUNT, true) || w == RECENT || w == REMEMBER || w == OFFLINE
  }

  predicate AllSpace(s: string) { forall i :: 0 <= i < |s| ==> IsSpace(s[i]) }

  predicate GoodEntry(e: Entry) {
    AllSpace(e.lead) && AllSpace(e.sep) && QuoteFree(e.key) && QuoteFree(e.value) && !Special(e.value)
  }

  predicate GoodUser(u: User) {
    && AllSpace(u.lead) && AllSpace(u.sep) && AllSpace(u.tail)
    && QuoteFree(u.id) && !Special(u.id)
    && forall i :: 0 <= i < |u.entries| ==> GoodEntry(u.entries[i])
  }

  /** No quoted word of `toks` is one the repair searches for. */
  predicate Plainspoken(toks: seq<Token>) {
    forall i :: 0 <= i < |toks| && toks[i].Quoted? ==> !Special(toks[i].body)
  }

  /** Flat user blocks, no quotes in values, no value spelled like a searched key. */
  predicate WellFormed(f: File) {
    && Clean(f.head) && Plainspoken(f.head) && Clean(f.foot) && Plainspoken(f.foot)
    && forall i :: 0 <= i < |f.users| ==> GoodUser(f.users[i])
  }

  // ---- The record update ------------------------------------------------------------------------

  predicate HasKey(es: seq<Entry>, key: string) {
    exists i :: 0 <= i < |es| && es[i].key == key
  }

  function SetAll(es: seq<Entry>, key: string, value: string): (r: seq<Entry>)
    ensures |r| == |es|
    ensures forall i :: 0 <= i < |es| ==>
      r[i] == if es[i].key == key then es[i].(sep := "\t\t", value := value) else es[i]
  {
    seq(|es|, i requires 0 <= i < |es| =>
          if es[i].key == key then es[i].(sep := "\t\t", value := value) else es[i])
  }

  /** `u` with one more field before the closing brace. */
  function Inserted(u: User, key: string, value: string): User {
    u.(entries := u.entries + [Entry(u.tail + "\t\t", key, "\t\t", value)], tail := "\n\t")
  }

  function SetUser(u: User, key: string, value: string, insert: bool): User {
    if HasKey(u.entries, key) then u.(entries := SetAll(u.entries, key, value))
    else if insert then Inserted(u, key, value)
    else u
  }

  function RepairUser(u: User): User {
    SetUser(SetUser(SetUser(u, RECENT, "1", true), REMEMBER, "1", true), OFFLINE, "0", false)
  }

  /** The entry a pattern matches. */
  predicate Matches(p: Pattern, e: Entry) {
    && Same(e.key, p.key, p.fold)
    && match p.tail
       case Nothing => true
       case AnyValue => true
       case Value(v) => Same(e.value, v, p.fold)
       case Exactly(sep, v) => e.sep == sep && Same(e.value, v, p.fold)
  }

  /** First entry a pattern matches; the length if there is none. */
  function FirstEntry(p: Pattern, es: seq<Entry>): (j: nat)
    ensures j <= |es| && (j < |es| ==> Matches(p, es[j]))
    ensures forall i :: 0 <= i < j ==> !Matches(p, es[i])
  {
    if es == [] || Matches(p, es[0]) then 0 else 1 + FirstEntry(p, es[1..])
  }

  /** First user with such an entry. */
  function FirstUser(p: Pattern, us: seq<User>): (k: nat)
    ensures k <= |us| && (k < |us| ==> FirstEntry(p, us[k].entries) < |us[k].entries|)
    ensures forall i :: 0 <= i < k ==> FirstEntry(p, us[i].entries) == |us[i].entries|
  {
    if us == [] || FirstEntry(p, us[0].entries) < |us[0].entries| then 0 else 1 + FirstUser(p, us[1..])
  }

  /** The repair of the records: the first user with the given account name. */
  function RepairFile(f: File, user: string): File {
    var k := FirstUser(AccountPattern(user), f.users);
    if k < |f.users| then f.(users := f.users[k := RepairUser(f.users[k])]) else f
  }

  /** Entry `j` of `u` set to "1". */
  function MarkUser(u: User, j: nat): User
    requires j < |u.entries|
  {
    u.(entries := u.entries[j := u.entries[j].(sep := "\t\t", value := "1")])
  }

  /** The repair of the records when no user is known: if nobody is marked, the first entry that
      says "0" is. */
  function MarkFile(f: File): File {
    if FirstUser(MARKED_TABS, f.users) < |f.users| || FirstUser(MARKED_SPACE, f.users) < |f.users| then f
    else
      var k := FirstUser(UNMARKED, f.users);
      if k < |f.users|
      then f.(users := f.users[k := MarkUser(f.users[k], FirstEntry(UNMARKED, f.users[k].entries))])
      else f
  }

  function Repaired(f: File, user: string): File {
    if user != "" then RepairFile(f, user) else MarkFile(f)
  }

  // ---- Tokens of the records --------------------------------------------------------------------

  /** No quoted word of `toks` is the key of `p`. */
  ghost predicate NoKey(p: Pattern, toks: seq<Token>) {
    forall i :: 0 <= i < |toks| && toks[i].Quoted? ==> !Same(toks[i].body, p.key, p.fold)
  }

  lemma NoKeyConcat(p: Pattern, a: seq<Token>, b: seq<Token>)
    ensures NoKey(p, a + b) <==> NoKey(p, a) && NoKey(p, b)
  {
    hide Same;
    if NoKey(p, a + b) {
      assert forall i :: 0 <= i < |a| ==> a[i] == (a + b)[i];
      assert forall i :: 0 <= i < |b| ==> b[i] == (a + b)[|a| + i];
    }
  }

  /** The patterns of the repair: their keys are special words. */
  predicate Ours(p: Pattern) {
    CleanPattern(p) && (if p.fold then p.key == ACCOUNT else p.key == RECENT || p.key == REMEMBER || p.key == OFFLINE)
  }

  lemma NotSpecial(p: Pattern, w: string)
    requires Ours(p) && !Special(w)
    ensures !Same(w, p.key, p.fold)
  {
    SameIff(w, p.key);
  }

  /** `shift` further on, if found at all. */
  function Shifted(shift: nat, k: int): int { if k < 0 then -1 else shift + k }

  /** One token without a match. */
  lemma StepOver(p: Pattern, t: Token, y: seq<Token>, sub: seq<Token>)
    requires TokenMatch(p, [t] + y) < 0
    ensures TokenSearch(p, [t] + y) == Shifted(1, TokenSearch(p, y))
    ensures TokenReplaceAll(p, [t] + y, sub) == [t] + TokenReplaceAll(p, y, sub)
  {
    hide TokenMatch;
    assert ([t] + y)[1..] == y;
  }

  lemma NoKeyFirst(p: Pattern, x: seq<Token>, y: seq<Token>)
    requires x != [] && NoKey(p, x)
    ensures TokenMatch(p, x + y) < 0 && NoKey(p, x[1..])
  {
    assert (x + y)[0] == x[0];
    assert forall i :: 0 <= i < |x| - 1 ==> x[1..][i] == x[i + 1];
    hide Same, TokenTail;
  }

  /** Tokens without the key are skipped, in searching and in replacing. */
  lemma {:induction false} SkipTokens(p: Pattern, x: seq<Token>, y: seq<Token>, sub: seq<Token>)
    requires NoKey(p, x)
    ensures TokenSearch(p, x + y) == Shifted(|x|, TokenSearch(p, y))
    ensures TokenReplaceAll(p, x + y, sub) == x + TokenReplaceAll(p, y, sub)
    decreases |x|
  {
    hide TokenSearch, TokenReplaceAll, TokenMatch, NoKey;
    if x == [] {
      assert x + y == y;
    } else {
      NoKeyFirst(p, x, y);
      assert x + y == [x[0]] + (x[1..] + y);
      StepOver(p, x[0], x[1..] + y, sub);
      SkipTokens(p, x[1..], y, sub);
    }
  }

  lemma {:induction false} SpacesAfter(s: string, y: seq<Token>)
    requires AllSpace(s) && (y == [] || y[0].Quoted?)
    ensures Spaces(Plains(s) + y) == |s|
  {
    if s == "" {
      assert Plains(s) + y == y;
    } else {
      SpacesAfter(s[1..], y);
      assert (Plains(s) + y)[1..] == Plains(s[1..]) + y;
    }
  }

  lemma PlainsNoKey(p: Pattern, s: string)
    ensures NoKey(p, Plains(s))
  {
  }

  /** At the key of an entry a pattern matches exactly if it matches the entry; then it covers
      the whole pair, or just the key if it asks for no more. */
  lemma PairMatch(p: Pattern, e: Entry, y: seq<Token>)
    requires Ours(p) && GoodEntry(e)
    ensures TokenMatch(p, PairTokens(e) + y) ==
      if !Matches(p, e) then -1 else if p.tail.Nothing? then 1 else |PairTokens(e)|
  {
    var toks := PairTokens(e) + y;
    var after := [Quoted(e.value)] + y;
    assert toks[1..] == Plains(e.sep) + after;
    SpacesAfter(e.sep, after);
    match p.tail
    case Exactly(sep, v) => SeparatorFits(e.sep, sep, e.value, y);
    case _ =>
  }

  lemma SeparatorFits(have: string, want: string, value: string, y: seq<Token>)
    requires AllSpace(have)
    ensures var toks := Plains(have) + ([Quoted(value)] + y);
            (Plains(want) <= toks && |want| < |toks| && toks[|want|].Quoted?)
            <==> have == want
  {
    var toks := Plains(have) + ([Quoted(value)] + y);
    assert toks[|have|] == Quoted(value);
    if |want| < |have| {
      assert toks[|want|] == Plain(have[|want|]);
    } else if |want| > |have| {
      assert Plains(want)[|have|].Plain?;
    } else {
      assert Plains(have) <= toks;
      if Plains(want) <= toks {
        forall i | 0 <= i < |have| ensures have[i] == want[i] {
          assert Plains(want)[i] == toks[i] == Plains(have)[i];
        }
      }
    }
  }

  /** Separator and value cannot match. */
  lemma ValueStep(p: Pattern, e: Entry, y: seq<Token>, sub: seq<Token>)
    requires Ours(p) && GoodEntry(e)
    ensures var rest := Plains(e.sep) + [Quoted(e.value)];
            && TokenSearch(p, rest + y) == Shifted(|rest|, TokenSearch(p, y))
            && TokenReplaceAll(p, rest + y, sub) == rest + TokenReplaceAll(p, y, sub)
  {
    NotSpecial(p, e.value);
    PlainsNoKey(p, e.sep);
    NoKeyConcat(p, Plains(e.sep), [Quoted(e.value)]);
    SkipTokens(p, Plains(e.sep) + [Quoted(e.value)], y, sub);
  }

  lemma PairStep(p: Pattern, e: Entry, y: seq<Token>, sub: seq<Token>)
    requires Ours(p) && GoodEntry(e) && !p.tail.Nothing?
    ensures TokenSearch(p, PairTokens(e) + y) ==
      if Matches(p, e) then 0 else Shifted(|PairTokens(e)|, TokenSearch(p, y))
    ensures TokenReplaceAll(p, PairTokens(e) + y, sub) ==
      (if Matches(p, e) then sub else PairTokens(e)) + TokenReplaceAll(p, y, sub)
  {
    hide TokenMatch, Same, Ours, GoodEntry, Matches;
    PairMatch(p, e, y);
    if Matches(p, e) {
      assert (PairTokens(e) + y)[|PairTokens(e)|..] == y;
    } else {
      var rest := Plains(e.sep) + [Quoted(e.value)];
      assert PairTokens(e) + y == [Quoted(e.key)] + (rest + y);
      assert PairTokens(e) == [Quoted(e.key)] + rest;
      hide TokenSearch, TokenReplaceAll;
      ValueStep(p, e, y, sub);
      StepOver(p, Quoted(e.key), rest + y, sub);
    }
  }

  lemma EntryStep(p: Pattern, e: Entry, y: seq<Token>, sub: seq<Token>)
    requires Ours(p) && GoodEntry(e) && !p.tail.Nothing?
    ensures TokenSearch(p, EntryTokens(e) + y) ==
      if Matches(p, e) then |e.lead| else Shifted(|EntryTokens(e)|, TokenSearch(p, y))
    ensures TokenReplaceAll(p, EntryTokens(e) + y, sub) ==
      (if Matches(p, e) then Plains(e.lead) + sub else EntryTokens(e)) + TokenReplaceAll(p, y, sub)
  {
    hide TokenSearch, TokenReplaceAll, Same, Ours, GoodEntry, Matches, PairTokens;
    assert EntryTokens(e) + y == Plains(e.lead) + (PairTokens(e) + y);
    PlainsNoKey(p, e.lead);
    SkipTokens(p, Plains(e.lead), PairTokens(e) + y, sub);
    PairStep(p, e, y, sub);
  }

  ghost predicate GoodEntries(es: seq<Entry>) {
    forall i :: 0 <= i < |es| ==> GoodEntry(es[i])
  }

  /** Searching finds the first entry that matches. */
  lemma {:induction false} EntriesSearch(p: Pattern, es: seq<Entry>, y: seq<Token>)
    requires Ours(p) && GoodEntries(es) && !p.tail.Nothing?
    ensures var j := FirstEntry(p, es);
            TokenSearch(p, EntriesTokens(es) + y) ==
              if j < |es| then |EntriesTokens(es[..j])| + |es[j].lead|
              else Shifted(|EntriesTokens(es)|, TokenSearch(p, y))
  {
    hide TokenSearch, Matches, Ours, GoodEntry, EntryTokens;
    if es == [] {
      assert EntriesTokens(es) + y == y;
    } else {
      EntriesSearch(p, es[1..], y);
      EntryStep(p, es[0], EntriesTokens(es[1..]) + y, []);
      assert EntriesTokens(es) + y == EntryTokens(es[0]) + (EntriesTokens(es[1..]) + y);
      var j := FirstEntry(p, es);
      if Matches(p, es[0]) {
        assert es[..0] == [];
      } else if j < |es| {
        assert es[..j][1..] == es[1..][..j - 1];
      }
    }
  }

  /** Replacing every `"key" "..."` sets the field in every entry that has it. */
  lemma {:induction false} EntriesReplace(key: string, value: string, es: seq<Entry>, y: seq<Token>)
    requires Ours(Pattern(key, false, AnyValue)) && GoodEntries(es)
    ensures var p := Pattern(key, false, AnyValue);
            var sub := PairTokens(Entry("", key, "\t\t", value));
            TokenReplaceAll(p, EntriesTokens(es) + y, sub)
            == EntriesTokens(SetAll(es, key, value)) + TokenReplaceAll(p, y, sub)
  {
    hide TokenReplaceAll, Ours, GoodEntry, PairTokens, EntryTokens, SetAll;
    if es == [] {
      assert EntriesTokens(es) + y == y;
      assert SetAll(es, key, value) == [];
      assert EntriesTokens(SetAll(es, key, value)) == [];
    } else {
      EntriesReplace(key, value, es[1..], y);
      ReplaceHead(key, value, es[0], EntriesTokens(es[1..]) + y);
      SetHead(es, key, value);
      assert EntriesTokens(es) + y == EntryTokens(es[0]) + (EntriesTokens(es[1..]) + y);
    }
  }

  lemma ReplaceHead(key: string, value: string, e: Entry, y: seq<Token>)
    requires Ours(Pattern(key, false, AnyValue)) && GoodEntry(e)
    ensures var p := Pattern(key, false, AnyValue);
            var sub := PairTokens(Entry("", key, "\t\t", value));
            TokenReplaceAll(p, EntryTokens(e) + y, sub)
            == (if e.key == key then Plains(e.lead) + sub else EntryTokens(e)) + TokenReplaceAll(p, y, sub)
  {
    SameIff(e.key, key);
    hide TokenReplaceAll, Ours, GoodEntry, PairTokens, EntryTokens, Same;
    EntryStep(Pattern(key, false, AnyValue), e, y, PairTokens(Entry("", key, "\t\t", value)));
  }

  lemma SetHead(es: seq<Entry>, key: string, value: string)
    requires es != []
    ensures EntriesTokens(SetAll(es, key, value)) ==
      (if es[0].key == key then Plains(es[0].lead) + PairTokens(Entry("", key, "\t\t", value))
       else EntryTokens(es[0])) + EntriesTokens(SetAll(es[1..], key, value))
  {
    assert SetAll(es, key, value)[1..] == SetAll(es[1..], key, value);
  }

  // ---- One block --------------------------------------------------------------------------------

  lemma {:induction false} EntriesConcat(a: seq<Entry>, b: seq<Entry>)
    ensures EntriesTokens(a + b) == EntriesTokens(a) + EntriesTokens(b)
  {
    if a == [] {
      assert a + b == b;
    } else {
      assert (a + b)[1..] == a[1..] + b;
      EntriesConcat(a[1..], b);
    }
  }

  lemma {:induction false} EntriesNoKeyIff(key: string, es: seq<Entry>)
    requires Ours(Pattern(key, false, Nothing)) && GoodEntries(es)
    ensures NoKey(Pattern(key, false, Nothing), EntriesTokens(es)) <==> !HasKey(es, key)
  {
    var p := Pattern(key, false, Nothing);
    if es != [] {
      EntriesNoKeyIff(key, es[1..]);
      EntryNoKeyIff(key, es[0]);
      hide NoKey, Ours, GoodEntry, EntryTokens;
      NoKeyConcat(p, EntryTokens(es[0]), EntriesTokens(es[1..]));
      assert forall i :: 1 <= i < |es| ==> es[i] == es[1..][i - 1];
      assert forall i :: 0 <= i < |es| - 1 ==> es[1..][i] == es[i + 1];
    }
  }

  lemma EntryNoKeyIff(key: string, e: Entry)
    requires Ours(Pattern(key, false, Nothing)) && GoodEntry(e)
    ensures NoKey(Pattern(key, false, Nothing), EntryTokens(e)) <==> e.key != key
  {
    var p := Pattern(key, false, Nothing);
    NotSpecial(p, e.value);
    SameIff(e.key, key);
    OneNoKey(p, e.key);
    OneNoKey(p, e.value);
    PlainsNoKey(p, e.lead);
    PlainsNoKey(p, e.sep);
    hide NoKey, Same, Ours, GoodEntry;
    NoKeyConcat(p, Plains(e.lead), PairTokens(e));
    NoKeyConcat(p, [Quoted(e.key)] + Plains(e.sep), [Quoted(e.value)]);
    NoKeyConcat(p, [Quoted(e.key)], Plains(e.sep));
  }

  lemma OneNoKey(p: Pattern, w: string)
    ensures NoKey(p, [Quoted(w)]) <==> !Same(w, p.key, p.fold)
  {
    assert [Quoted(w)][0] == Quoted(w);
  }

  /** Looking for the bare key succeeds if some quoted word is the key. */
  lemma {:induction false} KeySearchIff(key: string, toks: seq<Token>)
    ensures var p := Pattern(key, false, Nothing);
            TokenSearch(p, toks) < 0 <==> NoKey(p, toks)
  {
    var p := Pattern(key, false, Nothing);
    if toks != [] {
      KeySearchIff(key, toks[1..]);
      assert toks == [toks[0]] + toks[1..];
      NoKeyConcat(p, [toks[0]], toks[1..]);
      assert [toks[0]][0] == toks[0];
    }
  }

  /** The fields the repair sets. */
  predicate OurField(key: string, value: string) {
    (key == RECENT || key == REMEMBER || key == OFFLINE) && (value == "0" || value == "1")
  }

  lemma OurKeyIsClean(key: string)
    requires key == RECENT || key == REMEMBER || key == OFFLINE
    ensures key != "" && IsLetter(key[0]) && QuoteFree(key)
  {
  }

  lemma OurValueIsClean(value: string)
    requires value == "0" || value == "1"
    ensures QuoteFree(value) && !Special(value)
  {
  }

  lemma OurFieldIsClean(key: string, value: string, tail: Tail)
    requires OurField(key, value) && CleanTail(tail)
    ensures Ours(Pattern(key, false, tail)) && QuoteFree(key) && QuoteFree(value) && !Special(value)
  {
    hide QuoteFree, Special, IsLetter, CleanTail;
    OurKeyIsClean(key);
    OurValueIsClean(value);
  }

  lemma FieldIsPair(key: string, value: string)
    ensures FieldText(key, value) == Text(PairTokens(Entry("", key, "\t\t", value)))
  {
    TextConcat([Quoted(key)] + Plains("\t\t"), [Quoted(value)]);
    TextConcat([Quoted(key)], Plains("\t\t"));
    PlainsText("\t\t");
    TextOne(Quoted(key));
    TextOne(Quoted(value));
  }

  lemma CleanConcat(a: seq<Token>, b: seq<Token>)
    ensures Clean(a + b) <==> Clean(a) && Clean(b)
  {
    hide CleanToken;
    assert forall i :: 0 <= i < |a| ==> (a + b)[i] == a[i];
    assert forall i :: 0 <= i < |b| ==> (a + b)[|a| + i] == b[i];
  }

  lemma CleanSpace(s: string)
    requires AllSpace(s)
    ensures Clean(Plains(s))
  {
  }

  lemma CleanOne(t: Token)
    ensures Clean([t]) <==> CleanToken(t)
  {
    assert [t][0] == t;
  }

  lemma {:induction false} EntriesClean(es: seq<Entry>)
    requires GoodEntries(es)
    ensures Clean(EntriesTokens(es))
  {
    if es != [] {
      EntriesClean(es[1..]);
      var e := es[0];
      CleanSpace(e.lead);
      CleanSpace(e.sep);
      CleanOne(Quoted(e.key));
      CleanOne(Quoted(e.value));
      hide Clean;
      CleanConcat([Quoted(e.key)], Plains(e.sep));
      CleanConcat([Quoted(e.key)] + Plains(e.sep), [Quoted(e.value)]);
      CleanConcat(Plains(e.lead), PairTokens(e));
      CleanConcat(EntryTokens(e), EntriesTokens(es[1..]));
    }
  }

  lemma BlockClean(u: User)
    requires GoodUser(u)
    ensures Clean(BlockTokens(u))
  {
    EntriesClean(u.entries);
    CleanSpace(u.tail);
    CleanOne(Plain('{'));
    CleanOne(Plain('}'));
    hide Clean;
    CleanConcat([Plain('{')], EntriesTokens(u.entries));
    CleanConcat([Plain('{')] + EntriesTokens(u.entries), Plains(u.tail));
    CleanConcat([Plain('{')] + EntriesTokens(u.entries) + Plains(u.tail), [Plain('}')]);
  }

  lemma BlockNoKeyIff(key: string, u: User)
    requires Ours(Pattern(key, false, Nothing)) && GoodUser(u)
    ensures NoKey(Pattern(key, false, Nothing), BlockTokens(u)) <==> !HasKey(u.entries, key)
  {
    var p := Pattern(key, false, Nothing);
    EntriesNoKeyIff(key, u.entries);
    PlainsNoKey(p, u.tail);
    assert NoKey(p, [Plain('{')]) && NoKey(p, [Plain('}')]);
    hide NoKey, Ours;
    NoKeyConcat(p, [Plain('{')], EntriesTokens(u.entries));
    NoKeyConcat(p, [Plain('{')] + EntriesTokens(u.entries), Plains(u.tail));
    NoKeyConcat(p, [Plain('{')] + EntriesTokens(u.entries) + Plains(u.tail), [Plain('}')]);
  }

  lemma BracesNoKey(p: Pattern)
    ensures NoKey(p, [Plain('{')]) && NoKey(p, [Plain('}')])
  {
  }

  lemma ReplaceNothing(p: Pattern, sub: seq<Token>)
    ensures TokenReplaceAll(p, [], sub) == []
  {
  }

  lemma BlockReplace(key: string, value: string, u: User)
    requires Ours(Pattern(key, false, AnyValue)) && GoodUser(u)
    ensures TokenReplaceAll(Pattern(key, false, AnyValue), BlockTokens(u), PairTokens(Entry("", key, "\t\t", value)))
         == BlockTokens(u.(entries := SetAll(u.entries, key, value)))
  {
    assert GoodEntries(u.entries);
    hide TokenReplaceAll, TokenSearch, Shifted, NoKey, Ours, PairTokens, GoodUser, GoodEntries, EntriesTokens, Plains;
    hide SetAll;
    var p := Pattern(key, false, AnyValue);
    var sub := PairTokens(Entry("", key, "\t\t", value));
    var close := Plains(u.tail) + [Plain('}')];
    BracesNoKey(p);
    PlainsNoKey(p, u.tail);
    NoKeyConcat(p, Plains(u.tail), [Plain('}')]);
    ReplaceNothing(p, sub);
    assert BlockTokens(u) == [Plain('{')] + (EntriesTokens(u.entries) + close);
    SkipTokens(p, [Plain('{')], EntriesTokens(u.entries) + close, sub);
    EntriesReplace(key, value, u.entries, close);
    SkipTokens(p, close, [], sub);
    assert close + [] == close;
  }

  /** A block without its closing brace. */
  function Front(u: User): seq<Token> { [Plain('{')] + EntriesTokens(u.entries) + Plains(u.tail) }

  lemma FrontText(u: User)
    ensures Text(BlockTokens(u)) == Text(Front(u)) + "}"
  {
    TextConcat(Front(u), [Plain('}')]);
    TextOne(Plain('}'));
  }

  lemma FrontInserted(u: User, key: string, value: string)
    ensures Front(Inserted(u, key, value))
         == ((Front(u) + Plains("\t\t")) + PairTokens(Entry("", key, "\t\t", value))) + Plains("\n\t")
  {
    var e := Entry(u.tail + "\t\t", key, "\t\t", value);
    var pair := PairTokens(Entry("", key, "\t\t", value));
    EntriesSnoc(u.entries, e);
    assert PairTokens(e) == pair;
    assert EntryTokens(e) == Plains(u.tail + "\t\t") + pair;
    hide EntriesTokens, EntryTokens, PairTokens;
    PlainsConcat(u.tail, "\t\t");
    hide Plains;
    var open := [Plain('{')] + EntriesTokens(u.entries);
    assert open + (Plains(u.tail) + Plains("\t\t") + pair) == open + Plains(u.tail) + Plains("\t\t") + pair;
  }

  lemma EntriesSnoc(es: seq<Entry>, e: Entry)
    ensures EntriesTokens(es + [e]) == EntriesTokens(es) + EntryTokens(e)
  {
    EntriesConcat(es, [e]);
    assert EntriesTokens([e]) == EntryTokens(e) + EntriesTokens([]);
  }

  lemma PlainsConcat(a: string, b: string)
    ensures Plains(a + b) == Plains(a) + Plains(b)
  {
  }

  lemma InsertedText(u: User, key: string, value: string)
    ensures Text(BlockTokens(Inserted(u, key, value)))
         == Text(Front(u)) + "\t\t" + FieldText(key, value) + "\n\t" + "}"
  {
    var pair := PairTokens(Entry("", key, "\t\t", value));
    FrontText(Inserted(u, key, value));
    FrontInserted(u, key, value);
    FieldIsPair(key, value);
    PlainsText("\t\t");
    PlainsText("\n\t");
    hide Text, FieldText, Front, PairTokens, Inserted, BlockTokens;
    TextConcat(Front(u), Plains("\t\t"));
    TextConcat(Front(u) + Plains("\t\t"), pair);
    TextConcat((Front(u) + Plains("\t\t")) + pair, Plains("\n\t"));
  }

  lemma FieldFound(u: User, key: string, value: string)
    requires GoodUser(u) && OurField(key, value)
    ensures Search(Pattern(key, false, Nothing), Text(BlockTokens(u))) >= 0 <==> HasKey(u.entries, key)
  {
    OurFieldIsClean(key, value, Nothing);
    hide QuoteFree, Search, BlockTokens, Text, Clean, NoKey, GoodUser, HasKey, OurField, Special;
    BlockClean(u);
    SearchIsTokenSearch(Pattern(key, false, Nothing), BlockTokens(u));
    KeySearchIff(key, BlockTokens(u));
    BlockNoKeyIff(key, u);
  }

  lemma FieldReplaced(u: User, key: string, value: string)
    requires GoodUser(u) && OurField(key, value)
    ensures ReplaceAll(Pattern(key, false, AnyValue), Text(BlockTokens(u)), FieldText(key, value))
         == Text(BlockTokens(u.(entries := SetAll(u.entries, key, value))))
  {
    OurFieldIsClean(key, value, AnyValue);
    hide QuoteFree, ReplaceAll, BlockTokens, Text, Clean, NoKey, GoodUser, OurField, Special, FieldText;
    BlockClean(u);
    FieldIsPair(key, value);
    ReplaceIsTokenReplace(Pattern(key, false, AnyValue), BlockTokens(u), PairTokens(Entry("", key, "\t\t", value)));
    BlockReplace(key, value, u);
  }

  lemma SetUserGood(u: User, key: string, value: string, insert: bool)
    requires GoodUser(u) && OurField(key, value)
    ensures GoodUser(SetUser(u, key, value, insert))
  {
    OurFieldIsClean(key, value, AnyValue);
    hide Special, QuoteFree;
  }

  /** One edit of the text of a block is one update of its record. */
  lemma SetFieldIsSetUser(u: User, key: string, value: string, insert: bool)
    requires GoodUser(u) && OurField(key, value)
    ensures SetField(Text(BlockTokens(u)), key, value, insert) == Text(BlockTokens(SetUser(u, key, value, insert)))
  {
    hide Search, ReplaceAll, FieldText, BlockTokens, Text, GoodUser, HasKey, Front;
    FieldFound(u, key, value);
    FieldReplaced(u, key, value);
    FrontText(u);
    InsertedText(u, key, value);
  }

  /** One of the three edits of the text of a block; the optional one only replaces. On the text
      of a record it sets the field of the record. */
  method EditField(block: string, key: string, value: string, insert: bool) returns (edited: string)
    requires OurField(key, value)
    ensures edited == SetField(block, key, value, insert)
    ensures forall u :: GoodUser(u) && block == Text(BlockTokens(u)) ==>
      edited == Text(BlockTokens(SetUser(u, key, value, insert))) && GoodUser(SetUser(u, key, value, insert))
  {
    hide *;
    forall u | GoodUser(u) && block == Text(BlockTokens(u))
      ensures SetField(block, key, value, insert) == Text(BlockTokens(SetUser(u, key, value, insert)))
           && GoodUser(SetUser(u, key, value, insert))
    {
      SetFieldIsSetUser(u, key, value, insert);
      SetUserGood(u, key, value, insert);
    }
    edited := SetFieldText(block, key, value, insert);
  }

  method SetFieldText(block: string, key: string, value: string, insert: bool) returns (edited: string)
    ensures edited == SetField(block, key, value, insert)
  {
    hide Search, ReplaceAll, FieldText;
    edited := block;
    if Search(Pattern(key, false, Nothing), edited) >= 0 {
      edited := ReplaceAll(Pattern(key, false, AnyValue), edited, FieldText(key, value));
    } else if insert && edited != "" {
      var brace := |edited| - 1;
      edited := edited[..brace] + "\t\t" + FieldText(key, value) + "\n\t" + edited[brace..];
    }
  }

  lemma RepairBlockIsRepairUser(u: User)
    requires GoodUser(u)
    ensures RepairBlock(Text(BlockTokens(u))) == Text(BlockTokens(RepairUser(u)))
    ensures GoodUser(RepairUser(u))
  {
    hide SetField, SetUser, GoodUser, Text, BlockTokens;
    var v := SetUser(u, RECENT, "1", true);
    var w := SetUser(v, REMEMBER, "1", true);
    SetFieldIsSetUser(u, RECENT, "1", true);
    SetUserGood(u, RECENT, "1", true);
    SetFieldIsSetUser(v, REMEMBER, "1", true);
    SetUserGood(v, REMEMBER, "1", true);
    SetFieldIsSetUser(w, OFFLINE, "0", false);
    SetUserGood(w, OFFLINE, "0", false);
  }
}
