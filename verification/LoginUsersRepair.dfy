/** The repair of the users file as a whole: on a well-formed file the text editing is the
    update of the records. */
module LoginUsersRepair {
  import opened VdfText
  import opened LoginUsers

  // ---- The whole file ---------------------------------------------------------------------------

  /** Where user `u` has a matching entry: tokens before its key, from the start of `u`. */
  function WithinUser(p: Pattern, u: User): nat
    requires FirstEntry(p, u.entries) < |u.entries|
  {
    var j := FirstEntry(p, u.entries);
    |IntroTokens(u)| + 1 + |EntriesTokens(u.entries[..j])| + |u.entries[j].lead|
  }

  /** Neither the text before the entries of a user nor the text after them holds a key. */
  lemma FrameNoKey(p: Pattern, u: User)
    requires Ours(p) && GoodUser(u)
    ensures NoKey(p, IntroTokens(u) + [Plain('{')]) && NoKey(p, Plains(u.tail) + [Plain('}')])
  {
    PlainsNoKey(p, u.lead);
    PlainsNoKey(p, u.sep);
    PlainsNoKey(p, u.tail);
    NotSpecial(p, u.id);
    OneNoKey(p, u.id);
    assert NoKey(p, [Plain('{')]) && NoKey(p, [Plain('}')]);
    hide NoKey, Ours, Same, GoodUser, Plains;
    NoKeyConcat(p, Plains(u.lead), [Quoted(u.id)]);
    NoKeyConcat(p, Plains(u.lead) + [Quoted(u.id)], Plains(u.sep));
    NoKeyConcat(p, IntroTokens(u), [Plain('{')]);
    NoKeyConcat(p, Plains(u.tail), [Plain('}')]);
  }

  lemma UserStep(p: Pattern, u: User, y: seq<Token>)
    requires Ours(p) && GoodUser(u) && !p.tail.Nothing?
    ensures TokenSearch(p, UserTokens(u) + y) ==
      if FirstEntry(p, u.entries) < |u.entries| then WithinUser(p, u)
      else Shifted(|UserTokens(u)|, TokenSearch(p, y))
  {
    var open := IntroTokens(u) + [Plain('{')];
    var close := Plains(u.tail) + [Plain('}')];
    FrameNoKey(p, u);
    assert GoodEntries(u.entries);
    hide TokenSearch, NoKey, Ours, GoodUser, EntriesTokens, Plains, GoodEntries, IntroTokens;
    assert UserTokens(u) + y == open + (EntriesTokens(u.entries) + (close + y));
    SkipTokens(p, open, EntriesTokens(u.entries) + (close + y), []);
    EntriesSearch(p, u.entries, close + y);
    SkipTokens(p, close, y, []);
  }

  ghost predicate GoodUsers(us: seq<User>) {
    forall i :: 0 <= i < |us| ==> GoodUser(us[i])
  }

  lemma {:induction false} UsersSearch(p: Pattern, us: seq<User>, y: seq<Token>)
    requires Ours(p) && GoodUsers(us) && !p.tail.Nothing?
    ensures var k := FirstUser(p, us);
            TokenSearch(p, UsersTokens(us) + y) ==
              if k < |us| then |UsersTokens(us[..k])| + WithinUser(p, us[k])
              else Shifted(|UsersTokens(us)|, TokenSearch(p, y))
  {
    hide TokenSearch, Ours, GoodUser, UserTokens, WithinUser, FirstEntry;
    if us == [] {
      assert UsersTokens(us) + y == y;
    } else {
      UsersSearch(p, us[1..], y);
      UserStep(p, us[0], UsersTokens(us[1..]) + y);
      assert UsersTokens(us) + y == UserTokens(us[0]) + (UsersTokens(us[1..]) + y);
      var k := FirstUser(p, us);
      if k == 0 {
        assert us[..0] == [];
      } else if k < |us| {
        assert us[..k][1..] == us[1..][..k - 1];
      }
    }
  }

  /** The file up to and after the block of user `k`. */
  function Before(f: File, k: nat): seq<Token>
    requires k < |f.users|
  {
    f.head + UsersTokens(f.users[..k]) + IntroTokens(f.users[k])
  }

  function After(f: File, k: nat): seq<Token>
    requires k < |f.users|
  {
    UsersTokens(f.users[k + 1..]) + f.foot
  }

  lemma {:induction false} UsersConcat(a: seq<User>, b: seq<User>)
    ensures UsersTokens(a + b) == UsersTokens(a) + UsersTokens(b)
  {
    if a == [] {
      assert a + b == b;
    } else {
      assert (a + b)[1..] == a[1..] + b;
      UsersConcat(a[1..], b);
    }
  }

  lemma UsersSplit(us: seq<User>, k: nat)
    requires k < |us|
    ensures UsersTokens(us) == UsersTokens(us[..k]) + (UserTokens(us[k]) + UsersTokens(us[k + 1..]))
  {
    assert us == us[..k] + us[k..];
    UsersConcat(us[..k], us[k..]);
    assert us[k..][0] == us[k] && us[k..][1..] == us[k + 1..];
    hide UserTokens;
  }

  lemma Regroup<T>(h: seq<T>, a: seq<T>, i: seq<T>, b: seq<T>, c: seq<T>, f: seq<T>)
    ensures h + (a + ((i + b) + c)) + f == (h + a + i) + b + (c + f)
  {
  }

  lemma FileSplit(f: File, k: nat)
    requires k < |f.users|
    ensures FileTokens(f) == Before(f, k) + BlockTokens(f.users[k]) + After(f, k)
  {
    hide UsersTokens, IntroTokens, BlockTokens;
    var us := f.users;
    UsersSplit(us, k);
    Regroup(f.head, UsersTokens(us[..k]), IntroTokens(us[k]), BlockTokens(us[k]), UsersTokens(us[k + 1..]), f.foot);
  }

  lemma FileSearch(p: Pattern, f: File)
    requires Ours(p) && WellFormed(f) && !p.tail.Nothing?
    ensures var k := FirstUser(p, f.users);
            TokenSearch(p, FileTokens(f)) ==
              if k < |f.users| then |f.head| + |UsersTokens(f.users[..k])| + WithinUser(p, f.users[k]) else -1
  {
    PlainspokenNoKey(p, f.head);
    PlainspokenNoKey(p, f.foot);
    assert TokenSearch(p, []) == -1;
    assert GoodUsers(f.users);
    hide TokenSearch, Ours, GoodUser, UsersTokens, NoKey, Plainspoken, Clean, GoodUsers;
    assert FileTokens(f) == f.head + (UsersTokens(f.users) + f.foot);
    SkipTokens(p, f.head, UsersTokens(f.users) + f.foot, []);
    UsersSearch(p, f.users, f.foot);
    SkipTokens(p, f.foot, [], []);
    assert f.foot + [] == f.foot;
  }

  lemma PlainspokenNoKey(p: Pattern, toks: seq<Token>)
    requires Ours(p) && Plainspoken(toks)
    ensures NoKey(p, toks)
  {
    forall i | 0 <= i < |toks| && toks[i].Quoted?
      ensures !Same(toks[i].body, p.key, p.fold)
    {
      NotSpecial(p, toks[i].body);
    }
  }

  // ---- Finding the block around a match -----------------------------------------------------------

  predicate Free(c: char, s: string) { forall i :: 0 <= i < |s| ==> s[i] != c }

  lemma FreeConcat(c: char, a: string, b: string)
    ensures Free(c, a + b) <==> Free(c, a) && Free(c, b)
  {
    if Free(c, a + b) {
      assert forall i :: 0 <= i < |a| ==> a[i] == (a + b)[i];
      assert forall i :: 0 <= i < |b| ==> b[i] == (a + b)[|a| + i];
    }
  }

  predicate EntryFree(c: char, e: Entry) { Free(c, e.key) && Free(c, e.value) }

  lemma SpaceText(c: char, s: string)
    requires Brace(c) && AllSpace(s)
    ensures Free(c, Text(Plains(s)))
  {
    PlainsText(s);
  }

  lemma QuotedFree(c: char, w: string)
    requires Brace(c)
    ensures Free(c, Text([Quoted(w)])) <==> Free(c, w)
  {
    TextOne(Quoted(w));
    FreeConcat(c, [Q] + w, [Q]);
    FreeConcat(c, [Q], w);
    assert Free(c, [Q]);
  }

  /** A brace in the text of an entry is one in its key or its value. */
  lemma EntryFreeIff(c: char, e: Entry)
    requires Brace(c) && GoodEntry(e)
    ensures Free(c, Text(PairTokens(e))) <==> EntryFree(c, e)
    ensures Free(c, Text(EntryTokens(e))) <==> EntryFree(c, e)
  {
    SpaceText(c, e.lead);
    SpaceText(c, e.sep);
    hide Text, Free, Plains, GoodEntry;
    QuotedFree(c, e.key);
    QuotedFree(c, e.value);
    TextConcat([Quoted(e.key)] + Plains(e.sep), [Quoted(e.value)]);
    TextConcat([Quoted(e.key)], Plains(e.sep));
    FreeConcat(c, Text([Quoted(e.key)]), Text(Plains(e.sep)));
    FreeConcat(c, Text([Quoted(e.key)] + Plains(e.sep)), Text([Quoted(e.value)]));
    TextConcat(Plains(e.lead), PairTokens(e));
    FreeConcat(c, Text(Plains(e.lead)), Text(PairTokens(e)));
  }

  ghost predicate EntriesFree(c: char, es: seq<Entry>) {
    forall i :: 0 <= i < |es| ==> EntryFree(c, es[i])
  }

  lemma EntriesFreeCons(c: char, es: seq<Entry>)
    requires es != []
    ensures EntriesFree(c, es) <==> EntryFree(c, es[0]) && EntriesFree(c, es[1..])
  {
    hide EntryFree;
    var rest := es[1..];
    assert forall i :: 1 <= i < |es| ==> es[i] == rest[i - 1];
    assert forall i :: 0 <= i < |rest| ==> rest[i] == es[i + 1];
  }

  lemma {:induction false} EntriesFreeIff(c: char, es: seq<Entry>)
    requires Brace(c) && GoodEntries(es)
    ensures Free(c, Text(EntriesTokens(es))) <==> EntriesFree(c, es)
  {
    if es == [] {
      assert Text(EntriesTokens(es)) == "";
    } else {
      assert GoodEntries(es[1..]) && GoodEntry(es[0]);
      EntriesFreeIff(c, es[1..]);
      EntryFreeIff(c, es[0]);
      hide Text, Free, GoodEntry, EntryTokens, EntryFree, GoodEntries, EntriesFree;
      TextConcat(EntryTokens(es[0]), EntriesTokens(es[1..]));
      FreeConcat(c, Text(EntryTokens(es[0])), Text(EntriesTokens(es[1..])));
      EntriesFreeCons(c, es);
    }
  }

  lemma LastIs(s: string, c: char, from: nat, i: nat)
    requires i <= from < |s| && s[i] == c && forall j :: i < j <= from ==> s[j] != c
    ensures LastIndex(s, c, from) == i
  {
    LastIndexIs(s, c, from);
  }

  lemma FirstIs(s: string, c: char, from: nat, i: nat)
    requires from <= i < |s| && s[i] == c && forall j :: from <= j < i ==> s[j] != c
    ensures FirstIndex(s, c, from) == i
  {
    FirstIndexIs(s, c, from);
  }

  /** Three parts of a string, by position. */
  lemma Parts(s: string, a: string, block: string, b: string)
    requires s == a + block + b
    ensures s[..|a|] == a && s[|a|..|a| + |block|] == block && s[|a| + |block|..] == b
  {
  }

  /** Searching outwards from `at`, the braces found are the first and the last character of the
      block that follows `a`. */
  predicate Surrounds(s: string, at: nat, a: string, block: string)
    requires at < |s|
  {
    LastIndex(s, '{', at) == |a| && FirstIndex(s, '}', at) == |a| + |block| - 1
  }

  lemma LastIff(s: string, start: nat, x: string, at: nat)
    requires at == start + 1 + |x| < |s| && s[start] == '{' && s[at] == Q && s[start + 1..at] == x
    ensures LastIndex(s, '{', at) == start <==> Free('{', x)
  {
    assert forall j :: start < j < at ==> s[j] == x[j - start - 1];
    if Free('{', x) {
      LastIs(s, '{', at, start);
    } else {
      LastIndexIs(s, '{', at);
      assert forall i :: 0 <= i < |x| ==> x[i] == s[start + 1 + i];
    }
  }

  lemma FirstIff(s: string, at: nat, y: string)
    requires at + |y| < |s| && s[at + |y|] == '}' && s[at..at + |y|] == y
    ensures FirstIndex(s, '}', at) == at + |y| <==> Free('}', y)
  {
    assert forall j :: at <= j < at + |y| ==> s[j] == y[j - at];
    if Free('}', y) {
      FirstIs(s, '}', at, at + |y|);
    } else {
      FirstIndexIs(s, '}', at);
      assert forall i :: 0 <= i < |y| ==> y[i] == s[at + i];
    }
  }

  lemma BlockSlices(s: string, a: string, block: string, b: string, x: string, y: string)
    requires s == a + block + b && block == "{" + x + y + "}"
    ensures var at := |a| + 1 + |x|;
            && at + |y| < |s| && |block| == |x| + |y| + 2
            && s[|a|] == '{' && s[|a| + 1..at] == x && s[at..at + |y|] == y && s[at + |y|] == '}'
  {
    assert |block| == |x| + |y| + 2;
    assert block[1..1 + |x|] == x && block[1 + |x|..1 + |x| + |y|] == y;
    SliceWithin(s, a, block, b, 1, 1 + |x|);
    SliceWithin(s, a, block, b, 1 + |x|, 1 + |x| + |y|);
    assert s[|a|] == block[0] && s[|a| + |block| - 1] == block[|block| - 1];
  }

  lemma SliceWithin(s: string, a: string, block: string, b: string, i: nat, j: nat)
    requires s == a + block + b && i <= j <= |block|
    ensures s[|a| + i..|a| + j] == block[i..j]
  {
  }

  /** From a quote inside a block the braces found are those of the block exactly if there is no
      opening one before it in the block and no closing one after it. */
  lemma SurroundsIff(s: string, a: string, block: string, b: string, x: string, y: string, before: string)
    requires s == a + block + b && block == "{" + x + y + "}" && y != "" && y[0] == Q
    requires |before| == |a| + 1 + |x|
    ensures |before| < |s|
    ensures Surrounds(s, |before|, a, block) <==> Free('{', x) && Free('}', y)
  {
    hide Free, LastIndex, FirstIndex;
    BlockSlices(s, a, block, b, x, y);
    assert s[|before|] == s[|before|..|before| + |y|][0];
    LastIff(s, |a|, x, |before|);
    FirstIff(s, |before|, y);
  }

  /** Then that block is repaired. */
  lemma AroundIs(s: string, a: string, block: string, b: string, at: nat)
    requires s == a + block + b && |block| >= 2 && at < |s| && Surrounds(s, at, a, block)
    ensures RepairAround(s, at) == a + RepairBlock(block) + b
  {
    hide LastIndex, FirstIndex, RepairBlock;
    Parts(s, a, block, b);
  }

  // ---- The repair is the record update ------------------------------------------------------------

  /** The inside of a block up to the key of entry `j`, and from there on. */
  function UpTo(u: User, j: nat): seq<Token>
    requires j < |u.entries|
  {
    EntriesTokens(u.entries[..j]) + Plains(u.entries[j].lead)
  }

  function Beyond(u: User, j: nat): seq<Token>
    requires j < |u.entries|
  {
    EntriesTokens(u.entries[j + 1..]) + Plains(u.tail)
  }

  lemma BlockSplit(u: User, j: nat)
    requires j < |u.entries|
    ensures BlockTokens(u) ==
      [Plain('{')] + UpTo(u, j) + (PairTokens(u.entries[j]) + Beyond(u, j)) + [Plain('}')]
  {
    var es := u.entries;
    assert es == es[..j] + es[j..];
    EntriesConcat(es[..j], es[j..]);
    assert es[j..][0] == es[j] && es[j..][1..] == es[j + 1..];
    assert EntriesTokens(es[j..]) == EntryTokens(es[j]) + EntriesTokens(es[j + 1..]);
    hide EntriesTokens, PairTokens, Plains;
  }

  /** Everything in the file before the key of entry `j` of user `k`, and after its pair. */
  function Prefix(f: File, k: nat, j: nat): seq<Token>
    requires k < |f.users| && j < |f.users[k].entries|
  {
    Before(f, k) + [Plain('{')] + UpTo(f.users[k], j)
  }

  function Suffix(f: File, k: nat, j: nat): seq<Token>
    requires k < |f.users| && j < |f.users[k].entries|
  {
    Beyond(f.users[k], j) + [Plain('}')] + After(f, k)
  }

  lemma PairSplit(f: File, k: nat, j: nat)
    requires k < |f.users| && j < |f.users[k].entries|
    ensures FileTokens(f) == Prefix(f, k, j) + PairTokens(f.users[k].entries[j]) + Suffix(f, k, j)
  {
    hide FileTokens, Before, After, BlockTokens, UpTo, Beyond, PairTokens;
    FileSplit(f, k);
    BlockSplit(f.users[k], j);
  }

  lemma PrefixText(f: File, k: nat, j: nat)
    requires k < |f.users| && j < |f.users[k].entries|
    ensures Text(Prefix(f, k, j)) == Text(Before(f, k)) + "{" + Text(UpTo(f.users[k], j))
  {
    TextOne(Plain('{'));
    hide Text, Before, UpTo;
    TextConcat(Before(f, k) + [Plain('{')], UpTo(f.users[k], j));
    TextConcat(Before(f, k), [Plain('{')]);
  }

  lemma FileClean(f: File)
    requires WellFormed(f)
    ensures Clean(FileTokens(f))
  {
    UsersClean(f.users);
    hide Clean;
    CleanConcat(f.head, UsersTokens(f.users));
    CleanConcat(f.head + UsersTokens(f.users), f.foot);
  }

  lemma {:induction false} UsersClean(us: seq<User>)
    requires GoodUsers(us)
    ensures Clean(UsersTokens(us))
  {
    if us != [] {
      var u := us[0];
      UsersClean(us[1..]);
      BlockClean(u);
      CleanSpace(u.lead);
      CleanSpace(u.sep);
      CleanOne(Quoted(u.id));
      hide Clean, BlockTokens;
      CleanConcat(Plains(u.lead), [Quoted(u.id)]);
      CleanConcat(Plains(u.lead) + [Quoted(u.id)], Plains(u.sep));
      CleanConcat(IntroTokens(u), BlockTokens(u));
      CleanConcat(UserTokens(u), UsersTokens(us[1..]));
    }
  }

  /** The search on the tokens of a file finds the first user and entry that match. */
  lemma TokensSearch(p: Pattern, f: File)
    requires Ours(p) && WellFormed(f) && !p.tail.Nothing?
    ensures var k := FirstUser(p, f.users);
            TokenSearch(p, FileTokens(f)) ==
              if k < |f.users| then |Prefix(f, k, FirstEntry(p, f.users[k].entries))| else -1
  {
    hide TokenSearch, Ours, WellFormed, FileTokens, EntriesTokens, UsersTokens, IntroTokens, FirstEntry, FirstUser;
    FileSearch(p, f);
  }

  /** So does the search on its text. */
  lemma TextSearch(p: Pattern, f: File)
    requires Ours(p) && WellFormed(f) && !p.tail.Nothing?
    ensures var k := FirstUser(p, f.users);
            Search(p, FileText(f)) ==
              if k < |f.users| then |Text(Prefix(f, k, FirstEntry(p, f.users[k].entries)))| else -1
  {
    assert CleanPattern(p);
    hide Search, TokenSearch, Text, Ours, WellFormed, Clean, FileTokens, PairTokens, CleanPattern;
    hide Prefix, Suffix, FirstEntry, FirstUser;
    FileClean(f);
    SearchIsTokenSearch(p, FileTokens(f));
    TokensSearch(p, f);
    var k := FirstUser(p, f.users);
    if k < |f.users| {
      var j := FirstEntry(p, f.users[k].entries);
      PairSplit(f, k, j);
      assert FileTokens(f)[..|Prefix(f, k, j)|] == Prefix(f, k, j);
    }
  }

  lemma AccountIsOurs(user: string)
    requires QuoteFree(user)
    ensures Ours(AccountPattern(user))
  {
  }

  /** The repair keeps what comes before the block of a user. */
  lemma IntroKept(u: User)
    ensures IntroTokens(RepairUser(u)) == IntroTokens(u)
  {
    hide HasKey, SetAll;
  }

  /** No opening brace before entry `j` of `u` and no closing brace from there on. */
  ghost predicate Enclosed(u: User, j: nat)
    requires j <= |u.entries|
  {
    EntriesFree('{', u.entries[..j]) && EntriesFree('}', u.entries[j..])
  }

  /** The entry the repair finds, if it finds one, is enclosed in this way. */
  ghost predicate Enclosing(f: File, user: string) {
    var k := FirstUser(AccountPattern(user), f.users);
    user != "" && k < |f.users| ==> Enclosed(f.users[k], FirstEntry(AccountPattern(user), f.users[k].entries))
  }

  /** The block around the first matching entry is the one that gets repaired. */
  lemma RepairNamedIs(f: File, user: string)
    requires WellFormed(f) && QuoteFree(user) && user != "" && Enclosing(f, user)
    ensures RepairNamed(FileText(f), user) == FileText(RepairFile(f, user))
  {
    assert GoodUsers(f.users);
    hide Search, RepairBlock, RepairUser, QuoteFree, Ours, FirstUser, FirstEntry, FileText, Matches, RepairAround;
    hide Before, After, BlockTokens, Prefix, Text, WellFormed, GoodUser, IntroTokens, Enclosed;
    AccountIsOurs(user);
    TextSearch(AccountPattern(user), f);
    var k := FirstUser(AccountPattern(user), f.users);
    if k < |f.users| {
      var u := f.users[k];
      AroundBlock(f, k, FirstEntry(AccountPattern(user), u.entries));
      RepairBlockIsRepairUser(u);
      IntroKept(u);
      OneUserChanged(f, k, RepairUser(u));
    }
  }

  /** From entry `j` of user `k` the braces found are those of the block of that user exactly if
      the entry is enclosed. */
  lemma BlockFoundIff(f: File, k: nat, j: nat)
    requires WellFormed(f) && k < |f.users| && j < |f.users[k].entries|
    ensures |Text(Prefix(f, k, j))| < |FileText(f)|
    ensures Surrounds(FileText(f), |Text(Prefix(f, k, j))|, Text(Before(f, k)), Text(BlockTokens(f.users[k])))
       <==> Enclosed(f.users[k], j)
  {
    var u := f.users[k];
    assert GoodUser(u);
    hide Text, Surrounds, BlockTokens, Before, After, UpTo, Beyond, PairTokens, FileText;
    hide Free, Prefix, WellFormed, GoodUser, Enclosed;
    InsideFreeIff(u, j);
    PairStarts(u, j);
    BlockText(u, j);
    FileBlockText(f, k);
    PrefixText(f, k, j);
    SurroundsIff(FileText(f), Text(Before(f, k)), Text(BlockTokens(u)), Text(After(f, k)),
                 Text(UpTo(u, j)), Text(PairTokens(u.entries[j]) + Beyond(u, j)), Text(Prefix(f, k, j)));
  }

  lemma PairStarts(u: User, j: nat)
    requires j < |u.entries|
    ensures var y := Text(PairTokens(u.entries[j]) + Beyond(u, j)); y != "" && y[0] == Q
  {
    hide Beyond;
  }

  lemma AroundBlock(f: File, k: nat, j: nat)
    requires WellFormed(f) && k < |f.users| && j < |f.users[k].entries| && Enclosed(f.users[k], j)
    ensures |Text(Prefix(f, k, j))| < |FileText(f)|
    ensures RepairAround(FileText(f), |Text(Prefix(f, k, j))|)
         == Text(Before(f, k)) + RepairBlock(Text(BlockTokens(f.users[k]))) + Text(After(f, k))
  {
    hide Text, RepairAround, BlockTokens, Before, After, FileText, RepairBlock, Surrounds;
    hide Prefix, WellFormed, Enclosed, UpTo, Beyond, PairTokens;
    BlockFoundIff(f, k, j);
    FileBlockText(f, k);
    BlockText(f.users[k], j);
    AroundIs(FileText(f), Text(Before(f, k)), Text(BlockTokens(f.users[k])), Text(After(f, k)),
             |Text(Prefix(f, k, j))|);
  }

  lemma InsideFreeIff(u: User, j: nat)
    requires GoodUser(u) && j < |u.entries|
    ensures Free('{', Text(UpTo(u, j))) && Free('}', Text(PairTokens(u.entries[j]) + Beyond(u, j))) <==> Enclosed(u, j)
  {
    var es := u.entries;
    assert GoodEntries(es[..j]) && GoodEntries(es[j + 1..]) && GoodEntry(es[j]);
    EntriesFreeIff('{', es[..j]);
    EntriesFreeIff('}', es[j + 1..]);
    EntryFreeIff('}', es[j]);
    SpaceText('{', es[j].lead);
    SpaceText('}', u.tail);
    EntriesFreeFrom('}', es, j);
    hide Text, EntriesTokens, Free, PairTokens, Plains, GoodEntry, GoodEntries, GoodUser, EntriesFree;
    TextConcat(EntriesTokens(es[..j]), Plains(es[j].lead));
    FreeConcat('{', Text(EntriesTokens(es[..j])), Text(Plains(es[j].lead)));
    TextConcat(EntriesTokens(es[j + 1..]), Plains(u.tail));
    FreeConcat('}', Text(EntriesTokens(es[j + 1..])), Text(Plains(u.tail)));
    TextConcat(PairTokens(es[j]), Beyond(u, j));
    FreeConcat('}', Text(PairTokens(es[j])), Text(Beyond(u, j)));
  }

  lemma EntriesFreeFrom(c: char, es: seq<Entry>, j: nat)
    requires j < |es|
    ensures EntriesFree(c, es[j..]) <==> EntryFree(c, es[j]) && EntriesFree(c, es[j + 1..])
  {
    var rest := es[j..];
    assert rest[1..] == es[j + 1..];
    EntriesFreeCons(c, rest);
  }

  lemma BlockText(u: User, j: nat)
    requires j < |u.entries|
    ensures Text(BlockTokens(u)) == "{" + Text(UpTo(u, j)) + Text(PairTokens(u.entries[j]) + Beyond(u, j)) + "}"
  {
    TextOne(Plain('{'));
    TextOne(Plain('}'));
    hide Text, BlockTokens, UpTo, Beyond, PairTokens;
    BlockSplit(u, j);
    var (x, y) := (UpTo(u, j), PairTokens(u.entries[j]) + Beyond(u, j));
    TextConcat([Plain('{')], x);
    TextConcat([Plain('{')] + x, y);
    TextConcat([Plain('{')] + x + y, [Plain('}')]);
  }

  lemma FileBlockText(f: File, k: nat)
    requires k < |f.users|
    ensures FileText(f) == Text(Before(f, k)) + Text(BlockTokens(f.users[k])) + Text(After(f, k))
  {
    hide Text, BlockTokens, Before, After, FileTokens;
    FileSplit(f, k);
    TextConcat(Before(f, k) + BlockTokens(f.users[k]), After(f, k));
    TextConcat(Before(f, k), BlockTokens(f.users[k]));
  }

  /** Changing the inside of one block leaves the text around it alone. */
  lemma OneUserChanged(f: File, k: nat, v: User)
    requires k < |f.users| && IntroTokens(v) == IntroTokens(f.users[k])
    ensures FileText(f.(users := f.users[k := v])) == Text(Before(f, k)) + Text(BlockTokens(v)) + Text(After(f, k))
  {
    var g := f.(users := f.users[k := v]);
    FileBlockText(g, k);
    assert g.users[..k] == f.users[..k] && g.users[k + 1..] == f.users[k + 1..];
    hide Text, BlockTokens, UsersTokens, IntroTokens;
  }

  // ---- No user known ------------------------------------------------------------------------------

  lemma MarksAreOurs()
    ensures Ours(MARKED_TABS) && Ours(MARKED_SPACE) && Ours(UNMARKED)
  {
    OurValueIsClean("1");
    OurValueIsClean("0");
  }

  /** A match at the start of a pair covers the pair. */
  lemma PairMatchText(p: Pattern, e: Entry, y: seq<Token>)
    requires Ours(p) && GoodEntry(e) && Matches(p, e) && !p.tail.Nothing? && Clean(PairTokens(e) + y)
    ensures Match(p, Text(PairTokens(e)) + Text(y)) == |Text(PairTokens(e))|
  {
    assert CleanPattern(p);
    hide Match, TokenMatch, Text, PairTokens, Ours, GoodEntry, Matches, Clean, CleanPattern;
    PairMatch(p, e, y);
    MatchIsTokenMatch(p, PairTokens(e) + y);
    TextConcat(PairTokens(e), y);
    assert (PairTokens(e) + y)[..|PairTokens(e)|] == PairTokens(e);
  }

  lemma ReplaceFirstIs(p: Pattern, a: string, x: string, b: string, sub: string)
    requires Search(p, a + x + b) == |a| && Match(p, x + b) == |x|
    ensures ReplaceFirst(p, a + x + b, sub) == a + sub + b
  {
    hide Search, Match;
    var s := a + x + b;
    assert s[|a|..] == x + b;
    assert s[|a| + |x|..] == b;
    assert s[..|a|] == a;
  }

  lemma PairText(f: File, k: nat, j: nat)
    requires k < |f.users| && j < |f.users[k].entries|
    ensures FileText(f) == Text(Prefix(f, k, j)) + Text(PairTokens(f.users[k].entries[j])) + Text(Suffix(f, k, j))
  {
    hide Text, Prefix, PairTokens, Suffix, FileTokens;
    PairSplit(f, k, j);
    TextConcat(Prefix(f, k, j) + PairTokens(f.users[k].entries[j]), Suffix(f, k, j));
    TextConcat(Prefix(f, k, j), PairTokens(f.users[k].entries[j]));
  }

  lemma MarkedText(f: File, k: nat, j: nat)
    requires k < |f.users| && j < |f.users[k].entries| && f.users[k].entries[j].key == RECENT
    ensures FileText(f.(users := f.users[k := MarkUser(f.users[k], j)]))
         == Text(Prefix(f, k, j)) + FieldText(RECENT, "1") + Text(Suffix(f, k, j))
  {
    var u := f.users[k];
    var v := MarkUser(u, j);
    var g := f.(users := f.users[k := v]);
    assert g.users[..k] == f.users[..k] && g.users[k + 1..] == f.users[k + 1..];
    assert v.entries[..j] == u.entries[..j] && v.entries[j + 1..] == u.entries[j + 1..];
    FieldIsPair(RECENT, "1");
    assert PairTokens(v.entries[j]) == PairTokens(Entry("", RECENT, "\t\t", "1"));
    hide Text, UsersTokens, EntriesTokens, Plains, FileText, FieldText, PairTokens;
    PairText(g, k, j);
    assert Prefix(g, k, j) == Prefix(f, k, j) && Suffix(g, k, j) == Suffix(f, k, j);
  }

  lemma PairClean(f: File, k: nat, j: nat)
    requires WellFormed(f) && k < |f.users| && j < |f.users[k].entries|
    ensures Clean(PairTokens(f.users[k].entries[j]) + Suffix(f, k, j))
  {
    hide Clean, Prefix, PairTokens, Suffix, FileTokens, WellFormed;
    FileClean(f);
    PairSplit(f, k, j);
    var (x, y) := (PairTokens(f.users[k].entries[j]), Suffix(f, k, j));
    CleanConcat(Prefix(f, k, j), x + y);
    assert Prefix(f, k, j) + x + y == Prefix(f, k, j) + (x + y);
  }

  lemma FirstReplaced(f: File, p: Pattern, sub: string)
    requires WellFormed(f) && Ours(p) && !p.tail.Nothing? && FirstUser(p, f.users) < |f.users|
    ensures var k := FirstUser(p, f.users);
            var j := FirstEntry(p, f.users[k].entries);
            ReplaceFirst(p, FileText(f), sub) == Text(Prefix(f, k, j)) + sub + Text(Suffix(f, k, j))
  {
    var k := FirstUser(p, f.users);
    var j := FirstEntry(p, f.users[k].entries);
    var e := f.users[k].entries[j];
    assert GoodUser(f.users[k]) && GoodEntry(e);
    hide Search, Match, ReplaceFirst, Text, FileText, Prefix, Suffix, PairTokens, Ours, WellFormed;
    hide FirstUser, FirstEntry, GoodUser, GoodEntry, Matches, Clean;
    TextSearch(p, f);
    PairText(f, k, j);
    PairClean(f, k, j);
    PairMatchText(p, e, Suffix(f, k, j));
    ReplaceFirstIs(p, Text(Prefix(f, k, j)), Text(PairTokens(e)), Text(Suffix(f, k, j)), sub);
  }

  lemma NoneFound(f: File, p: Pattern)
    requires WellFormed(f) && Ours(p) && !p.tail.Nothing?
    ensures Search(p, FileText(f)) < 0 <==> FirstUser(p, f.users) == |f.users|
  {
    hide Search, Text, FileText, Prefix, Ours, WellFormed, FirstUser, FirstEntry;
    TextSearch(p, f);
  }

  lemma RepairUnnamedIs(f: File)
    requires WellFormed(f)
    ensures RepairUnnamed(FileText(f)) == FileText(MarkFile(f))
  {
    MarksAreOurs();
    hide Search, ReplaceFirst, FieldText, Text, FileText, Prefix, Suffix, Ours, WellFormed;
    hide FirstUser, FirstEntry, MarkUser;
    NoneFound(f, MARKED_TABS);
    NoneFound(f, MARKED_SPACE);
    NoneFound(f, UNMARKED);
    var k := FirstUser(UNMARKED, f.users);
    if k < |f.users| {
      FirstReplaced(f, UNMARKED, FieldText(RECENT, "1"));
      var j := FirstEntry(UNMARKED, f.users[k].entries);
      UnmarkedKey(f.users[k].entries[j]);
      MarkedText(f, k, j);
    } else {
      assert ReplaceFirst(UNMARKED, FileText(f), FieldText(RECENT, "1")) == FileText(f) by {
        NotReplaced(UNMARKED, FileText(f), FieldText(RECENT, "1"));
      }
    }
  }

  lemma NotReplaced(p: Pattern, s: string, sub: string)
    requires Search(p, s) < 0
    ensures ReplaceFirst(p, s, sub) == s
  {
  }

  lemma UnmarkedKey(e: Entry)
    requires Matches(UNMARKED, e)
    ensures e.key == RECENT
  {
    SameIff(e.key, RECENT);
  }
}
