/** What the repair of the users file promises: it is the update of the records, the update sets
    the three fields of one user and nothing else, and repairing twice is repairing once. */
module LoginUsersLaws {
  import opened VdfText
  import opened LoginUsers
  import opened LoginUsersRepair

  /** The text editing does to the text what `Repaired` does to the records. */
  lemma RepairIsRecordUpdate(f: File, user: string)
    requires WellFormed(f) && QuoteFree(user) && Enclosing(f, user)
    ensures RepairText(FileText(f), user) == FileText(Repaired(f, user))
    ensures WellFormed(Repaired(f, user))
  {
    RepairedWellFormed(f, user);
    hide RepairNamed, RepairUnnamed, RepairFile, MarkFile, WellFormed, QuoteFree, FileText, Enclosing;
    if user != "" { RepairNamedIs(f, user); } else { RepairUnnamedIs(f); }
  }

  lemma RepairedWellFormed(f: File, user: string)
    requires WellFormed(f)
    ensures WellFormed(Repaired(f, user))
  {
    hide GoodUser, RepairUser, MarkUser, FirstUser, FirstEntry, Clean, Plainspoken;
    var k := if user != "" then FirstUser(AccountPattern(user), f.users) else FirstUser(UNMARKED, f.users);
    if k < |f.users| {
      if user != "" {
        RepairBlockIsRepairUser(f.users[k]);
      } else {
        MarkGood(f.users[k], FirstEntry(UNMARKED, f.users[k].entries));
      }
    }
  }

  lemma MarkGood(u: User, j: nat)
    requires GoodUser(u) && j < |u.entries|
    ensures GoodUser(MarkUser(u, j))
  {
    OurValueIsClean("1");
    hide QuoteFree, Special;
  }

  /** Without that, a name with a closing brace after the account cuts the block short. */
  lemma BraceInName(user: string)
    requires user != "" && QuoteFree(user) && !Special(user)
    ensures var u := User("", "0", "", [Entry("", ACCOUNT, " ", user), Entry("", "PersonaName", " ", "}")], "");
            var f := File([], [u], []);
            && WellFormed(f) && !Enclosing(f, user)
            && |Text(Prefix(f, 0, 0))| < |FileText(f)|
            && !Surrounds(FileText(f), |Text(Prefix(f, 0, 0))|, Text(Before(f, 0)), Text(BlockTokens(u)))
  {
    var u := User("", "0", "", [Entry("", ACCOUNT, " ", user), Entry("", "PersonaName", " ", "}")], "");
    var f := File([], [u], []);
    assert Matches(AccountPattern(user), u.entries[0]);
    assert !Special("0") && !Special("}");
    assert GoodEntry(u.entries[0]) && GoodEntry(u.entries[1]) && GoodUser(u);
    assert "}"[0] == '}' && u.entries[1].value == "}";
    assert !EntryFree('}', u.entries[1]) && u.entries[0..][1] == u.entries[1];
    hide Special, QuoteFree, Matches, Surrounds, Text, FileText, Prefix, Before, BlockTokens, EntryFree, GoodUser;
    assert !Enclosed(u, 0);
    FirstEntryIs(AccountPattern(user), u.entries, 0);
    BlockFoundIff(f, 0, 0);
  }

  // ---- What the update of a user does -------------------------------------------------------------

  predicate OurKey(key: string) { key == "MostRecent" || key == "RememberPassword" || key == "WantsOfflineMode" }

  /** The fields are as the repair wants them. */
  predicate FieldSet(u: User, key: string, value: string, insert: bool) {
    && (forall i :: 0 <= i < |u.entries| && u.entries[i].key == key ==>
          u.entries[i].sep == "\t\t" && u.entries[i].value == value)
    && (insert ==> HasKey(u.entries, key))
  }

  predicate AllSet(u: User) {
    && FieldSet(u, "MostRecent", "1", true) && FieldSet(u, "RememberPassword", "1", true)
    && FieldSet(u, "WantsOfflineMode", "0", false)
  }

  /** `v` is `u` with fields of ours rewritten or added at the end, all else as it was. */
  predicate OnlyOurs(u: User, v: User) {
    && v.lead == u.lead && v.id == u.id && v.sep == u.sep
    && |v.entries| >= |u.entries|
    && (forall i :: 0 <= i < |u.entries| ==>
          v.entries[i].lead == u.entries[i].lead && v.entries[i].key == u.entries[i].key
          && (!OurKey(u.entries[i].key) ==> v.entries[i] == u.entries[i]))
    && forall i :: |u.entries| <= i < |v.entries| ==> OurKey(v.entries[i].key)
  }

  /** One if `u` has no such field. */
  function Missing(u: User, key: string): nat { if HasKey(u.entries, key) then 0 else 1 }

  lemma SetUserSets(u: User, key: string, value: string, insert: bool)
    ensures FieldSet(SetUser(u, key, value, insert), key, value, insert)
    ensures HasKey(SetUser(u, key, value, insert).entries, key) <==> insert || HasKey(u.entries, key)
    ensures |SetUser(u, key, value, insert).entries| == |u.entries| + if insert then Missing(u, key) else 0
  {
    var v := SetUser(u, key, value, insert);
    if HasKey(u.entries, key) {
      var i :| 0 <= i < |u.entries| && u.entries[i].key == key;
      assert v.entries[i].key == key;
    } else if insert {
      assert v.entries[|u.entries|].key == key;
    }
  }

  lemma HasKeyKept(u: User, key: string, value: string, insert: bool, other: string)
    requires other != key
    ensures HasKey(SetUser(u, key, value, insert).entries, other) <==> HasKey(u.entries, other)
  {
    var v := SetUser(u, key, value, insert);
    assert forall i :: 0 <= i < |u.entries| ==> v.entries[i].key == u.entries[i].key;
    if HasKey(u.entries, other) {
      var i :| 0 <= i < |u.entries| && u.entries[i].key == other;
      assert v.entries[i].key == other;
    }
  }

  lemma FieldSetKept(u: User, key: string, value: string, insert: bool, other: string, had: string, must: bool)
    requires other != key && FieldSet(u, other, had, must)
    ensures FieldSet(SetUser(u, key, value, insert), other, had, must)
  {
    HasKeyKept(u, key, value, insert, other);
    hide HasKey;
  }

  lemma SetUserOnlyOurs(u: User, key: string, value: string, insert: bool)
    requires OurKey(key)
    ensures OnlyOurs(u, SetUser(u, key, value, insert))
  {
    hide HasKey;
  }

  lemma OnlyOursChain(u: User, v: User, w: User)
    requires OnlyOurs(u, v) && OnlyOurs(v, w)
    ensures OnlyOurs(u, w)
  {
    hide OurKey;
  }

  /** MostRecent and RememberPassword are there and say "1", WantsOfflineMode says "0" if it is
      there; a missing field is added once; no other field and nothing before the block changes. */
  lemma RepairUserSets(u: User)
    ensures AllSet(RepairUser(u)) && OnlyOurs(u, RepairUser(u))
    ensures HasKey(RepairUser(u).entries, "WantsOfflineMode") <==> HasKey(u.entries, "WantsOfflineMode")
    ensures |RepairUser(u).entries|
         == |u.entries| + Missing(u, "MostRecent") + Missing(u, "RememberPassword")
  {
    var v := SetUser(u, RECENT, "1", true);
    var w := SetUser(v, REMEMBER, "1", true);
    assert OurKey(RECENT) && OurKey(REMEMBER) && OurKey(OFFLINE);
    hide SetUser, FieldSet, HasKey, OnlyOurs, OurKey;
    SetUserSets(u, RECENT, "1", true);
    SetUserSets(v, REMEMBER, "1", true);
    SetUserSets(w, OFFLINE, "0", false);
    FieldSetKept(v, REMEMBER, "1", true, RECENT, "1", true);
    FieldSetKept(w, OFFLINE, "0", false, RECENT, "1", true);
    FieldSetKept(w, OFFLINE, "0", false, REMEMBER, "1", true);
    HasKeyKept(u, RECENT, "1", true, OFFLINE);
    HasKeyKept(u, RECENT, "1", true, REMEMBER);
    HasKeyKept(v, REMEMBER, "1", true, OFFLINE);
    SetUserOnlyOurs(u, RECENT, "1", true);
    SetUserOnlyOurs(v, REMEMBER, "1", true);
    SetUserOnlyOurs(w, OFFLINE, "0", false);
    OnlyOursChain(u, v, w);
    OnlyOursChain(u, w, RepairUser(u));
  }

  /** The text outside the block of the repaired user does not change. */
  lemma OnlyTheBlockChanges(f: File, user: string)
    requires WellFormed(f) && QuoteFree(user) && user != "" && Enclosing(f, user)
    requires FirstUser(AccountPattern(user), f.users) < |f.users|
    ensures var k := FirstUser(AccountPattern(user), f.users);
            var (a, u, b) := (Text(Before(f, k)), f.users[k], Text(After(f, k)));
            && FileText(f) == a + Text(BlockTokens(u)) + b
            && RepairText(FileText(f), user) == a + Text(BlockTokens(RepairUser(u))) + b
  {
    hide RepairText, RepairUser, FirstUser, WellFormed, QuoteFree, Enclosing;
    hide FileText, Before, After, BlockTokens, Text, IntroTokens;
    var k := FirstUser(AccountPattern(user), f.users);
    RepairIsRecordUpdate(f, user);
    FileBlockText(f, k);
    IntroKept(f.users[k]);
    OneUserChanged(f, k, RepairUser(f.users[k]));
  }

  // ---- No user known --------------------------------------------------------------------------------

  /** The entry says that its user is the most recent one, spelled as the repair looks for it. */
  predicate Marked(e: Entry) {
    e.key == "MostRecent" && e.value == "1" && (e.sep == "\t\t" || e.sep == " ")
  }

  predicate Unmarked(e: Entry) { e.key == "MostRecent" && e.value == "0" }

  ghost predicate SomeMarked(f: File) {
    exists k, j :: 0 <= k < |f.users| && 0 <= j < |f.users[k].entries| && Marked(f.users[k].entries[j])
  }

  /** The first entry that says "0". */
  ghost predicate FirstUnmarked(f: File, k: nat, j: nat) {
    && k < |f.users| && j < |f.users[k].entries| && Unmarked(f.users[k].entries[j])
    && (forall i :: 0 <= i < j ==> !Unmarked(f.users[k].entries[i]))
    && forall l, i :: 0 <= l < k && 0 <= i < |f.users[l].entries| ==> !Unmarked(f.users[l].entries[i])
  }

  lemma MarkPatterns(e: Entry)
    ensures Matches(MARKED_TABS, e) <==> Marked(e) && e.sep == "\t\t"
    ensures Matches(MARKED_SPACE, e) <==> Marked(e) && e.sep == " "
    ensures Matches(UNMARKED, e) <==> Unmarked(e)
  {
    SameIff(e.key, RECENT);
    SameIff(e.value, "1");
    SameIff(e.value, "0");
    hide Same;
  }

  lemma SomeFoundIff(p: Pattern, us: seq<User>)
    ensures FirstUser(p, us) < |us| <==>
      exists k, j :: 0 <= k < |us| && 0 <= j < |us[k].entries| && Matches(p, us[k].entries[j])
  {
    hide Matches;
    var k := FirstUser(p, us);
    if k < |us| {
      assert Matches(p, us[k].entries[FirstEntry(p, us[k].entries)]);
    } else {
      forall k, j | 0 <= k < |us| && 0 <= j < |us[k].entries| ensures !Matches(p, us[k].entries[j]) {
        assert FirstEntry(p, us[k].entries) == |us[k].entries|;
      }
    }
  }

  lemma SomeMarkedIff(f: File)
    ensures SomeMarked(f) <==>
      FirstUser(MARKED_TABS, f.users) < |f.users| || FirstUser(MARKED_SPACE, f.users) < |f.users|
  {
    hide FirstUser, Marked, Matches;
    SomeFoundIff(MARKED_TABS, f.users);
    SomeFoundIff(MARKED_SPACE, f.users);
    forall e: Entry
      ensures Marked(e) <==> Matches(MARKED_TABS, e) || Matches(MARKED_SPACE, e)
    {
      MarkedIff(e);
    }
  }

  lemma MarkedIff(e: Entry)
    ensures Marked(e) <==> Matches(MARKED_TABS, e) || Matches(MARKED_SPACE, e)
  {
    hide Matches;
    MarkPatterns(e);
  }

  /** If nobody is marked, the first entry that says "0" says "1" afterwards, after two tabs, and
      nothing else changes. */
  lemma MarkFileMarks(f: File, k: nat, j: nat)
    requires !SomeMarked(f) && FirstUnmarked(f, k, j)
    ensures var (u, e) := (f.users[k], f.users[k].entries[j]);
            MarkFile(f) == File(f.head, f.users[k := User(u.lead, u.id, u.sep,
                                  u.entries[j := Entry(e.lead, "MostRecent", "\t\t", "1")], u.tail)], f.foot)
  {
    SomeMarkedIff(f);
    forall e: Entry ensures Matches(UNMARKED, e) <==> Unmarked(e) { MarkPatterns(e); }
    hide Matches, SomeMarked, FirstUser, FirstEntry;
    FirstUserIs(UNMARKED, f.users, k, j);
  }

  /** If somebody is marked, or no entry says "0", nothing changes. */
  lemma MarkFileKeeps(f: File)
    requires SomeMarked(f)
      || forall k, j :: 0 <= k < |f.users| && 0 <= j < |f.users[k].entries| ==> !Unmarked(f.users[k].entries[j])
    ensures MarkFile(f) == f
  {
    SomeMarkedIff(f);
    SomeFoundIff(UNMARKED, f.users);
    forall e: Entry ensures Matches(UNMARKED, e) <==> Unmarked(e) { MarkPatterns(e); }
    hide Matches, SomeMarked, Unmarked, FirstUser, FirstEntry;
  }

  lemma NoneFirst(p: Pattern, es: seq<Entry>)
    requires forall i :: 0 <= i < |es| ==> !Matches(p, es[i])
    ensures FirstEntry(p, es) == |es|
  {
    hide Matches;
  }

  lemma FirstUserIs(p: Pattern, us: seq<User>, k: nat, j: nat)
    requires k < |us| && j < |us[k].entries| && Matches(p, us[k].entries[j])
    requires forall i :: 0 <= i < j ==> !Matches(p, us[k].entries[i])
    requires forall l, i :: 0 <= l < k && 0 <= i < |us[l].entries| ==> !Matches(p, us[l].entries[i])
    ensures FirstUser(p, us) == k && FirstEntry(p, us[k].entries) == j
  {
    hide Matches;
    FirstEntryIs(p, us[k].entries, j);
    forall l | 0 <= l < k ensures FirstEntry(p, us[l].entries) == |us[l].entries| { NoneFirst(p, us[l].entries); }
  }

  // ---- The case of the account name ---------------------------------------------------------------

  /** The entry looked for is the account name of the user, both in any case. */
  lemma AccountMatchesIff(user: string, e: Entry)
    ensures Matches(AccountPattern(user), e)
       <==> CaseVariant(e.key, "AccountName") && CaseVariant(e.value, user)
  {
    SameIff(e.key, ACCOUNT);
    SameIff(e.value, user);
    hide Same, CaseVariant;
  }

  /** So the case in which the user name is stored makes no difference, on any text. */
  lemma CaseMakesNoDifference(content: string, a: string, b: string)
    requires CaseVariant(a, b)
    ensures RepairText(content, a) == RepairText(content, b)
  {
    SearchVariants(ACCOUNT, a, b, content);
    hide Search, RepairAround, RepairUnnamed;
  }

  // ---- Repairing twice ----------------------------------------------------------------------------

  lemma SetAgain(u: User, key: string, value: string, insert: bool)
    requires FieldSet(u, key, value, insert)
    ensures SetUser(u, key, value, insert) == u
  {
    if HasKey(u.entries, key) {
      assert SetAll(u.entries, key, value) == u.entries;
    }
  }

  lemma RepairUserAgain(u: User)
    ensures RepairUser(RepairUser(u)) == RepairUser(u)
  {
    RepairUserSets(u);
    var v := RepairUser(u);
    hide SetUser, FieldSet, OnlyOurs;
    SetAgain(v, RECENT, "1", true);
    SetAgain(v, REMEMBER, "1", true);
    SetAgain(v, OFFLINE, "0", false);
  }

  /** The account name is no field of ours, so the same entry of a repaired user still matches
      first; and the fields of ours have no braces, so it stays enclosed. */
  lemma AccountStays(u: User, user: string)
    requires FirstEntry(AccountPattern(user), u.entries) < |u.entries|
    ensures var (j, v) := (FirstEntry(AccountPattern(user), u.entries), RepairUser(u));
            && FirstEntry(AccountPattern(user), v.entries) == j < |v.entries|
            && (Enclosed(u, j) ==> Enclosed(v, j))
  {
    var p := AccountPattern(user);
    var j := FirstEntry(p, u.entries);
    RepairUserSets(u);
    var v := RepairUser(u);
    forall i | 0 <= i < |v.entries| ensures KeptOrOurs(p, u, v, i) { EachKeptOrOurs(p, u, v, i); }
    hide RepairUser, Same, AllSet, OnlyOurs, Matches, Enclosed, OurKey;
    assert KeptOrOurs(p, u, v, j);
    forall i | 0 <= i < j ensures !Matches(p, v.entries[i]) { assert KeptOrOurs(p, u, v, i); }
    FirstEntryIs(p, v.entries, j);
    if Enclosed(u, j) { EnclosedStays(u, v, j); }
  }

  lemma FirstEntryIs(p: Pattern, es: seq<Entry>, j: nat)
    requires j < |es| && Matches(p, es[j]) && forall i :: 0 <= i < j ==> !Matches(p, es[i])
    ensures FirstEntry(p, es) == j
  {
    hide Matches;
  }

  /** Entry `i` is as it was, or it does not match and did not. */
  predicate KeptOrOurs(p: Pattern, u: User, v: User, i: nat)
    requires i < |v.entries|
  {
    || (i < |u.entries| && v.entries[i] == u.entries[i])
    || (!Matches(p, v.entries[i]) && (i < |u.entries| ==> !Matches(p, u.entries[i])))
  }

  lemma EachKeptOrOurs(p: Pattern, u: User, v: User, i: nat)
    requires OnlyOurs(u, v) && i < |v.entries| && p.key == ACCOUNT && p.fold
    ensures KeptOrOurs(p, u, v, i)
  {
    hide Same;
    if OurKey(v.entries[i].key) && Same(v.entries[i].key, ACCOUNT, true) { NotOurKey(v.entries[i].key); }
  }

  lemma EnclosedStays(u: User, v: User, j: nat)
    requires OnlyOurs(u, v) && AllSet(v) && j < |u.entries| && Enclosed(u, j)
    ensures Enclosed(v, j)
  {
    hide Free, OurKey, FieldSet, AllSet, Enclosed, EntriesFree;
    forall i | 0 <= i < |v.entries|
      ensures i < j ==> EntryFree('{', v.entries[i])
      ensures i >= j ==> EntryFree('}', v.entries[i])
    {
      if OurKey(v.entries[i].key) {
        OursFree(v, i);
      } else {
        EnclosedAt(u, j, i);
      }
    }
    EnclosedIf(v, j);
  }

  lemma OursFree(v: User, i: nat)
    requires AllSet(v) && i < |v.entries| && OurKey(v.entries[i].key)
    ensures EntryFree('{', v.entries[i]) && EntryFree('}', v.entries[i])
  {
    hide HasKey;
  }

  lemma EnclosedAt(u: User, j: nat, i: nat)
    requires j <= |u.entries| && i < |u.entries| && Enclosed(u, j)
    ensures i < j ==> EntryFree('{', u.entries[i])
    ensures i >= j ==> EntryFree('}', u.entries[i])
  {
    hide EntryFree;
    if i < j { assert u.entries[..j][i] == u.entries[i]; } else { assert u.entries[j..][i - j] == u.entries[i]; }
  }

  lemma EnclosedIf(v: User, j: nat)
    requires j <= |v.entries|
    requires forall i :: 0 <= i < j ==> EntryFree('{', v.entries[i])
    requires forall i :: j <= i < |v.entries| ==> EntryFree('}', v.entries[i])
    ensures Enclosed(v, j)
  {
    hide EntryFree;
  }

  lemma NotOurKey(key: string)
    requires Same(key, ACCOUNT, true)
    ensures !OurKey(key)
  {
    assert |ACCOUNT| == 11 && |RECENT| == 10 && |REMEMBER| == 16 && |OFFLINE| == 16;
  }

  /** The first match stays first when its user is replaced by another match. */
  lemma {:induction false} FirstUserStays(p: Pattern, us: seq<User>, v: User)
    requires FirstUser(p, us) < |us| && FirstEntry(p, v.entries) < |v.entries|
    ensures FirstUser(p, us[FirstUser(p, us) := v]) == FirstUser(p, us)
  {
    hide FirstEntry;
    var k := FirstUser(p, us);
    if k > 0 {
      FirstUserStays(p, us[1..], v);
      assert us[k := v][1..] == us[1..][k - 1 := v];
    }
  }

  lemma RepairFileAgain(f: File, user: string)
    ensures RepairFile(RepairFile(f, user), user) == RepairFile(f, user)
  {
    hide FirstUser, FirstEntry, RepairUser;
    var p := AccountPattern(user);
    var k := FirstUser(p, f.users);
    if k < |f.users| {
      AccountStays(f.users[k], user);
      FirstUserStays(p, f.users, RepairUser(f.users[k]));
      RepairUserAgain(f.users[k]);
    }
  }

  /** Once somebody is marked nothing more happens. */
  lemma MarkFileAgain(f: File)
    ensures MarkFile(MarkFile(f)) == MarkFile(f)
  {
    var k := FirstUser(UNMARKED, f.users);
    if MarkFile(f) != f {
      var j := FirstEntry(UNMARKED, f.users[k].entries);
      MarkedMatches(f.users[k], j);
      var users := MarkFile(f).users;
      hide MarkFile, MarkUser, Matches;
      assert FirstEntry(MARKED_TABS, users[k].entries) < |users[k].entries|;
      assert FirstUser(MARKED_TABS, users) <= k;
      assert MarkFile(MarkFile(f)) == MarkFile(f) by { MarkedStays(MarkFile(f)); }
    }
  }

  lemma MarkedStays(f: File)
    requires FirstUser(MARKED_TABS, f.users) < |f.users|
    ensures MarkFile(f) == f
  {
  }

  lemma MarkedMatches(u: User, j: nat)
    requires j < |u.entries| && Matches(UNMARKED, u.entries[j])
    ensures Matches(MARKED_TABS, MarkUser(u, j).entries[j])
    ensures FirstEntry(MARKED_TABS, MarkUser(u, j).entries) < |u.entries|
  {
    assert Matches(MARKED_TABS, MarkUser(u, j).entries[j]);
    hide Matches;
  }

  lemma EnclosingStays(f: File, user: string)
    requires Enclosing(f, user)
    ensures Enclosing(Repaired(f, user), user)
  {
    hide FirstUser, FirstEntry, RepairUser, Enclosed;
    var p := AccountPattern(user);
    var k := FirstUser(p, f.users);
    if user != "" && k < |f.users| {
      AccountStays(f.users[k], user);
      FirstUserStays(p, f.users, RepairUser(f.users[k]));
    }
  }

  /** Repairing is idempotent. */
  lemma RepairAgain(f: File, user: string)
    requires WellFormed(f) && QuoteFree(user) && Enclosing(f, user)
    ensures RepairText(RepairText(FileText(f), user), user) == RepairText(FileText(f), user)
  {
    hide RepairText, FileText, WellFormed, QuoteFree, RepairFile, MarkFile, Enclosing;
    EnclosingStays(f, user);
    RepairIsRecordUpdate(f, user);
    RepairIsRecordUpdate(Repaired(f, user), user);
    RepairFileAgain(f, user);
    MarkFileAgain(f);
  }

  // ---- The routine --------------------------------------------------------------------------------

  /** Characters with a meaning of their own in a regular expression are not literal. */
  predicate Literal(c: char) { c !in "^$\\.*+?()[]{}|" }

  /** The part between reading and writing the file: false for an empty file. The user name
      becomes part of a regular expression; here it stands for itself. A well-formed file is
      written back with its records updated, and such a file is left as it is. */
  method RepairLoginUsersVdf(content: string, autoUser: string) returns (ok: bool, written: string)
    requires forall i :: 0 <= i < |autoUser| ==> Literal(autoUser[i])
    ensures ok == (content != "")
    ensures !ok ==> written == content
    ensures ok ==> written == RepairText(content, autoUser)
    ensures ok && QuoteFree(autoUser) ==>
      forall f :: WellFormed(f) && Enclosing(f, autoUser) && content == FileText(f) ==>
        written == FileText(Repaired(f, autoUser)) && RepairText(written, autoUser) == written
  {
    hide *;
    written := content;
    if written == "" { return false, written; }
    if autoUser != "" {
      written := EditNamed(written, autoUser);
    } else {
      written := EditUnnamed(written);
    }
    assert written == RepairText(content, autoUser) by { RepairTextIs(content, autoUser); }
    if QuoteFree(autoUser) {
      forall f | WellFormed(f) && Enclosing(f, autoUser) && content == FileText(f)
        ensures written == FileText(Repaired(f, autoUser)) && RepairText(written, autoUser) == written
      {
        RepairIsRecordUpdate(f, autoUser);
        RepairAgain(f, autoUser);
      }
    }
    return true, written;
  }

  lemma RepairTextIs(content: string, user: string)
    ensures RepairText(content, user) == if user != "" then RepairNamed(content, user) else RepairUnnamed(content)
  {
    hide RepairNamed, RepairUnnamed;
  }

  /** With an auto-login user: find the block, edit it three times, put it back. */
  method EditNamed(content: string, autoUser: string) returns (edited: string)
    ensures edited == RepairNamed(content, autoUser)
  {
    hide Search, RepairAround, AccountPattern;
    edited := content;
    var matchPos := Search(AccountPattern(autoUser), edited);
    if matchPos >= 0 {
      edited := EditAround(edited, matchPos);
    }
  }

  method EditAround(content: string, matchPos: nat) returns (edited: string)
    requires matchPos < |content|
    ensures edited == RepairAround(content, matchPos)
  {
    hide LastIndex, FirstIndex, RepairBlock, Spliced;
    edited := content;
    var blockStart := LastIndex(edited, '{', matchPos);
    var blockEnd := FirstIndex(edited, '}', matchPos);
    if blockStart >= 0 && blockEnd >= 0 && blockEnd > blockStart {
      var block := EditBlock(edited[blockStart..blockEnd + 1]);
      edited := Spliced(edited, blockStart, blockEnd, block);
    }
  }

  method EditBlock(text: string) returns (block: string)
    ensures block == RepairBlock(text)
  {
    hide SetField, SetUser, GoodUser, Text, BlockTokens;
    block := EditField(text, RECENT, "1", true);
    block := EditField(block, REMEMBER, "1", true);
    block := EditField(block, OFFLINE, "0", false);
  }

  method EditUnnamed(content: string) returns (edited: string)
    ensures edited == RepairUnnamed(content)
  {
    hide Search, ReplaceFirst, FieldText;
    edited := content;
    if Search(MARKED_TABS, edited) < 0 && Search(MARKED_SPACE, edited) < 0 {
      edited := ReplaceFirst(UNMARKED, edited, FieldText(RECENT, "1"));
    }
  }
}
