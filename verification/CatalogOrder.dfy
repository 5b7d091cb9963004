/** When the lookups made before cannot be noticed: resolution without memory, and that resolution with the lists in
    memory comes to the same where the files are settled. */
module CatalogOrder {
  import opened Common
  import opened CatalogUrn
  import opened CatalogRules
  import opened CatalogMemo

  // ---------- settled files ----------

  /** The preference that each file is always loaded with; None, or no entry, where it does not matter. */
  type Choice = map<string, Option<bool>>

  function ChoiceOf(choice: Choice, u: string): Option<bool>
  {
    if u in choice then choice[u] else None
  }

  /** A loader of file v with preference p, None when that preference does not matter either. */
  predicate Fits(choice: Choice, v: string, p: Option<bool>)
  {
    ChoiceOf(choice, v).None? || ChoiceOf(choice, v) == p
  }

  function Preference(choice: Choice, u: string, r: Raw): Option<bool>
  {
    if r.prefer.Some? then r.prefer else ChoiceOf(choice, u)
  }

  /** A delegatePublic entry knows its preference. The file of a delegate that can be chosen is there, and the entry
      agrees with the other loaders of the file. */
  predicate EntrySettled(files: Files, choice: Choice, u: string, r: Raw)
  {
    var p := Preference(choice, u, r);
    match r.kind
    case DelegatePublic => p == Some(false) || (p == Some(true) && r.url in files && Fits(choice, r.url, p))
    case DelegateSystem => r.url in files && Fits(choice, r.url, p)
    case NextCatalog => r.url in files ==> Fits(choice, r.url, p)
    case _ => true
  }

  ghost predicate FilesSettled(files: Files, choice: Choice)
  {
    FilesOk(files) && forall u, i :: u in files && 0 <= i < |files[u]| ==> EntrySettled(files, choice, u, files[u][i])
  }

  ghost predicate Settled(files: Files, roots: seq<Root>, choice: Choice)
  {
    FilesSettled(files, choice)
    && forall k :: 0 <= k < |roots| && roots[k].url in files ==> Fits(choice, roots[k].url, Some(roots[k].preferPublic))
  }

  /** A delegate that some lookup can choose. */
  predicate Usable(r: Raw)
  {
    r.kind.DelegateSystem? || (r.kind.DelegatePublic? && r.prefer != Some(false))
  }

  ghost predicate DelegatesReadable(files: Files)
  {
    forall u, i :: u in files && 0 <= i < |files[u]| && Usable(files[u][i]) ==> files[u][i].url in files
  }

  /** Files are settled when each fixes the preference of its delegatePublic entries itself. */
  lemma OwnPreference(files: Files, roots: seq<Root>)
    requires FilesOk(files) && DelegatesReadable(files)
    requires forall u, i :: u in files && 0 <= i < |files[u]| && files[u][i].kind.DelegatePublic? ==> files[u][i].prefer.Some?
    ensures Settled(files, roots, map[])
  {
    forall u, i | u in files && 0 <= i < |files[u]| ensures EntrySettled(files, map[], u, files[u][i]) {
      var r := files[u][i];
      assert Usable(r) ==> r.url in files;
      assert r.prefer.Some? ==> r.prefer.value == true || r.prefer.value == false;
    }
  }

  /** They are also settled when only one preference occurs. */
  lemma OnePreference(files: Files, roots: seq<Root>, b: bool)
    requires FilesOk(files) && DelegatesReadable(files)
    requires forall u, i :: u in files && 0 <= i < |files[u]| ==> files[u][i].prefer in {None, Some(b)}
    requires forall k :: 0 <= k < |roots| ==> roots[k].preferPublic == b
    ensures Settled(files, roots, map u | u in files :: Some(b))
  {
    var choice: Choice := map u | u in files :: Some(b);
    forall u, i | u in files && 0 <= i < |files[u]| ensures EntrySettled(files, choice, u, files[u][i]) {
      var r := files[u][i];
      assert r.prefer == None || r.prefer == Some(b);
      assert Preference(choice, u, r) == Some(b) && (b == true || b == false);
      assert Usable(r) ==> r.url in files;
    }
  }

  /** A file says the same to every loader if and only if none of its delegatePublic entries inherits a preference. */
  lemma ReadsAlike(l: seq<Raw>)
    ensures (forall i, k: Kind, id :: 0 <= i < |l| ==> Delegates(ReadBy(l[i], true), k, id) == Delegates(ReadBy(l[i], false), k, id))
            <==> (forall i :: 0 <= i < |l| ==> !(l[i].kind.DelegatePublic? && l[i].prefer.None?))
  {
    if i :| 0 <= i < |l| && l[i].kind.DelegatePublic? && l[i].prefer.None? {
      assert Delegates(ReadBy(l[i], true), DelegatePublic, l[i].name) != Delegates(ReadBy(l[i], false), DelegatePublic, l[i].name);
    }
  }

  // ---------- resolution without memory ----------

  function PlainList(files: Files, choice: Choice, u: string): seq<Data>
    requires u in files
  {
    ReadAll(files[u], ChoiceOf(choice, u) != Some(false))
  }

  function Plain(files: Files, rank: map<string, nat>, choice: Choice, u: string, pub: Option<string>, sys: Option<string>): Answer
    requires u in files
    decreases RankOf(rank, u), 3, 0
  {
    PlainFollow(files, rank, choice, u, LocalOf(PlainList(files, choice, u), pub, sys), pub, sys)
  }

  function PlainFollow(files: Files, rank: map<string, nat>, choice: Choice, u: string, local: Local,
                       pub: Option<string>, sys: Option<string>): Answer
    requires u in files
    decreases RankOf(rank, u), 2, 0
  {
    match local
    case Decided(a) => a
    case TryDelegates(k, id) => PlainDelegates(files, rank, choice, u, 0, k, id)
    case TryNext => PlainNext(files, rank, choice, u, 0, pub, sys)
    case GiveUp => NotFound
  }

  /** A file that is not there, like one without an answer, is passed over. */
  function PlainEntry(files: Files, rank: map<string, nat>, choice: Choice, u: string, i: nat, pub: Option<string>, sys: Option<string>)
    : Answer
    requires u in files && i < |files[u]|
    decreases RankOf(rank, u), 0, 0
  {
    var v := files[u][i].url;
    if v in files && Below(rank, v, u) then PlainFile(files, rank, choice, v, pub, sys) else NotFound
  }

  function PlainDelegates(files: Files, rank: map<string, nat>, choice: Choice, u: string, i: nat, k: Kind, id: string): Answer
    requires u in files && i <= |files[u]|
    decreases RankOf(rank, u), 1, |files[u]| - i
  {
    if i == |files[u]| then Break
    else
      var a := if Delegates(PlainList(files, choice, u)[i], k, id)
               then PlainEntry(files, rank, choice, u, i, DelegatedPublic(k, id), DelegatedSystem(k, id)) else NotFound;
      if a != NotFound then a else PlainDelegates(files, rank, choice, u, i + 1, k, id)
  }

  function PlainNext(files: Files, rank: map<string, nat>, choice: Choice, u: string, i: nat, pub: Option<string>, sys: Option<string>)
    : Answer
    requires u in files && i <= |files[u]|
    decreases RankOf(rank, u), 1, |files[u]| - i
  {
    if i == |files[u]| then NotFound
    else
      var a := if files[u][i].kind.NextCatalog? then PlainEntry(files, rank, choice, u, i, pub, sys) else NotFound;
      if a != NotFound then a else PlainNext(files, rank, choice, u, i + 1, pub, sys)
  }

  function PlainFile(files: Files, rank: map<string, nat>, choice: Choice, u: string, pub: Option<string>, sys: Option<string>): Answer
    requires u in files
    decreases RankOf(rank, u), 4, 0
  {
    match Effective(pub, sys)
    case Nothing => NotFound
    case Lookup(p, s) => Plain(files, rank, choice, u, p, s)
  }

  function PlainRoots(files: Files, rank: map<string, nat>, choice: Choice, roots: seq<Root>, i: nat, ids: Identifiers): Answer
    decreases |roots| - i
  {
    if ids.Nothing? || i >= |roots| then NotFound
    else
      var a := if roots[i].url in files then Plain(files, rank, choice, roots[i].url, ids.pub, ids.sys) else NotFound;
      if a != NotFound then a else PlainRoots(files, rank, choice, roots, i + 1, ids)
  }

  // ---------- what it answers, entry by entry ----------

  /** Which entries are asked: delegates for an identifier, or further catalogs. */
  datatype Asked = Systems(id: string) | Publics(id: string) | Nexts

  predicate IsAsked(e: Data, asked: Asked)
  {
    match asked
    case Systems(id) => Covers(e, DelegateSystem, id)
    case Publics(id) => Covers(e, DelegatePublic, id) && e.preferPublic
    case Nexts => e.kind.NextCatalog?
  }

  /** The file of entry j has no answer. */
  predicate Silent(files: Files, rank: map<string, nat>, choice: Choice, u: string, j: nat, pub: Option<string>, sys: Option<string>)
    requires u in files && j < |files[u]|
  {
    PlainEntry(files, rank, choice, u, j, pub, sys) == NotFound
  }

  /** a is the answer of the first of the entries asked, from n on, that has one; `otherwise` when none has. */
  ghost predicate AnswerOfFirst(files: Files, rank: map<string, nat>, choice: Choice, u: string, n: nat, pub: Option<string>,
                                sys: Option<string>, asked: Asked, otherwise: Answer, a: Answer)
    requires u in files
  {
    var l := PlainList(files, choice, u);
    && ((forall j :: n <= j < |l| && IsAsked(l[j], asked) ==> Silent(files, rank, choice, u, j, pub, sys)) ==> a == otherwise)
    && forall i :: n <= i < |l| && IsAsked(l[i], asked) && !Silent(files, rank, choice, u, i, pub, sys)
                   && (forall j :: n <= j < i && IsAsked(l[j], asked) ==> Silent(files, rank, choice, u, j, pub, sys)) ==>
                     a == PlainEntry(files, rank, choice, u, i, pub, sys)
  }

  lemma OneMoreAsked(files: Files, rank: map<string, nat>, choice: Choice, u: string, n: nat, pub: Option<string>,
                     sys: Option<string>, asked: Asked, otherwise: Answer, a: Answer)
    requires u in files && n < |files[u]|
    requires if IsAsked(PlainList(files, choice, u)[n], asked) && !Silent(files, rank, choice, u, n, pub, sys)
             then a == PlainEntry(files, rank, choice, u, n, pub, sys)
             else AnswerOfFirst(files, rank, choice, u, n + 1, pub, sys, asked, otherwise, a)
    ensures AnswerOfFirst(files, rank, choice, u, n, pub, sys, asked, otherwise, a)
  {
    hide PlainEntry, Silent, IsAsked;
  }

  lemma NoMoreAsked(files: Files, rank: map<string, nat>, choice: Choice, u: string, pub: Option<string>,
                    sys: Option<string>, asked: Asked, otherwise: Answer)
    requires u in files
    ensures AnswerOfFirst(files, rank, choice, u, |files[u]|, pub, sys, asked, otherwise, otherwise)
  {
    hide PlainEntry, Silent, IsAsked;
  }

  lemma {:induction false} NextIsFirst(files: Files, rank: map<string, nat>, choice: Choice, u: string, n: nat,
                                       pub: Option<string>, sys: Option<string>)
    requires u in files && n <= |files[u]|
    ensures AnswerOfFirst(files, rank, choice, u, n, pub, sys, Nexts, NotFound, PlainNext(files, rank, choice, u, n, pub, sys))
    decreases |files[u]| - n
  {
    hide PlainEntry, AnswerOfFirst;
    if n < |files[u]| {
      NextIsFirst(files, rank, choice, u, n + 1, pub, sys);
      OneMoreAsked(files, rank, choice, u, n, pub, sys, Nexts, NotFound, PlainNext(files, rank, choice, u, n, pub, sys));
    } else {
      NoMoreAsked(files, rank, choice, u, pub, sys, Nexts, NotFound);
    }
  }

  lemma {:induction false} DelegateIsFirst(files: Files, rank: map<string, nat>, choice: Choice, u: string, n: nat, asked: Asked)
    requires u in files && n <= |files[u]| && !asked.Nexts?
    ensures var k := if asked.Systems? then DelegateSystem else DelegatePublic;
      var pub, sys := if asked.Systems? then None else Some(asked.id), if asked.Systems? then Some(asked.id) else None;
      AnswerOfFirst(files, rank, choice, u, n, pub, sys, asked, Break, PlainDelegates(files, rank, choice, u, n, k, asked.id))
    decreases |files[u]| - n
  {
    hide PlainEntry, AnswerOfFirst;
    var k := if asked.Systems? then DelegateSystem else DelegatePublic;
    var pub, sys := if asked.Systems? then None else Some(asked.id), if asked.Systems? then Some(asked.id) else None;
    if n < |files[u]| {
      DelegateIsFirst(files, rank, choice, u, n + 1, asked);
      OneMoreAsked(files, rank, choice, u, n, pub, sys, asked, Break, PlainDelegates(files, rank, choice, u, n, k, asked.id));
    } else {
      NoMoreAsked(files, rank, choice, u, pub, sys, asked, Break);
    }
  }

  /** The answer of a file, case by case: its own answer; else that of the first system delegate that has one, asked
      about the system identifier only, or a break; else the same with the public delegates and the public identifier;
      else that of the first further catalog that has one, asked about both. */
  lemma PlainSpelledOut(files: Files, rank: map<string, nat>, choice: Choice, u: string, pub: Option<string>, sys: Option<string>)
    requires u in files && (pub.Some? || sys.Some?)
    ensures var a, l := Plain(files, rank, choice, u, pub, sys), PlainList(files, choice, u);
      && (forall uri :: AnswersAlone(l, pub, sys, uri) ==> a == Uri(uri))
      && (sys.Some? && NoMatch(l, System, sys.value) && NoRule(l, sys.value) && !NoDelegateFor(l, sys.value) ==>
            AnswerOfFirst(files, rank, choice, u, 0, None, sys, Systems(sys.value), Break, a))
      && (pub.Some? && NothingForSystem(l, sys) && NoMatch(l, Public, pub.value) && !NoPublicDelegateFor(l, pub.value) ==>
            AnswerOfFirst(files, rank, choice, u, 0, pub, None, Publics(pub.value), Break, a))
      && (NothingForSystem(l, sys) && NothingForPublic(l, pub) ==>
            AnswerOfFirst(files, rank, choice, u, 0, pub, sys, Nexts, NotFound, a))
  {
    hide LocalOf, AnswersAlone, PlainEntry, PlainDelegates, PlainNext, NoMatch, NoRule, NoDelegateFor, NoPublicDelegateFor,
         NothingForSystem, NothingForPublic, PlainList, AnswerOfFirst;
    var l := PlainList(files, choice, u);
    LocalSpelledOut(l, pub, sys);
    if sys.Some? {
      DelegateIsFirst(files, rank, choice, u, 0, Systems(sys.value));
    }
    if pub.Some? {
      DelegateIsFirst(files, rank, choice, u, 0, Publics(pub.value));
    }
    NextIsFirst(files, rank, choice, u, 0, pub, sys);
    NoNexts(files, rank, choice, u, pub, sys);
  }

  /** Without further catalogs there is nothing to ask. */
  lemma NoNexts(files: Files, rank: map<string, nat>, choice: Choice, u: string, pub: Option<string>, sys: Option<string>)
    requires u in files
    ensures var l := PlainList(files, choice, u);
      !(exists j :: 0 <= j < |l| && l[j].kind.NextCatalog?) ==> AnswerOfFirst(files, rank, choice, u, 0, pub, sys, Nexts, NotFound, NotFound)
  {
    hide PlainEntry;
  }

  // ---------- lists in memory that agree with the choice ----------

  /** As it was read, or a nextCatalog entry whose file is missing. */
  predicate Agrees(files: Files, c: Option<bool>, r: Raw, d: Data)
  {
    && d.name == r.name && d.url == r.url
    && (d.kind == r.kind || (r.kind.NextCatalog? && d.kind.Broken? && r.url !in files))
    && (r.prefer.Some? ==> d.preferPublic == r.prefer.value)
    && (r.prefer.None? && c.Some? ==> d.preferPublic == c.value)
  }

  ghost predicate ListAgrees(files: Files, choice: Choice, u: string, l: seq<Data>)
  {
    u in files && |l| == |files[u]|
    && forall i :: 0 <= i < |l| ==> Agrees(files, ChoiceOf(choice, u), files[u][i], l[i])
  }

  ghost predicate Consistent(files: Files, choice: Choice, m: Loaded)
  {
    forall u :: u in m ==> ListAgrees(files, choice, u, m[u])
  }

  /** What the two kinds of resolution share. */
  ghost predicate Setting(files: Files, rank: map<string, nat>, choice: Choice, m: Loaded)
  {
    Acyclic(files, rank) && FilesSettled(files, choice) && Consistent(files, choice, m)
  }

  ghost predicate Keeps(files: Files, choice: Choice, m: Loaded, m': Loaded)
  {
    Consistent(files, choice, m') && m.Keys <= m'.Keys
  }

  lemma Loading(files: Files, choice: Choice, m: Loaded, v: string, preferPublic: bool)
    requires Consistent(files, choice, m) && Fits(choice, v, Some(preferPublic))
    ensures Keeps(files, choice, m, OpenFile(files, m, v, preferPublic))
  {}

  lemma OpeningEntry(files: Files, choice: Choice, m: Loaded, u: string, i: nat)
    requires FilesSettled(files, choice) && Consistent(files, choice, m) && IsEntry(m, u, i)
    requires RefersToFile(m[u][i].kind) && (m[u][i].kind.DelegatePublic? ==> m[u][i].preferPublic)
    ensures Keeps(files, choice, m, Opened(files, m, u, i))
    ensures m[u][i].url in Opened(files, m, u, i) <==> files[u][i].url in files
  {
    var e, r := m[u][i], files[u][i];
    assert ListAgrees(files, choice, u, m[u]) && Agrees(files, ChoiceOf(choice, u), r, e);
    assert EntrySettled(files, choice, u, r);
    if e.url in files {
      Loading(files, choice, m, e.url, e.preferPublic);
    } else {
      assert forall j :: 0 <= j < |m[u]| ==> Agrees(files, ChoiceOf(choice, u), files[u][j], m[u][j]);
    }
  }

  // ---------- one list ----------

  /** For a lookup the two entries are the same, except that a nextCatalog entry may be broken. */
  predicate Resembles(d: Data, e: Data)
  {
    d.name == e.name && d.url == e.url && (d.kind == e.kind || (d.kind.Broken? && e.kind.NextCatalog?))
    && (e.kind.DelegatePublic? ==> d.preferPublic == e.preferPublic)
  }

  ghost predicate ListsResemble(l: seq<Data>, l': seq<Data>)
  {
    |l| == |l'| && forall i :: 0 <= i < |l| ==> Resembles(l[i], l'[i])
  }

  lemma InMemory(files: Files, choice: Choice, m: Loaded, u: string)
    requires FilesSettled(files, choice) && Consistent(files, choice, m) && u in m
    ensures u in files && ListsResemble(m[u], PlainList(files, choice, u))
  {
    assert ListAgrees(files, choice, u, m[u]);
    forall i | 0 <= i < |m[u]| ensures Resembles(m[u][i], PlainList(files, choice, u)[i]) {
      assert EntrySettled(files, choice, u, files[u][i]);
    }
  }

  lemma {:induction false} SameFirst(l: seq<Data>, l': seq<Data>, i: nat, k: Kind, id: string)
    requires ListsResemble(l, l') && i <= |l| && !k.NextCatalog? && !k.Broken?
    ensures First(l, i, k, id) == First(l', i, k, id)
    decreases |l| - i
  {
    if i < |l| {
      assert Resembles(l[i], l'[i]);
      SameFirst(l, l', i + 1, k, id);
    }
  }

  lemma {:induction false} SameRewrite(l: seq<Data>, l': seq<Data>, n: nat, sys: string)
    requires ListsResemble(l, l') && n <= |l|
    ensures Rewrite(l, n, sys) == Rewrite(l', n, sys)
  {
    if n > 0 {
      assert Resembles(l[n - 1], l'[n - 1]);
      SameRewrite(l, l', n - 1, sys);
    }
  }

  lemma SameDelegates(l: seq<Data>, l': seq<Data>, k: Kind, id: string)
    requires ListsResemble(l, l') && (k.DelegatePublic? || k.DelegateSystem?)
    ensures HasDelegate(l, |l|, k, id) == HasDelegate(l', |l'|, k, id)
  {
    forall i | 0 <= i < |l| ensures Delegates(l[i], k, id) == Delegates(l'[i], k, id) {
      assert Resembles(l[i], l'[i]);
    }
  }

  /** Both lists decide alike, except that one whose nextCatalog entries are all broken gives up at once. */
  lemma SameDecision(l: seq<Data>, l': seq<Data>, pub: Option<string>, sys: Option<string>)
    requires ListsResemble(l, l')
    ensures LocalOf(l, pub, sys) == LocalOf(l', pub, sys)
            || (LocalOf(l, pub, sys).GiveUp? && LocalOf(l', pub, sys).TryNext? && !HasNext(l, |l|))
  {
    hide First, Rewrite, HasDelegate, HasNext;
    if sys.Some? {
      SameSystem(l, l', sys.value);
    }
    if pub.Some? {
      SamePublic(l, l', pub.value);
    }
    NextResembles(l, l');
  }

  lemma NextResembles(l: seq<Data>, l': seq<Data>)
    requires ListsResemble(l, l')
    ensures HasNext(l, |l|) ==> HasNext(l', |l'|)
  {
    if j :| 0 <= j < |l| && l[j].kind.NextCatalog? {
      assert Resembles(l[j], l'[j]);
    }
  }

  lemma SameSystem(l: seq<Data>, l': seq<Data>, sys: string)
    requires ListsResemble(l, l')
    ensures LocalSystem(l, sys) == LocalSystem(l', sys)
  {
    hide HasDelegate;
    SameFirst(l, l', 0, System, sys);
    SameRewrite(l, l', |l|, sys);
    SameDelegates(l, l', DelegateSystem, sys);
    assert forall i :: 0 <= i < |l| ==> Resembles(l[i], l'[i]);
  }

  lemma SamePublic(l: seq<Data>, l': seq<Data>, pub: string)
    requires ListsResemble(l, l')
    ensures LocalPublic(l, pub) == LocalPublic(l', pub)
  {
    hide HasDelegate;
    SameFirst(l, l', 0, Public, pub);
    SameDelegates(l, l', DelegatePublic, pub);
    assert forall i :: 0 <= i < |l| ==> Resembles(l[i], l'[i]);
  }

  // ---------- the refinement ----------

  ghost predicate Same(files: Files, choice: Choice, m: Loaded, o: Outcome, a: Answer)
  {
    o.answer == a && Keeps(files, choice, m, o.memo)
  }

  lemma {:induction false} ResolveRefines(files: Files, rank: map<string, nat>, choice: Choice, m: Loaded, u: string,
                                          pub: Option<string>, sys: Option<string>)
    requires Setting(files, rank, choice, m) && u in m
    ensures u in files && Same(files, choice, m, Resolve(files, rank, m, u, pub, sys), Plain(files, rank, choice, u, pub, sys))
    decreases RankOf(rank, u), 3, 0
  {
    hide LocalOf;
    InMemory(files, choice, m, u);
    var l, l' := m[u], PlainList(files, choice, u);
    SameDecision(l, l', pub, sys);
    LocalKind(l, pub, sys);
    var local := LocalOf(l, pub, sys);
    if local == LocalOf(l', pub, sys) {
      FollowRefines(files, rank, choice, m, u, local, pub, sys);
    } else {
      NoNextLeft(files, rank, choice, m, u, 0, pub, sys);
    }
  }

  lemma LocalKind(l: seq<Data>, pub: Option<string>, sys: Option<string>)
    ensures LocalOf(l, pub, sys).TryDelegates? ==> IsDelegateKind(LocalOf(l, pub, sys).kind)
  {}

  /** All nextCatalog entries are broken: no file is there to ask. */
  lemma {:induction false} NoNextLeft(files: Files, rank: map<string, nat>, choice: Choice, m: Loaded, u: string, i: nat,
                                      pub: Option<string>, sys: Option<string>)
    requires Consistent(files, choice, m) && u in m && u in files && i <= |files[u]| && !HasNext(m[u], |m[u]|)
    ensures PlainNext(files, rank, choice, u, i, pub, sys) == NotFound
    decreases |files[u]| - i
  {
    assert ListAgrees(files, choice, u, m[u]);
    if i < |files[u]| {
      assert Agrees(files, ChoiceOf(choice, u), files[u][i], m[u][i]);
      NoNextLeft(files, rank, choice, m, u, i + 1, pub, sys);
    }
  }

  lemma {:induction false} FollowRefines(files: Files, rank: map<string, nat>, choice: Choice, m: Loaded, u: string, local: Local,
                                         pub: Option<string>, sys: Option<string>)
    requires Setting(files, rank, choice, m) && u in m && u in files
    requires local.TryDelegates? ==> IsDelegateKind(local.kind)
    ensures Same(files, choice, m, Follow(files, rank, m, u, local, pub, sys),
                 PlainFollow(files, rank, choice, u, local, pub, sys))
    decreases RankOf(rank, u), 2, 0
  {
    match local
    case Decided(_) =>
    case TryDelegates(k, id) => DelegatesRefine(files, rank, choice, m, u, 0, [], k, id);
    case TryNext => NextRefines(files, rank, choice, m, u, 0, pub, sys);
    case GiveUp =>
  }

  predicate IsDelegateKind(k: Kind)
  {
    k.DelegatePublic? || k.DelegateSystem?
  }

  lemma {:induction false} EntryRefines(files: Files, rank: map<string, nat>, choice: Choice, m: Loaded, u: string, i: nat,
                                        pub: Option<string>, sys: Option<string>)
    requires Setting(files, rank, choice, m) && IsEntry(m, u, i)
    requires RefersToFile(m[u][i].kind) && (m[u][i].kind.DelegatePublic? ==> m[u][i].preferPublic)
    ensures u in files && i < |files[u]|
    ensures Same(files, choice, m, AskEntry(files, rank, m, u, i, pub, sys), PlainEntry(files, rank, choice, u, i, pub, sys))
    decreases RankOf(rank, u), 0, 0
  {
    assert ListAgrees(files, choice, u, m[u]) && Agrees(files, ChoiceOf(choice, u), files[u][i], m[u][i]);
    OpeningEntry(files, choice, m, u, i);
    var v, m' := m[u][i].url, Opened(files, m, u, i);
    if v in m' && Below(rank, v, u) {
      FileRefines(files, rank, choice, m', v, pub, sys);
    }
  }

  lemma {:induction false} FileRefines(files: Files, rank: map<string, nat>, choice: Choice, m: Loaded, u: string,
                                       pub: Option<string>, sys: Option<string>)
    requires Setting(files, rank, choice, m) && u in m
    ensures u in files
    ensures Same(files, choice, m, ResolveFile(files, rank, m, u, pub, sys), PlainFile(files, rank, choice, u, pub, sys))
    decreases RankOf(rank, u), 4, 0
  {
    assert ListAgrees(files, choice, u, m[u]);
    match Effective(pub, sys)
    case Nothing =>
    case Lookup(p, s) => ResolveRefines(files, rank, choice, m, u, p, s);
  }

  lemma {:induction false} NextRefines(files: Files, rank: map<string, nat>, choice: Choice, m: Loaded, u: string, i: nat,
                                       pub: Option<string>, sys: Option<string>)
    requires Setting(files, rank, choice, m) && u in m && u in files && i <= |files[u]|
    ensures Same(files, choice, m, AskNext(files, rank, m, u, i, pub, sys), PlainNext(files, rank, choice, u, i, pub, sys))
    decreases RankOf(rank, u), 1, |files[u]| - i
  {
    hide AskEntry, PlainEntry;
    assert ListAgrees(files, choice, u, m[u]);
    if i < |files[u]| {
      assert Agrees(files, ChoiceOf(choice, u), files[u][i], m[u][i]);
      if m[u][i].kind.NextCatalog? {
        var o := AskEntry(files, rank, m, u, i, pub, sys);
        EntryRefines(files, rank, choice, m, u, i, pub, sys);
        if o.answer == NotFound {
          NextRefines(files, rank, choice, o.memo, u, i + 1, pub, sys);
        }
      } else {
        NextRefines(files, rank, choice, m, u, i + 1, pub, sys);
        BrokenIsPassed(files, rank, choice, m, u, i, pub, sys);
      }
    }
  }

  lemma BrokenIsPassed(files: Files, rank: map<string, nat>, choice: Choice, m: Loaded, u: string, i: nat,
                       pub: Option<string>, sys: Option<string>)
    requires u in files && u in m && ListAgrees(files, choice, u, m[u]) && i < |files[u]| && !m[u][i].kind.NextCatalog?
    ensures files[u][i].kind.NextCatalog? ==> PlainEntry(files, rank, choice, u, i, pub, sys) == NotFound
  {
    assert Agrees(files, ChoiceOf(choice, u), files[u][i], m[u][i]);
  }

  /** The delegates tried before have no answer, so leaving them out changes nothing. */
  ghost predicate Fruitless(files: Files, rank: map<string, nat>, choice: Choice, tried: seq<string>, k: Kind, id: string)
  {
    forall v :: v in tried ==>
      v in files && PlainFile(files, rank, choice, v, DelegatedPublic(k, id), DelegatedSystem(k, id)) == NotFound
  }

  lemma {:induction false} DelegatesRefine(files: Files, rank: map<string, nat>, choice: Choice, m: Loaded, u: string, i: nat,
                                           tried: seq<string>, k: Kind, id: string)
    requires Setting(files, rank, choice, m) && u in m && u in files && i <= |files[u]| && IsDelegateKind(k)
    requires Fruitless(files, rank, choice, tried, k, id)
    ensures Same(files, choice, m, AskDelegates(files, rank, m, u, i, tried, k, id),
                 PlainDelegates(files, rank, choice, u, i, k, id))
    decreases RankOf(rank, u), 1, |files[u]| - i
  {
    hide AskEntry, PlainFile, PlainList, Delegates;
    assert ListAgrees(files, choice, u, m[u]);
    if i < |files[u]| {
      var pub, sys, v := DelegatedPublic(k, id), DelegatedSystem(k, id), files[u][i].url;
      SameDelegate(files, choice, m, u, i, k, id);
      if Delegates(m[u][i], k, id) {
        DelegateIsThere(files, rank, choice, m, u, i, k, id);
        if v !in tried {
          var o := AskEntry(files, rank, m, u, i, pub, sys);
          EntryRefines(files, rank, choice, m, u, i, pub, sys);
          if o.answer == NotFound {
            DelegatesRefine(files, rank, choice, o.memo, u, i + 1, Tried(tried, v), k, id);
          }
        } else {
          DelegatesRefine(files, rank, choice, m, u, i + 1, tried, k, id);
        }
      } else {
        DelegatesRefine(files, rank, choice, m, u, i + 1, tried, k, id);
      }
    }
  }

  lemma SameDelegate(files: Files, choice: Choice, m: Loaded, u: string, i: nat, k: Kind, id: string)
    requires FilesSettled(files, choice) && Consistent(files, choice, m) && IsEntry(m, u, i) && IsDelegateKind(k)
    ensures u in files && i < |files[u]| && m[u][i].url == files[u][i].url
    ensures Delegates(m[u][i], k, id) == Delegates(PlainList(files, choice, u)[i], k, id)
  {
    InMemory(files, choice, m, u);
    assert Resembles(m[u][i], PlainList(files, choice, u)[i]);
    assert ListAgrees(files, choice, u, m[u]) && Agrees(files, ChoiceOf(choice, u), files[u][i], m[u][i]);
  }

  lemma DelegateIsThere(files: Files, rank: map<string, nat>, choice: Choice, m: Loaded, u: string, i: nat, k: Kind, id: string)
    requires Setting(files, rank, choice, m) && IsEntry(m, u, i) && Delegates(m[u][i], k, id) && IsDelegateKind(k)
    ensures u in files && i < |files[u]| && files[u][i].url in files && Below(rank, files[u][i].url, u)
    ensures RefersToFile(m[u][i].kind) && (m[u][i].kind.DelegatePublic? ==> m[u][i].preferPublic)
  {
    assert ListAgrees(files, choice, u, m[u]) && Agrees(files, ChoiceOf(choice, u), files[u][i], m[u][i]);
    assert EntrySettled(files, choice, u, files[u][i]) && RefersDown(files, rank, u);
  }

  lemma OnlyFiles(files: Files, choice: Choice, m: Loaded)
    requires Consistent(files, choice, m)
    ensures m.Keys <= files.Keys
  {
    forall u | u in m ensures u in files {
      assert ListAgrees(files, choice, u, m[u]);
    }
  }

  lemma RootsRefine(files: Files, rank: map<string, nat>, choice: Choice, m: Loaded, roots: seq<Root>, i: nat, ids: Identifiers)
    requires Setting(files, rank, choice, m) && Settled(files, roots, choice)
    ensures Same(files, choice, m, ResolveRoots(files, rank, m, roots, i, ids), PlainRoots(files, rank, choice, roots, i, ids))
    decreases |roots| - i
  {
    hide Resolve, Plain;
    if ids.Lookup? && i < |roots| {
      var root := roots[i];
      var m' := OpenFile(files, m, root.url, root.preferPublic);
      if root.url in files {
        Loading(files, choice, m, root.url, root.preferPublic);
        ResolveRefines(files, rank, choice, m', root.url, ids.pub, ids.sys);
      } else {
        OnlyFiles(files, choice, m);
        NothingLoaded(files, rank, m, root.url, ids.pub, ids.sys);
      }
      RootsRefine(files, rank, choice, RootOutcome(files, rank, m, root, ids.pub, ids.sys).memo, roots, i + 1, ids);
    }
  }

  /** In settled files every request of a run is answered as without memory. */
  lemma {:induction false} RunRefines(files: Files, rank: map<string, nat>, choice: Choice, m: Loaded, roots: seq<Root>,
                                      requests: seq<Request>, n: nat)
    requires Setting(files, rank, choice, m) && Settled(files, roots, choice) && n <= |requests|
    ensures var r := Run(files, rank, m, roots, requests, n);
      && Keeps(files, choice, m, r.memo)
      && forall i :: 0 <= i < n ==>
           r.all[i] == PlainRoots(files, rank, choice, roots, 0, Effective(requests[i].0, requests[i].1))
  {
    hide ResolveRoots, PlainRoots, Effective;
    if n > 0 {
      RunRefines(files, rank, choice, m, roots, requests, n - 1);
      var before := Run(files, rank, m, roots, requests, n - 1);
      RootsRefine(files, rank, choice, before.memo, roots, 0, Effective(requests[n - 1].0, requests[n - 1].1));
    }
  }

  /** In settled files every request of a run is answered as if it were the only one and nothing had been loaded. */
  lemma OrderCannotBeNoticed(files: Files, rank: map<string, nat>, choice: Choice, m: Loaded, roots: seq<Root>,
                             requests: seq<Request>, i: nat)
    requires Acyclic(files, rank) && Settled(files, roots, choice) && Consistent(files, choice, m) && i < |requests|
    ensures Run(files, rank, m, roots, requests, |requests|).all[i]
            == ResolveRoots(files, rank, map[], roots, 0, Effective(requests[i].0, requests[i].1)).answer
  {
    hide ResolveRoots, PlainRoots, Effective, Run;
    RunRefines(files, rank, choice, m, roots, requests, |requests|);
    RootsRefine(files, rank, choice, map[], roots, 0, Effective(requests[i].0, requests[i].1));
  }

  // ---------- files that are not settled ----------

  lemma PlainIds()
    ensures Effective(None, Some("s")) == Lookup(None, Some("s"))
    ensures Effective(Some("x"), None) == Lookup(Some("x"), None)
  {
    OneCharacter('x');
    hide Effective, Normalized;
    EffectiveStep(None, Some("s"));
    EffectiveStep(Some("x"), None);
    assert |URN_PUBID| == 13;
  }

  lemma OneCharacter(c: char)
    requires !IsBlank(c)
    ensures Normalized([c]) == [c]
  {
    assert [c][..0] == "" && [c][0] == c && ScanOf("") == Scan("", false);
    assert ScanOf([c]) == Feed(ScanOf([c][..0]), c) == Scan([c], false);
  }

  /** A delegate without an answer ends the search. */
  function OrBreak(o: Outcome): Outcome
  {
    if o.answer == NotFound then Outcome(Break, o.memo) else o
  }

  lemma OneEntry(d: Data, pub: Option<string>, sys: Option<string>)
    requires d.kind in {DelegateSystem, DelegatePublic, NextCatalog, Public} && (pub.None? || sys.None?)
    ensures LocalOf([d], pub, sys) ==
      if d.kind.DelegateSystem? && sys.Some? && StartsWith(sys.value, d.name) then TryDelegates(DelegateSystem, sys.value)
      else if d.kind.DelegatePublic? && d.preferPublic && pub.Some? && StartsWith(pub.value, d.name) then TryDelegates(DelegatePublic, pub.value)
      else if d.kind.Public? && pub == Some(d.name) then Decided(Uri(d.url))
      else if d.kind.NextCatalog? && (pub.Some? || sys.Some?) then TryNext
      else GiveUp
  {
    if sys.Some? {
      assert First([d], 0, System, sys.value) == First([d], 1, System, sys.value) == 1;
      assert Rewrite([d], 1, sys.value) == Rewrite([d], 0, sys.value) == None;
      assert HasDelegate([d], 1, DelegateSystem, sys.value) == Delegates([d][0], DelegateSystem, sys.value);
    }
    if pub.Some? {
      assert First([d], 1, Public, pub.value) == 1;
      assert HasDelegate([d], 1, DelegatePublic, pub.value) == Delegates([d][0], DelegatePublic, pub.value);
    }
    assert HasNext([d], 1) == [d][0].kind.NextCatalog?;
  }

  lemma OneDelegate(files: Files, rank: map<string, nat>, m: Loaded, u: string, k: Kind, id: string)
    requires u in files && |files[u]| == 1 && u in m && |m[u]| == 1 && Delegates(m[u][0], k, id)
    ensures AskDelegates(files, rank, m, u, 0, [], k, id)
            == OrBreak(AskEntry(files, rank, m, u, 0, DelegatedPublic(k, id), DelegatedSystem(k, id)))
  {
    hide AskEntry;
    var o := AskEntry(files, rank, m, u, 0, DelegatedPublic(k, id), DelegatedSystem(k, id));
    assert AskDelegates(files, rank, o.memo, u, 1, Tried([], m[u][0].url), k, id) == Outcome(Break, o.memo);
  }

  lemma OneNext(files: Files, rank: map<string, nat>, m: Loaded, u: string, pub: Option<string>, sys: Option<string>)
    requires u in files && |files[u]| == 1 && u in m && |m[u]| == 1 && m[u][0].kind.NextCatalog?
    ensures AskNext(files, rank, m, u, 0, pub, sys) == AskEntry(files, rank, m, u, 0, pub, sys)
  {
    hide AskEntry;
    var o := AskEntry(files, rank, m, u, 0, pub, sys);
    assert AskNext(files, rank, o.memo, u, 1, pub, sys) == Outcome(NotFound, o.memo);
  }

  /** Resolution in a file with a single entry. */
  lemma OneList(files: Files, rank: map<string, nat>, m: Loaded, u: string, d: Data, pub: Option<string>, sys: Option<string>)
    requires u in files && |files[u]| == 1 && u in m && m[u] == [d] && (pub.None? || sys.None?)
    requires d.kind in {DelegateSystem, DelegatePublic, NextCatalog, Public}
    ensures Resolve(files, rank, m, u, pub, sys) ==
      if (d.kind.DelegateSystem? && sys.Some? && StartsWith(sys.value, d.name))
      || (d.kind.DelegatePublic? && d.preferPublic && pub.Some? && StartsWith(pub.value, d.name))
      then OrBreak(AskEntry(files, rank, m, u, 0, pub, sys))
      else if d.kind.NextCatalog? && (pub.Some? || sys.Some?) then AskEntry(files, rank, m, u, 0, pub, sys)
      else Outcome(if d.kind.Public? && pub == Some(d.name) then Uri(d.url) else NotFound, m)
  {
    hide LocalOf, AskEntry;
    OneEntry(d, pub, sys);
    if d.kind.DelegateSystem? && sys.Some? && StartsWith(sys.value, d.name) {
      OneDelegate(files, rank, m, u, DelegateSystem, sys.value);
    } else if d.kind.DelegatePublic? && d.preferPublic && pub.Some? && StartsWith(pub.value, d.name) {
      OneDelegate(files, rank, m, u, DelegatePublic, pub.value);
    } else if d.kind.NextCatalog? {
      OneNext(files, rank, m, u, pub, sys);
    }
  }

  const A := "A"
  const B := "B"
  const C := "C"
  const D := "D"

  /** A prefers system identifiers and delegates "s" to C; B prefers public ones and goes on with C; C inherits its
      preference and delegates the public identifier "x" to D. */
  const EXAMPLE: Files := map[
    A := [Raw(DelegateSystem, "s", C, Some(false))], B := [Raw(NextCatalog, "", C, Some(true))],
    C := [Raw(DelegatePublic, "x", D, None)], D := [Raw(Public, "x", "found", None)]]

  const EXAMPLE_RANK: map<string, nat> := map[A := 2, B := 2, C := 1, D := 0]

  const EXAMPLE_ROOTS := [Root(A, true), Root(B, true)]

  const SYSTEM_S: Request := (None, Some("s"))
  const PUBLIC_X: Request := (Some("x"), None)

  lemma ReadOne(r: Raw, preferPublic: bool)
    ensures ReadAll([r], preferPublic) == [ReadBy(r, preferPublic)]
  {
    assert [r][1..] == [];
  }

  /** Reading the list of one of the files of the example. */
  lemma ExampleList(u: string, preferPublic: bool) returns (d: Data)
    requires u in EXAMPLE
    ensures |EXAMPLE[u]| == 1 && d == ReadBy(EXAMPLE[u][0], preferPublic) && ReadAll(EXAMPLE[u], preferPublic) == [d]
  {
    ReadOne(EXAMPLE[u][0], preferPublic);
    d := ReadBy(EXAMPLE[u][0], preferPublic);
    assert EXAMPLE[u] == [EXAMPLE[u][0]];
  }

  /** What C answers depends on the preference it was loaded with. */
  lemma ExampleC(m: Loaded, preferPublic: bool)
    requires C in m && m[C] == ReadAll(EXAMPLE[C], preferPublic) && D !in m
    ensures ResolveFile(EXAMPLE, EXAMPLE_RANK, m, C, None, Some("s")) == Outcome(NotFound, m)
    ensures ResolveFile(EXAMPLE, EXAMPLE_RANK, m, C, Some("x"), None).answer == if preferPublic then Uri("found") else NotFound
    ensures !preferPublic ==> ResolveFile(EXAMPLE, EXAMPLE_RANK, m, C, Some("x"), None).memo == m
  {
    PlainIds();
    var c := ExampleList(C, preferPublic);
    var d := ExampleList(D, preferPublic);
    OneList(EXAMPLE, EXAMPLE_RANK, m, C, c, None, Some("s"));
    OneList(EXAMPLE, EXAMPLE_RANK, m, C, c, Some("x"), None);
    if preferPublic {
      Asking(EXAMPLE, EXAMPLE_RANK, m, C, 0, Some("x"), None);
      OneList(EXAMPLE, EXAMPLE_RANK, Opened(EXAMPLE, m, C, 0), D, d, Some("x"), None);
    }
  }

  /** What A answers, with nothing loaded but A itself. */
  lemma ExampleA(m: Loaded)
    requires m == map[A := ReadAll(EXAMPLE[A], true)]
    ensures Resolve(EXAMPLE, EXAMPLE_RANK, m, A, None, Some("s")) == Outcome(Break, m[C := ReadAll(EXAMPLE[C], false)])
    ensures Resolve(EXAMPLE, EXAMPLE_RANK, m, A, Some("x"), None) == Outcome(NotFound, m)
  {
    var a := ExampleList(A, true);
    OneList(EXAMPLE, EXAMPLE_RANK, m, A, a, None, Some("s"));
    OneList(EXAMPLE, EXAMPLE_RANK, m, A, a, Some("x"), None);
    Asking(EXAMPLE, EXAMPLE_RANK, m, A, 0, None, Some("s"));
    ExampleC(Opened(EXAMPLE, m, A, 0), false);
  }

  /** The second catalog: it finds C as it was loaded, or loads it itself. */
  lemma ExampleB(m: Loaded)
    requires B in m && m[B] == ReadAll(EXAMPLE[B], true) && D !in m
    requires C in m ==> m[C] == ReadAll(EXAMPLE[C], false)
    ensures Resolve(EXAMPLE, EXAMPLE_RANK, m, B, Some("x"), None).answer == if C in m then NotFound else Uri("found")
  {
    var b := ExampleList(B, true);
    OneList(EXAMPLE, EXAMPLE_RANK, m, B, b, Some("x"), None);
    Asking(EXAMPLE, EXAMPLE_RANK, m, B, 0, Some("x"), None);
    ExampleC(Opened(EXAMPLE, m, B, 0), C !in m);
  }

  /** No file is missing and none leads back to itself, and still the second request is answered differently after
      the first one. */
  lemma LoaderIsNoticed()
    ensures FilesOk(EXAMPLE) && Acyclic(EXAMPLE, EXAMPLE_RANK)
    ensures forall u, i :: u in EXAMPLE && 0 <= i < |EXAMPLE[u]| && RefersToFile(EXAMPLE[u][i].kind) ==> EXAMPLE[u][i].url in EXAMPLE
    ensures ResolveRoots(EXAMPLE, EXAMPLE_RANK, map[], EXAMPLE_ROOTS, 0, Effective(PUBLIC_X.0, PUBLIC_X.1)).answer == Uri("found")
    ensures Run(EXAMPLE, EXAMPLE_RANK, map[], EXAMPLE_ROOTS, [SYSTEM_S, PUBLIC_X], 2).all == [Break, NotFound]
  {
    ExampleIsSound();
    PlainIds();
    var mA: Loaded := map[A := ReadAll(EXAMPLE[A], true)];
    var mC := mA[C := ReadAll(EXAMPLE[C], false)];
    ExampleFirst(mA);
    ExampleA(mA);
    ExampleAgain(mC);
    hide Resolve, ResolveRoots, Effective, Run;
    ExampleAsked(map[], mA, false);
    ExampleAsked(mC, mC, true);
    TwoRequests(EXAMPLE, EXAMPLE_RANK, EXAMPLE_ROOTS, SYSTEM_S, PUBLIC_X);
  }

  lemma ExampleIsSound()
    ensures FilesOk(EXAMPLE) && Acyclic(EXAMPLE, EXAMPLE_RANK)
    ensures forall u, i :: u in EXAMPLE && 0 <= i < |EXAMPLE[u]| && RefersToFile(EXAMPLE[u][i].kind) ==> EXAMPLE[u][i].url in EXAMPLE
  {
    forall u | u in EXAMPLE ensures RefersDown(EXAMPLE, EXAMPLE_RANK, u) {}
  }

  /** The system identifier is asked for, with nothing loaded. */
  lemma ExampleFirst(m: Loaded)
    requires m == map[A := ReadAll(EXAMPLE[A], true)]
    ensures ResolveRoots(EXAMPLE, EXAMPLE_RANK, map[], EXAMPLE_ROOTS, 0, Lookup(None, Some("s")))
            == Outcome(Break, m[C := ReadAll(EXAMPLE[C], false)])
  {
    ExampleA(m);
    hide Resolve, ResolveRoots;
    TwoRoots(EXAMPLE, EXAMPLE_RANK, map[], EXAMPLE_ROOTS, None, Some("s"));
    assert OpenFile(EXAMPLE, map[], A, true) == m;
  }

  /** The public identifier is asked for. */
  lemma ExampleAsked(m: Loaded, m': Loaded, again: bool)
    requires m' == OpenFile(EXAMPLE, m, A, true) && B !in m' && D !in m'
    requires C in m' <==> again
    requires C in m' ==> m'[C] == ReadAll(EXAMPLE[C], false)
    requires Resolve(EXAMPLE, EXAMPLE_RANK, m', A, Some("x"), None) == Outcome(NotFound, m')
    ensures ResolveRoots(EXAMPLE, EXAMPLE_RANK, m, EXAMPLE_ROOTS, 0, Lookup(Some("x"), None)).answer == if again then NotFound else Uri("found")
  {
    hide Resolve, ResolveRoots;
    TwoRoots(EXAMPLE, EXAMPLE_RANK, m, EXAMPLE_ROOTS, Some("x"), None);
    ExampleB(OpenFile(EXAMPLE, m', B, true));
  }

  lemma TwoRoots(files: Files, rank: map<string, nat>, m: Loaded, roots: seq<Root>, pub: Option<string>, sys: Option<string>)
    requires |roots| == 2
    ensures var o := RootOutcome(files, rank, m, roots[0], pub, sys);
      ResolveRoots(files, rank, m, roots, 0, Lookup(pub, sys))
      == if o.answer != NotFound then o else RootOutcome(files, rank, o.memo, roots[1], pub, sys)
  {
    hide RootOutcome;
    var o := RootOutcome(files, rank, m, roots[0], pub, sys);
    var o' := RootOutcome(files, rank, o.memo, roots[1], pub, sys);
    assert ResolveRoots(files, rank, o'.memo, roots, 2, Lookup(pub, sys)) == Outcome(NotFound, o'.memo);
    assert ResolveRoots(files, rank, o.memo, roots, 1, Lookup(pub, sys)) == o';
  }

  lemma TwoRequests(files: Files, rank: map<string, nat>, roots: seq<Root>, p: Request, q: Request)
    ensures var o := ResolveRoots(files, rank, map[], roots, 0, Effective(p.0, p.1));
      Run(files, rank, map[], roots, [p, q], 2).all
      == [o.answer, ResolveRoots(files, rank, o.memo, roots, 0, Effective(q.0, q.1)).answer]
  {
    hide ResolveRoots, Effective;
    assert Run(files, rank, map[], roots, [p, q], 0) == Answers([], map[]);
    assert Run(files, rank, map[], roots, [p, q], 1).all
           == [] + [ResolveRoots(files, rank, map[], roots, 0, Effective(p.0, p.1)).answer];
  }

  lemma ExampleAgain(m: Loaded)
    requires A in m && m[A] == ReadAll(EXAMPLE[A], true)
    ensures Resolve(EXAMPLE, EXAMPLE_RANK, m, A, Some("x"), None) == Outcome(NotFound, m)
  {
    var a := ExampleList(A, true);
    OneList(EXAMPLE, EXAMPLE_RANK, m, A, a, Some("x"), None);
  }

  const GONE: Raw := Raw(DelegateSystem, "s", "gone", None)

  const GONE_ROOTS := [Root(A, true)]

  /** A delegate whose file is missing is noticed as well: the first lookup ends at it, and marks it as broken, so that
      the second one goes on behind it. */
  lemma MissingIsNoticed(files: Files, rank: map<string, nat>)
    requires files == map[A := [GONE]]
    ensures FilesOk(files) && Acyclic(files, rank[A := 0])
    ensures Run(files, rank, map[], GONE_ROOTS, [SYSTEM_S, SYSTEM_S], 2).all == [Break, NotFound]
  {
    hide Effective, ResolveRoots, Run, FilesOk, Acyclic, ReadBy;
    PlainIds();
    GoneIsSound(files, rank);
    GoneAsked(files, rank);
    GoneAskedAgain(files, rank, map[A := [ReadBy(GONE, true).(kind := Broken)]]);
    TwoRequests(files, rank, GONE_ROOTS, SYSTEM_S, SYSTEM_S);
  }

  lemma GoneIsSound(files: Files, rank: map<string, nat>)
    requires files == map[A := [GONE]]
    ensures FilesOk(files) && Acyclic(files, rank[A := 0])
  {
    assert files[A] == [GONE] && "gone" !in files;
  }

  lemma GoneAsked(files: Files, rank: map<string, nat>)
    requires files == map[A := [GONE]]
    ensures ResolveRoots(files, rank, map[], GONE_ROOTS, 0, Lookup(None, Some("s")))
            == Outcome(Break, map[A := [ReadBy(GONE, true).(kind := Broken)]])
  {
    hide Resolve, ResolveRoots, ReadAll;
    OnlyRoot(files, rank, map[], GONE_ROOTS, None, Some("s"));
    ReadOne(GONE, true);
    var m: Loaded := map[A := [ReadBy(GONE, true)]];
    assert OpenFile(files, map[], A, true) == m;
    GoneFirst(files, rank, m);
  }

  lemma GoneAskedAgain(files: Files, rank: map<string, nat>, m: Loaded)
    requires A in m && |m[A]| == 1 && m[A][0].kind.Broken?
    ensures ResolveRoots(files, rank, m, GONE_ROOTS, 0, Lookup(None, Some("s"))).answer == NotFound
  {
    hide Resolve, ResolveRoots;
    OnlyRoot(files, rank, m, GONE_ROOTS, None, Some("s"));
    AllBroken(files, rank, m, A, None, Some("s"));
  }

  lemma GoneFirst(files: Files, rank: map<string, nat>, m: Loaded)
    requires files == map[A := [GONE]] && m == map[A := [ReadBy(GONE, true)]]
    ensures Resolve(files, rank, m, A, None, Some("s")) == Outcome(Break, map[A := [ReadBy(GONE, true).(kind := Broken)]])
  {
    var d := ReadBy(GONE, true);
    OneList(files, rank, m, A, d, None, Some("s"));
    Asking(files, rank, m, A, 0, None, Some("s"));
    assert m[A][0 := d.(kind := Broken)] == [d.(kind := Broken)];
    assert m[A := [d.(kind := Broken)]] == map[A := [d.(kind := Broken)]];
  }

  lemma AllBroken(files: Files, rank: map<string, nat>, m: Loaded, u: string, pub: Option<string>, sys: Option<string>)
    requires u in m && |m[u]| == 1 && m[u][0].kind.Broken?
    ensures Resolve(files, rank, m, u, pub, sys) == Outcome(NotFound, m)
  {
    var l := m[u];
    if sys.Some? {
      assert First(l, 0, System, sys.value) == First(l, 1, System, sys.value) == 1;
      assert Rewrite(l, 1, sys.value) == Rewrite(l, 0, sys.value) == None;
    }
    if pub.Some? {
      assert First(l, 0, Public, pub.value) == First(l, 1, Public, pub.value) == 1;
    }
  }

  lemma OnlyRoot(files: Files, rank: map<string, nat>, m: Loaded, roots: seq<Root>, pub: Option<string>, sys: Option<string>)
    requires |roots| == 1
    ensures ResolveRoots(files, rank, m, roots, 0, Lookup(pub, sys)) == RootOutcome(files, rank, m, roots[0], pub, sys)
  {
    hide RootOutcome;
    var o := RootOutcome(files, rank, m, roots[0], pub, sys);
    assert ResolveRoots(files, rank, o.memo, roots, 1, Lookup(pub, sys)) == Outcome(NotFound, o.memo);
  }
}
