/** External identifier resolution over the catalog files loaded so far: what is looked up, loaded and found missing
    on the way, without the counters and the linked lists of catalog.c. */
module CatalogMemo {
  import opened Common
  import opened CatalogUrn
  import opened CatalogRules

  const MAX_DELEGATE := 50

  /** The entry lists in memory by the URL of their file. */
  type Loaded = map<string, seq<Data>>

  datatype Outcome = Outcome(answer: Answer, memo: Loaded)

  /** A file that is in memory is never read again, whatever the preference. */
  function OpenFile(files: Files, m: Loaded, v: string, preferPublic: bool): Loaded
  {
    if v in m || v !in files then m else m[v := ReadAll(files[v], preferPublic)]
  }

  predicate IsEntry(m: Loaded, u: string, i: nat)
  {
    u in m && i < |m[u]|
  }

  /** An entry's file is loaded, or the entry is marked as broken. */
  function Opened(files: Files, m: Loaded, u: string, i: nat): Loaded
  {
    if !IsEntry(m, u, i) then m
    else
      var e := m[u][i];
      if e.url in m || e.url in files then OpenFile(files, m, e.url, e.preferPublic)
      else m[u := m[u][i := e.(kind := Broken)]]
  }

  /** References to a file of the same or a higher rank, which make cycles, are outside this description. */
  predicate Below(rank: map<string, nat>, v: string, u: string)
  {
    RankOf(rank, v) < RankOf(rank, u)
  }

  function Resolve(files: Files, rank: map<string, nat>, m: Loaded, u: string, pub: Option<string>, sys: Option<string>): Outcome
    decreases RankOf(rank, u), 3, 0
  {
    if u in m then Follow(files, rank, m, u, LocalOf(m[u], pub, sys), pub, sys) else Outcome(NotFound, m)
  }

  /** What is done after the list itself has been consulted. */
  function Follow(files: Files, rank: map<string, nat>, m: Loaded, u: string, local: Local, pub: Option<string>, sys: Option<string>)
    : Outcome
    decreases RankOf(rank, u), 2, 0
  {
    match local
    case Decided(a) => Outcome(a, m)
    case TryDelegates(k, id) => AskDelegates(files, rank, m, u, 0, [], k, id)
    case TryNext => AskNext(files, rank, m, u, 0, pub, sys)
    case GiveUp => Outcome(NotFound, m)
  }

  /** The file of an entry is asked. */
  function AskEntry(files: Files, rank: map<string, nat>, m: Loaded, u: string, i: nat, pub: Option<string>, sys: Option<string>)
    : Outcome
    decreases RankOf(rank, u), 0, 0
  {
    if !IsEntry(m, u, i) then Outcome(NotFound, m)
    else
      var v := m[u][i].url;
      var m' := Opened(files, m, u, i);
      if v in m' && Below(rank, v, u) then ResolveFile(files, rank, m', v, pub, sys) else Outcome(NotFound, m')
  }

  function Tried(tried: seq<string>, url: string): seq<string>
  {
    if |tried| < MAX_DELEGATE then tried + [url] else tried
  }

  /** The first delegate with an answer decides; none at all ends the whole search. `tried` holds the first fifty
      different URLs. */
  function AskDelegates(files: Files, rank: map<string, nat>, m: Loaded, u: string, i: nat, tried: seq<string>, k: Kind, id: string)
    : Outcome
    decreases RankOf(rank, u), 1, if u in files && i < |files[u]| then |files[u]| - i else 0
  {
    if !IsEntry(m, u, i) || u !in files || i >= |files[u]| then Outcome(Break, m)
    else
      var e := m[u][i];
      if Delegates(e, k, id) && e.url !in tried then
        var o := AskEntry(files, rank, m, u, i, DelegatedPublic(k, id), DelegatedSystem(k, id));
        if o.answer != NotFound then o else AskDelegates(files, rank, o.memo, u, i + 1, Tried(tried, e.url), k, id)
      else AskDelegates(files, rank, m, u, i + 1, tried, k, id)
  }

  function AskNext(files: Files, rank: map<string, nat>, m: Loaded, u: string, i: nat, pub: Option<string>, sys: Option<string>)
    : Outcome
    decreases RankOf(rank, u), 1, if u in files && i < |files[u]| then |files[u]| - i else 0
  {
    if !IsEntry(m, u, i) || u !in files || i >= |files[u]| then Outcome(NotFound, m)
    else if m[u][i].kind.NextCatalog? then
      var o := AskEntry(files, rank, m, u, i, pub, sys);
      if o.answer != NotFound then o else AskNext(files, rank, o.memo, u, i + 1, pub, sys)
    else AskNext(files, rank, m, u, i + 1, pub, sys)
  }

  function ResolveFile(files: Files, rank: map<string, nat>, m: Loaded, u: string, pub: Option<string>, sys: Option<string>): Outcome
    decreases RankOf(rank, u), 4, 0
  {
    match Effective(pub, sys)
    case Nothing => Outcome(NotFound, m)
    case Lookup(p, s) => Resolve(files, rank, m, u, p, s)
  }

  /** One catalog of a list. */
  function RootOutcome(files: Files, rank: map<string, nat>, m: Loaded, root: Root, pub: Option<string>, sys: Option<string>): Outcome
  {
    Resolve(files, rank, OpenFile(files, m, root.url, root.preferPublic), root.url, pub, sys)
  }

  /** Resolution over a list of root catalogs. */
  function ResolveRoots(files: Files, rank: map<string, nat>, m: Loaded, roots: seq<Root>, i: nat, ids: Identifiers): Outcome
    decreases |roots| - i
  {
    if ids.Nothing? || i >= |roots| then Outcome(NotFound, m)
    else
      var o := RootOutcome(files, rank, m, roots[i], ids.pub, ids.sys);
      if o.answer != NotFound then o else ResolveRoots(files, rank, o.memo, roots, i + 1, ids)
  }

  type Request = (Option<string>, Option<string>)

  datatype Answers = Answers(all: seq<Answer>, memo: Loaded)

  /** The first n requests one after the other. */
  function Run(files: Files, rank: map<string, nat>, m: Loaded, roots: seq<Root>, requests: seq<Request>, n: nat): (r: Answers)
    requires n <= |requests|
    ensures |r.all| == n
  {
    if n == 0 then Answers([], m)
    else
      var before := Run(files, rank, m, roots, requests, n - 1);
      var o := ResolveRoots(files, rank, before.memo, roots, 0, Effective(requests[n - 1].0, requests[n - 1].1));
      Answers(before.all + [o.answer], o.memo)
  }

  lemma Asking(files: Files, rank: map<string, nat>, m: Loaded, u: string, i: nat, pub: Option<string>, sys: Option<string>)
    requires IsEntry(m, u, i)
    ensures var v, m' := m[u][i].url, Opened(files, m, u, i);
      && (v in m' <==> v in m || v in files)
      && AskEntry(files, rank, m, u, i, pub, sys)
         == if v in m' && Below(rank, v, u) then ResolveFile(files, rank, m', v, pub, sys) else Outcome(NotFound, m')
  {}

  // ---------- the loops, seen from a position ----------

  /** The roots before position i led from memo m to memo m'. */
  ghost predicate RootsFrom(files: Files, rank: map<string, nat>, m: Loaded, roots: seq<Root>, i: nat, ids: Identifiers, m': Loaded)
  {
    ResolveRoots(files, rank, m, roots, 0, ids) == ResolveRoots(files, rank, m', roots, i, ids)
  }

  lemma NextRoot(files: Files, rank: map<string, nat>, m: Loaded, roots: seq<Root>, i: nat, pub: Option<string>, sys: Option<string>,
                 m': Loaded)
    requires RootsFrom(files, rank, m, roots, i, Lookup(pub, sys), m')
    ensures i >= |roots| ==> ResolveRoots(files, rank, m, roots, 0, Lookup(pub, sys)) == Outcome(NotFound, m')
    ensures i < |roots| ==>
              var o := RootOutcome(files, rank, m', roots[i], pub, sys);
              if o.answer != NotFound then ResolveRoots(files, rank, m, roots, 0, Lookup(pub, sys)) == o
              else RootsFrom(files, rank, m, roots, i + 1, Lookup(pub, sys), o.memo)
  {}

  lemma SingleRoot(files: Files, rank: map<string, nat>, m: Loaded, root: Root, pub: Option<string>, sys: Option<string>)
    requires root.url in m
    ensures ResolveRoots(files, rank, m, [root], 0, Effective(pub, sys)) == ResolveFile(files, rank, m, root.url, pub, sys)
  {}

  ghost predicate NextFrom(files: Files, rank: map<string, nat>, m: Loaded, u: string, i: nat, pub: Option<string>, sys: Option<string>,
                           m': Loaded)
  {
    AskNext(files, rank, m, u, 0, pub, sys) == AskNext(files, rank, m', u, i, pub, sys)
  }

  lemma NextEntry(files: Files, rank: map<string, nat>, m: Loaded, u: string, i: nat, pub: Option<string>, sys: Option<string>,
                  m': Loaded)
    requires NextFrom(files, rank, m, u, i, pub, sys, m') && u in files && u in m' && |m'[u]| == |files[u]|
    ensures i >= |files[u]| ==> AskNext(files, rank, m, u, 0, pub, sys) == Outcome(NotFound, m')
    ensures i < |files[u]| ==>
              if m'[u][i].kind.NextCatalog? then
                var o := AskEntry(files, rank, m', u, i, pub, sys);
                if o.answer != NotFound then AskNext(files, rank, m, u, 0, pub, sys) == o
                else NextFrom(files, rank, m, u, i + 1, pub, sys, o.memo)
              else NextFrom(files, rank, m, u, i + 1, pub, sys, m')
  {}

  ghost predicate DelegatesFrom(files: Files, rank: map<string, nat>, m: Loaded, u: string, i: nat, tried: seq<string>, k: Kind,
                                id: string, m': Loaded)
  {
    AskDelegates(files, rank, m, u, 0, [], k, id) == AskDelegates(files, rank, m', u, i, tried, k, id)
  }

  lemma DelegateEntry(files: Files, rank: map<string, nat>, m: Loaded, u: string, i: nat, tried: seq<string>, k: Kind, id: string,
                      m': Loaded)
    requires DelegatesFrom(files, rank, m, u, i, tried, k, id, m') && u in files && u in m' && |m'[u]| == |files[u]|
    ensures i >= |files[u]| ==> AskDelegates(files, rank, m, u, 0, [], k, id) == Outcome(Break, m')
    ensures i < |files[u]| ==>
              var e := m'[u][i];
              if Delegates(e, k, id) && e.url !in tried then
                var o := AskEntry(files, rank, m', u, i, DelegatedPublic(k, id), DelegatedSystem(k, id));
                if o.answer != NotFound then AskDelegates(files, rank, m, u, 0, [], k, id) == o
                else DelegatesFrom(files, rank, m, u, i + 1, Tried(tried, e.url), k, id, o.memo)
              else DelegatesFrom(files, rank, m, u, i + 1, tried, k, id, m')
  {}

  lemma FirstRoot(files: Files, rank: map<string, nat>, m: Loaded, roots: seq<Root>, ids: Identifiers)
    ensures RootsFrom(files, rank, m, roots, 0, ids, m)
  {}

  lemma NothingNext(files: Files, rank: map<string, nat>, m: Loaded, u: string, pub: Option<string>, sys: Option<string>)
    ensures NextFrom(files, rank, m, u, 0, pub, sys, m)
  {}

  lemma NoneAsked(files: Files, rank: map<string, nat>, m: Loaded, u: string, k: Kind, id: string)
    ensures DelegatesFrom(files, rank, m, u, 0, [], k, id, m)
  {}

  lemma NothingAsked(files: Files, rank: map<string, nat>, m: Loaded, roots: seq<Root>)
    ensures Effective(None, None).Nothing?
    ensures ResolveRoots(files, rank, m, roots, 0, Effective(None, None)) == Outcome(NotFound, m)
  {}

  /** An empty file, or one that is not there, has no answer. */
  lemma NothingLoaded(files: Files, rank: map<string, nat>, m: Loaded, u: string, pub: Option<string>, sys: Option<string>)
    requires u in m ==> m[u] == []
    ensures Resolve(files, rank, m, u, pub, sys) == Outcome(NotFound, m)
  {}

  lemma CalmRoot(files: Files, rank: map<string, nat>, b: nat, roots: seq<Root>, depths: map<string, int>, i: nat)
    requires CalmRoots(files, rank, b, roots, depths) && i < |roots|
    ensures roots[i].url in files ==> Calm(files, rank, RankOf(rank, roots[i].url) + 1, depths)
  {}

  /** The file is loaded, its counter lets it be asked, and its list answers by itself. */
  ghost predicate AnswersAtOnce(m: Loaded, depths: map<string, int>, u: string, pub: Option<string>, sys: Option<string>, uri: string)
  {
    u in m && m[u] != [] && u in depths && depths[u] <= MAX_CATAL_DEPTH && AnswersAlone(m[u], pub, sys, uri)
  }
}
