/** Catalog files, what one list of entries decides (section 7.1 of the OASIS specification of XML catalogs, in the
    reading of catalog.c), and the measure of the search. */
module CatalogRules {
  import opened Common

  datatype Kind =
    | Catalog | Broken | NextCatalog | Group | Public | System | RewriteSystem
    | DelegatePublic | DelegateSystem | OtherKind

  /** An entry in memory. */
  datatype Data = Data(kind: Kind, name: string, url: string, preferPublic: bool)

  /** An entry in a file. Without a prefer attribute around it, it takes the preference of the entry that the file is
      loaded for. */
  datatype Raw = Raw(kind: Kind, name: string, url: string, prefer: Option<bool>)

  /** The readable catalog files by URL. */
  type Files = map<string, seq<Raw>>

  function ReadBy(r: Raw, preferPublic: bool): Data
  {
    Data(r.kind, r.name, r.url, if r.prefer.Some? then r.prefer.value else preferPublic)
  }

  function ReadAll(l: seq<Raw>, preferPublic: bool): (r: seq<Data>)
    ensures |r| == |l| && forall i :: 0 <= i < |l| ==> r[i] == ReadBy(l[i], preferPublic)
  {
    if l == [] then [] else [ReadBy(l[0], preferPublic)] + ReadAll(l[1..], preferPublic)
  }

  /** A catalog to begin with, and the preference that was set when it was added. */
  datatype Root = Root(url: string, preferPublic: bool)

  datatype Answer = NotFound | Uri(uri: string) | Break

  predicate RefersToFile(k: Kind)
  {
    k.NextCatalog? || k.DelegatePublic? || k.DelegateSystem?
  }

  /** Entries read from a file are never catalogs themselves. */
  predicate FilesOk(files: Files)
  {
    forall u, i :: u in files && 0 <= i < |files[u]| ==> !files[u][i].kind.Catalog? && !files[u][i].kind.Broken?
  }

  /** References to files that can be read go down in rank. */
  ghost predicate Acyclic(files: Files, rank: map<string, nat>)
  {
    forall u :: u in files ==> u in rank && RefersDown(files, rank, u)
  }

  ghost predicate RefersDown(files: Files, rank: map<string, nat>, u: string)
    requires u in files
  {
    forall i :: 0 <= i < |files[u]| && RefersToFile(files[u][i].kind) && files[u][i].url in files ==>
      RankOf(rank, files[u][i].url) < RankOf(rank, u)
  }

  function RankOf(rank: map<string, nat>, u: string): nat
  {
    if u in rank then rank[u] else 0
  }

  // ---------- one list of entries ----------

  /** The first entry from position i on that has the kind and the name, or the end of the list. */
  function First(l: seq<Data>, i: nat, k: Kind, id: string): (r: nat)
    requires i <= |l|
    ensures i <= r <= |l| && (r < |l| ==> l[r].kind == k && l[r].name == id)
    ensures forall j :: i <= j < r ==> !(l[j].kind == k && l[j].name == id)
    decreases |l| - i
  {
    if i == |l| || (l[i].kind == k && l[i].name == id) then i else First(l, i + 1, k, id)
  }

  predicate Rewrites(e: Data, sys: string)
  {
    e.kind.RewriteSystem? && e.name != "" && StartsWith(sys, e.name)
  }

  /** The rewriting rule for sys among the first n entries. */
  function Rewrite(l: seq<Data>, n: nat, sys: string): (r: Option<nat>)
    requires n <= |l|
    ensures r.Some? ==> r.value < n && Rewrites(l[r.value], sys)
  {
    if n == 0 then None
    else
      var r := Rewrite(l, n - 1, sys);
      if Rewrites(l[n - 1], sys) && (r.None? || |l[n - 1].name| > |l[r.value].name|) then Some(n - 1) else r
  }

  /** It is the first one of those with the longest prefix. */
  lemma {:induction false} RewriteIsLongest(l: seq<Data>, n: nat, sys: string)
    requires n <= |l|
    ensures Rewrite(l, n, sys).None? ==> forall j :: 0 <= j < n ==> !Rewrites(l[j], sys)
    ensures Rewrite(l, n, sys).Some? ==>
              var r := Rewrite(l, n, sys).value;
              && (forall j :: 0 <= j < n && Rewrites(l[j], sys) ==> |l[j].name| <= |l[r].name|)
              && forall j :: 0 <= j < r && Rewrites(l[j], sys) ==> |l[j].name| < |l[r].name|
  {
    if n > 0 {
      RewriteIsLongest(l, n - 1, sys);
    }
  }

  /** A delegate entry for an identifier. */
  predicate Delegates(e: Data, k: Kind, id: string)
  {
    e.kind == k && StartsWith(id, e.name) && (k.DelegatePublic? ==> e.preferPublic)
  }

  predicate HasDelegate(l: seq<Data>, n: nat, k: Kind, id: string)
    requires n <= |l|
  {
    exists j :: 0 <= j < n && Delegates(l[j], k, id)
  }

  predicate HasNext(l: seq<Data>, n: nat)
    requires n <= |l|
  {
    exists j :: 0 <= j < n && l[j].kind.NextCatalog?
  }

  /** What a list of entries decides before it consults any other file. */
  datatype Local = Decided(answer: Answer) | TryDelegates(kind: Kind, id: string) | TryNext | GiveUp

  function LocalSystem(l: seq<Data>, sys: string): Option<Local>
  {
    if First(l, 0, System, sys) < |l| then Some(Decided(Uri(l[First(l, 0, System, sys)].url)))
    else match Rewrite(l, |l|, sys)
      case Some(r) => Some(Decided(Uri(l[r].url + sys[|l[r].name|..])))
      case None => if HasDelegate(l, |l|, DelegateSystem, sys) then Some(TryDelegates(DelegateSystem, sys)) else None
  }

  function LocalPublic(l: seq<Data>, pub: string): Option<Local>
  {
    if First(l, 0, Public, pub) < |l| then Some(Decided(Uri(l[First(l, 0, Public, pub)].url)))
    else if HasDelegate(l, |l|, DelegatePublic, pub) then Some(TryDelegates(DelegatePublic, pub))
    else None
  }

  function LocalOf(l: seq<Data>, pub: Option<string>, sys: Option<string>): (r: Local)
    ensures r.TryDelegates? ==> RefersToFile(r.kind)
  {
    var s := if sys.Some? then LocalSystem(l, sys.value) else None;
    var p := if s.None? && pub.Some? then LocalPublic(l, pub.value) else s;
    if p.Some? then p.value
    else if HasNext(l, |l|) && (pub.Some? || sys.Some?) then TryNext
    else GiveUp
  }

  // ---------- the same, spelled out by positions ----------

  /** Position i holds the first entry of the kind with the name. */
  ghost predicate FirstMatch(l: seq<Data>, k: Kind, id: string, i: nat)
  {
    i < |l| && l[i].kind == k && l[i].name == id && forall j :: 0 <= j < i ==> !(l[j].kind == k && l[j].name == id)
  }

  ghost predicate NoMatch(l: seq<Data>, k: Kind, id: string)
  {
    forall j :: 0 <= j < |l| ==> !(l[j].kind == k && l[j].name == id)
  }

  /** The entry is of the kind, and its name is a prefix of the identifier. */
  predicate Covers(e: Data, k: Kind, id: string)
  {
    e.kind == k && |e.name| <= |id| && id[..|e.name|] == e.name
  }

  /** Position i holds the first of the rewriting rules with the longest prefix; an empty prefix is no rule. */
  ghost predicate LongestRule(l: seq<Data>, sys: string, i: nat)
  {
    i < |l| && Covers(l[i], RewriteSystem, sys) && l[i].name != ""
    && forall j :: 0 <= j < |l| && Covers(l[j], RewriteSystem, sys) ==> |l[j].name| <= |l[i].name| && (j < i ==> |l[j].name| < |l[i].name|)
  }

  ghost predicate NoRule(l: seq<Data>, sys: string)
  {
    forall j :: 0 <= j < |l| && Covers(l[j], RewriteSystem, sys) ==> l[j].name == ""
  }

  ghost predicate NoDelegateFor(l: seq<Data>, sys: string)
  {
    forall j :: 0 <= j < |l| ==> !Covers(l[j], DelegateSystem, sys)
  }

  ghost predicate NoPublicDelegateFor(l: seq<Data>, pub: string)
  {
    forall j :: 0 <= j < |l| && Covers(l[j], DelegatePublic, pub) ==> !l[j].preferPublic
  }

  /** No system identifier, or nothing in the list for it. */
  ghost predicate NothingForSystem(l: seq<Data>, sys: Option<string>)
  {
    sys.Some? ==> NoMatch(l, System, sys.value) && NoRule(l, sys.value) && NoDelegateFor(l, sys.value)
  }

  ghost predicate NothingForPublic(l: seq<Data>, pub: Option<string>)
  {
    pub.Some? ==> NoMatch(l, Public, pub.value) && NoPublicDelegateFor(l, pub.value)
  }

  /** The list answers by itself: with the URL of the first system entry; failing that, with the URL of the longest
      rewriting rule and what the identifier has behind its prefix; failing any system delegate too, with the URL of the
      first public entry. */
  ghost predicate AnswersAlone(l: seq<Data>, pub: Option<string>, sys: Option<string>, uri: string)
  {
    || (sys.Some? && exists i: nat :: FirstMatch(l, System, sys.value, i) && uri == l[i].url)
    || (sys.Some? && NoMatch(l, System, sys.value)
        && exists i: nat :: LongestRule(l, sys.value, i) && uri == l[i].url + sys.value[|l[i].name|..])
    || (pub.Some? && NothingForSystem(l, sys) && exists i: nat :: FirstMatch(l, Public, pub.value, i) && uri == l[i].url)
  }

  /** What a list decides, case by case; each case stands only when everything before it has no match. */
  ghost predicate DecidesAs(l: seq<Data>, pub: Option<string>, sys: Option<string>, r: Local)
  {
    && (forall uri :: AnswersAlone(l, pub, sys, uri) <==> r == Decided(Uri(uri)))
    && (sys.Some? && NoMatch(l, System, sys.value) && NoRule(l, sys.value) && !NoDelegateFor(l, sys.value) ==>
          r == TryDelegates(DelegateSystem, sys.value))
    && (pub.Some? && NothingForSystem(l, sys) && NoMatch(l, Public, pub.value) && !NoPublicDelegateFor(l, pub.value) ==>
          r == TryDelegates(DelegatePublic, pub.value))
    && (NothingForSystem(l, sys) && NothingForPublic(l, pub) ==>
          r == if (exists j :: 0 <= j < |l| && l[j].kind.NextCatalog?) && (pub.Some? || sys.Some?) then TryNext else GiveUp)
  }

  lemma FirstIsMatch(l: seq<Data>, k: Kind, id: string)
    ensures First(l, 0, k, id) < |l| ==> forall i: nat :: FirstMatch(l, k, id, i) <==> i == First(l, 0, k, id)
    ensures First(l, 0, k, id) == |l| <==> NoMatch(l, k, id)
    ensures NoMatch(l, k, id) ==> forall i: nat :: !FirstMatch(l, k, id, i)
  {
  }

  lemma RewriteIsRule(l: seq<Data>, sys: string)
    ensures var r := Rewrite(l, |l|, sys); r.Some? ==> forall i: nat :: LongestRule(l, sys, i) <==> i == r.value
    ensures Rewrite(l, |l|, sys).None? <==> NoRule(l, sys)
    ensures NoRule(l, sys) ==> forall i: nat :: !LongestRule(l, sys, i)
  {
    RewriteIsLongest(l, |l|, sys);
    forall j | 0 <= j < |l| ensures Rewrites(l[j], sys) <==> Covers(l[j], RewriteSystem, sys) && l[j].name != "" {}
  }

  lemma DelegatesAreThere(l: seq<Data>, id: string)
    ensures HasDelegate(l, |l|, DelegateSystem, id) <==> !NoDelegateFor(l, id)
    ensures HasDelegate(l, |l|, DelegatePublic, id) <==> !NoPublicDelegateFor(l, id)
  {
    forall j | 0 <= j < |l|
      ensures Delegates(l[j], DelegateSystem, id) <==> Covers(l[j], DelegateSystem, id)
      ensures Delegates(l[j], DelegatePublic, id) <==> Covers(l[j], DelegatePublic, id) && l[j].preferPublic
    {}
  }

  lemma SystemSpelledOut(l: seq<Data>, sys: string)
    ensures var r := LocalSystem(l, sys);
      && (forall i: nat :: FirstMatch(l, System, sys, i) ==> r == Some(Decided(Uri(l[i].url))))
      && (NoMatch(l, System, sys) ==> forall i: nat :: LongestRule(l, sys, i) ==> r == Some(Decided(Uri(l[i].url + sys[|l[i].name|..]))))
      && (NoMatch(l, System, sys) && NoRule(l, sys) ==>
            r == if NoDelegateFor(l, sys) then None else Some(TryDelegates(DelegateSystem, sys)))
      && (!NoMatch(l, System, sys) ==> exists i: nat :: FirstMatch(l, System, sys, i))
      && (!NoRule(l, sys) ==> exists i: nat :: LongestRule(l, sys, i))
  {
    hide First, Rewrite, HasDelegate, NoMatch, NoRule, NoDelegateFor, NoPublicDelegateFor, FirstMatch, LongestRule;
    FirstIsMatch(l, System, sys);
    RewriteIsRule(l, sys);
    DelegatesAreThere(l, sys);
    assert First(l, 0, System, sys) < |l| ==> FirstMatch(l, System, sys, First(l, 0, System, sys));
    assert Rewrite(l, |l|, sys).Some? ==> LongestRule(l, sys, Rewrite(l, |l|, sys).value);
  }

  lemma PublicSpelledOut(l: seq<Data>, pub: string)
    ensures var r := LocalPublic(l, pub);
      && (forall i: nat :: FirstMatch(l, Public, pub, i) ==> r == Some(Decided(Uri(l[i].url))))
      && (NoMatch(l, Public, pub) ==> r == if NoPublicDelegateFor(l, pub) then None else Some(TryDelegates(DelegatePublic, pub)))
      && (!NoMatch(l, Public, pub) ==> exists i: nat :: FirstMatch(l, Public, pub, i))
  {
    hide First, HasDelegate, NoMatch, NoPublicDelegateFor, FirstMatch;
    FirstIsMatch(l, Public, pub);
    DelegatesAreThere(l, pub);
    assert First(l, 0, Public, pub) < |l| ==> FirstMatch(l, Public, pub, First(l, 0, Public, pub));
  }

  lemma LocalSpelledOut(l: seq<Data>, pub: Option<string>, sys: Option<string>)
    ensures DecidesAs(l, pub, sys, LocalOf(l, pub, sys))
  {
    hide LocalSystem, LocalPublic, NoMatch, NoRule, NoDelegateFor, NoPublicDelegateFor, FirstMatch, LongestRule;
    if sys.Some? {
      SystemSpelledOut(l, sys.value);
    }
    if pub.Some? {
      PublicSpelledOut(l, pub.value);
    }
  }

  /** The identifiers that a delegate is asked about: only the one that it was chosen for. */
  function DelegatedPublic(k: Kind, id: string): Option<string>
  {
    if k.DelegatePublic? then Some(id) else None
  }

  function DelegatedSystem(k: Kind, id: string): Option<string>
  {
    if k.DelegatePublic? then None else Some(id)
  }

  // ---------- how much of the graph is left to visit ----------

  const MAX_CATAL_DEPTH := 50

  function Room(order: seq<string>, depths: map<string, int>): (r: nat)
    requires forall u :: u in depths ==> depths[u] <= MAX_CATAL_DEPTH + 1
  {
    if order == [] then 0
    else Room(order[1..], depths) + if order[0] in depths then MAX_CATAL_DEPTH + 1 - depths[order[0]] else 0
  }

  predicate NoLower(old_: map<string, int>, new_: map<string, int>)
  {
    old_.Keys == new_.Keys && forall u :: u in old_ ==> old_[u] <= new_[u] <= MAX_CATAL_DEPTH + 1
  }

  lemma {:induction false} RoomShrinks(order: seq<string>, d: map<string, int>, e: map<string, int>)
    requires NoLower(d, e)
    ensures Room(order, e) <= Room(order, d)
    ensures (exists u :: u in order && u in d && d[u] < e[u]) ==> Room(order, e) < Room(order, d)
  {
    if order != [] {
      RoomShrinks(order[1..], d, e);
    }
  }

  /** No counter of a file that ranks below b is close to the limit. */
  ghost predicate Calm(files: Files, rank: map<string, nat>, b: nat, depths: map<string, int>)
  {
    Acyclic(files, rank) && depths.Keys == files.Keys
    && forall w :: w in files && rank[w] < b ==> depths[w] < MAX_CATAL_DEPTH
  }

  /** One entry more of the first pass. */
  lemma SystemStep(l: seq<Data>, i: nat, sys: string)
    requires i < |l|
    ensures First(l, i, System, sys) == if l[i].kind.System? && l[i].name == sys then i else First(l, i + 1, System, sys)
    ensures var r := Rewrite(l, i, sys);
            Rewrite(l, i + 1, sys) ==
              if Rewrites(l[i], sys) && (r.None? || |l[i].name| > |l[r.value].name|) then Some(i) else r
    ensures HasDelegate(l, i + 1, DelegateSystem, sys) <==> HasDelegate(l, i, DelegateSystem, sys) || Delegates(l[i], DelegateSystem, sys)
    ensures HasNext(l, i + 1) <==> HasNext(l, i) || l[i].kind.NextCatalog?
  {}

  lemma PublicStep(l: seq<Data>, i: nat, pub: string)
    requires i < |l|
    ensures First(l, i, Public, pub) == if l[i].kind.Public? && l[i].name == pub then i else First(l, i + 1, Public, pub)
    ensures HasDelegate(l, i + 1, DelegatePublic, pub) <==> HasDelegate(l, i, DelegatePublic, pub) || Delegates(l[i], DelegatePublic, pub)
    ensures HasNext(l, i + 1) <==> HasNext(l, i) || l[i].kind.NextCatalog?
  {}

  lemma Start(l: seq<Data>, k: Kind, id: string)
    ensures Rewrite(l, 0, id) == None && !HasDelegate(l, 0, k, id) && !HasNext(l, 0)
    ensures First(l, |l|, k, id) == |l|
  {}

  ghost predicate CalmRoots(files: Files, rank: map<string, nat>, b: nat, roots: seq<Root>, depths: map<string, int>)
  {
    Calm(files, rank, b, depths) && forall k :: 0 <= k < |roots| && roots[k].url in files ==> RankOf(rank, roots[k].url) < b
  }

  lemma CalmFile(files: Files, rank: map<string, nat>, u: string, depths: map<string, int>)
    requires Calm(files, rank, RankOf(rank, u) + 1, depths) && u in files
    ensures Acyclic(files, rank) && u in depths && depths[u] < MAX_CATAL_DEPTH
  {}

  /** Entering a file leaves those below it calm. */
  lemma CalmBelow(files: Files, rank: map<string, nat>, u: string, depths: map<string, int>, d: int)
    requires Calm(files, rank, RankOf(rank, u) + 1, depths) && u in files
    ensures Calm(files, rank, RankOf(rank, u), depths[u := d])
  {}

  /** Inside a file: those below it are calm, and its own counter is not above the limit. */
  ghost predicate CalmInside(files: Files, rank: map<string, nat>, u: string, depths: map<string, int>)
  {
    Calm(files, rank, RankOf(rank, u), depths) && u in depths && depths[u] <= MAX_CATAL_DEPTH
  }

  lemma InsideIsCalm(files: Files, rank: map<string, nat>, u: string, depths: map<string, int>)
    requires CalmInside(files, rank, u, depths)
    ensures Acyclic(files, rank) && u in files && Calm(files, rank, RankOf(rank, u), depths) && depths[u] <= MAX_CATAL_DEPTH
  {}

  lemma Entered(order: seq<string>, u: string, depths: map<string, int>)
    requires u in order && u in depths && depths[u] <= MAX_CATAL_DEPTH
    requires forall v :: v in depths ==> depths[v] <= MAX_CATAL_DEPTH + 1
    ensures NoLower(depths, depths[u := depths[u] + 1])
    ensures Room(order, depths[u := depths[u] + 1]) < Room(order, depths)
  {
    RoomShrinks(order, depths, depths[u := depths[u] + 1]);
  }

  lemma Left(u: string, depths: map<string, int>, inside: map<string, int>)
    requires u in depths && NoLower(depths[u := depths[u] + 1], inside)
    ensures u in inside && NoLower(depths, inside) && NoLower(depths, inside[u := inside[u] - 1])
    ensures inside == depths[u := depths[u] + 1] ==> inside[u := inside[u] - 1] == depths
  {
    forall v | v in depths ensures depths[v] <= inside[v] <= MAX_CATAL_DEPTH + 1 {
      assert v in depths[u := depths[u] + 1];
    }
  }
}
