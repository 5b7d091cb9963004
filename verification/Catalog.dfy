/** XML catalog resolution in catalog.c: catalog files are loaded on demand and shared through a cache, and
    depth counters in the heads of their entry lists stop cycles. */
module Catalog {
  import opened Common
  import opened CatalogUrn
  import opened CatalogRules
  import opened CatalogMemo
  import opened CatalogOrder

  class Entry {
    var kind: Kind
    const name: string
    const url: string
    const preferPublic: bool
    /** The list hanging below the entry; [] is NULL. */
    var children: seq<Entry>
    var depth: int
    /** The file and the position that the entry was read from. */
    ghost const home: Option<string>
    ghost const place: nat

    constructor (data: Data, ghost home: Option<string>, ghost place: nat)
      ensures AsData() == data && children == [] && depth == 0
      ensures this.home == home && this.place == place
    {
      kind, name, url, preferPublic := data.kind, data.name, data.url, data.preferPublic;
      children, depth := [], 0;
      this.home, this.place := home, place;
    }

    function AsData(): Data
      reads this`kind
    {
      Data(kind, name, url, preferPublic)
    }
  }

  function View(l: seq<Entry>): (r: seq<Data>)
    reads l`kind
    ensures |r| == |l| && forall i :: 0 <= i < |l| ==> r[i] == l[i].AsData()
  {
    if l == [] then [] else [l[0].AsData()] + View(l[1..])
  }

  /** The first pass of xmlCatalogXMLResolve for a system identifier. */
  method ScanSystem(catal: seq<Entry>, sys: string)
    returns (found: nat, rewrite: Option<nat>, haveDelegate: nat, haveNext: nat)
    ensures found == First(View(catal), 0, System, sys)
    ensures found == |catal| ==>
              && rewrite == Rewrite(View(catal), |catal|, sys)
              && (haveDelegate > 0 <==> HasDelegate(View(catal), |catal|, DelegateSystem, sys))
              && (haveNext > 0 <==> HasNext(View(catal), |catal|))
  {
    hide View, First, Rewrite, HasDelegate, HasNext;
    ghost var l := View(catal);
    Start(l, DelegateSystem, sys);
    Start(l, System, sys);
    var lenrewrite := 0;
    rewrite, haveDelegate, haveNext := None, 0, 0;
    found := 0;
    while found < |catal|
      invariant 0 <= found <= |catal| && First(l, 0, System, sys) == First(l, found, System, sys)
      invariant rewrite == Rewrite(l, found, sys)
      invariant lenrewrite == if rewrite.Some? then |l[rewrite.value].name| else 0
      invariant haveDelegate > 0 <==> HasDelegate(l, found, DelegateSystem, sys)
      invariant haveNext > 0 <==> HasNext(l, found)
    {
      var cur := catal[found];
      assert cur.AsData() == l[found];
      SystemStep(l, found, sys);
      match cur.kind {
      case System =>
        if cur.name == sys {
          return;
        }
      case RewriteSystem =>
        var len := |cur.name|;
        if len > lenrewrite && StartsWith(sys, cur.name) {
          lenrewrite := len;
          rewrite := Some(found);
        }
      case DelegateSystem =>
        if StartsWith(sys, cur.name) {
          haveDelegate := haveDelegate + 1;
        }
      case NextCatalog => haveNext := haveNext + 1;
      case _ =>
      }
      found := found + 1;
    }
  }

  /** The pass for a public identifier. */
  method ScanPublic(catal: seq<Entry>, pub: string) returns (found: nat, haveDelegate: nat, haveNext: nat)
    ensures found == First(View(catal), 0, Public, pub)
    ensures found == |catal| ==>
              && (haveDelegate > 0 <==> HasDelegate(View(catal), |catal|, DelegatePublic, pub))
              && (haveNext > 0 <==> HasNext(View(catal), |catal|))
  {
    hide View, First, HasDelegate, HasNext;
    ghost var l := View(catal);
    Start(l, DelegatePublic, pub);
    Start(l, Public, pub);
    haveDelegate, haveNext := 0, 0;
    found := 0;
    while found < |catal|
      invariant 0 <= found <= |catal| && First(l, 0, Public, pub) == First(l, found, Public, pub)
      invariant haveDelegate > 0 <==> HasDelegate(l, found, DelegatePublic, pub)
      invariant haveNext > 0 <==> HasNext(l, found)
    {
      var cur := catal[found];
      assert cur.AsData() == l[found];
      PublicStep(l, found, pub);
      match cur.kind {
      case Public =>
        if cur.name == pub {
          return;
        }
      case DelegatePublic =>
        if StartsWith(pub, cur.name) && cur.preferPublic {
          haveDelegate := haveDelegate + 1;
        }
      case NextCatalog => haveNext := haveNext + 1;
      case _ =>
      }
      found := found + 1;
    }
  }

  /** Steps 2 to 6 of the resolution as far as they need only this list. */
  method Decide(catal: seq<Entry>, pub: Option<string>, sys: Option<string>) returns (r: Local)
    ensures r == LocalOf(View(catal), pub, sys) && DecidesAs(View(catal), pub, sys, r)
  {
    hide View, First, Rewrite, HasDelegate, HasNext, DecidesAs;
    LocalSpelledOut(View(catal), pub, sys);
    var haveNext := 0;
    if sys.Some? {
      var found, rewrite, haveDelegate;
      found, rewrite, haveDelegate, haveNext := ScanSystem(catal, sys.value);
      if found < |catal| {
        return Decided(Uri(catal[found].url));
      }
      if rewrite.Some? {
        var e := catal[rewrite.value];
        assert e.AsData() == View(catal)[rewrite.value];
        return Decided(Uri(e.url + sys.value[|e.name|..]));
      }
      if haveDelegate > 0 {
        return TryDelegates(DelegateSystem, sys.value);
      }
    }
    if pub.Some? {
      var found, haveDelegate, more := ScanPublic(catal, pub.value);
      if found < |catal| {
        return Decided(Uri(catal[found].url));
      }
      if haveDelegate > 0 {
        return TryDelegates(DelegatePublic, pub.value);
      }
      if sys.None? {
        haveNext := haveNext + more;
      }
    }
    return if haveNext > 0 then TryNext else GiveUp;
  }

  class Catalogs {
    const files: Files
    /** xmlCatalogXMLFiles */
    var cache: map<string, Entry>
    ghost const order: seq<string>
    ghost var all: set<Entry>

    // ----- invariant -----

    ghost predicate EntryOk(e: Entry)
      reads this`cache, cache.Values, e
    {
      && (e.children == [] || (e.url in cache && e.children == if e.kind.Catalog? then cache[e.url].children else [cache[e.url]]))
      && (e.kind.Broken? ==> e.url !in files && e.children == [])
      && (e.home.None? ==> e.kind.Catalog? || e.kind.Broken?)
      && (e.home.Some? ==>
            e.home.value in cache && e.place < |cache[e.home.value].children| && cache[e.home.value].children[e.place] == e)
    }

    /** An entry is as it was read, unless its file turned out to be missing. */
    ghost predicate Matches(e: Entry, data: Data)
      reads e`kind
    {
      e.AsData() == data || (e.AsData() == data.(kind := Broken) && RefersToFile(data.kind) && data.url !in files)
    }

    ghost predicate DocOk(u: string)
      reads this`cache, cache.Values, this`all, all
      requires u in cache
    {
      var d := cache[u];
      && u in files && d in all && d.kind.Catalog? && d.url == u && d.home.None?
      && |d.children| == |files[u]|
      && forall i :: 0 <= i < |d.children| ==>
           var c := d.children[i];
           c in all && c.home == Some(u) && c.place == i && c.depth <= MAX_CATAL_DEPTH + 1
           && Matches(c, ReadBy(files[u][i], d.preferPublic))
    }

    ghost predicate Valid()
      reads this`cache, cache.Values, this`all, all
    {
      && FilesOk(files) && (forall u :: u in files ==> u in order)
      && (forall u :: u in cache ==> DocOk(u))
      && forall e :: e in all ==> EntryOk(e)
    }

    /** The loop protection counter of a file's list of entries. */
    ghost function Depth(u: string): int
      reads this`cache, cache.Values, if u in cache && cache[u].children != [] then {cache[u].children[0]} else {}
    {
      if u in cache && cache[u].children != [] then cache[u].children[0].depth else 0
    }

    ghost function Depths(): (m: map<string, int>)
      reads this`cache, cache.Values, this`all, all
      requires Valid()
      ensures m.Keys == files.Keys && forall u :: u in files ==> m[u] == Depth(u) <= MAX_CATAL_DEPTH + 1
    {
      map u | u in files :: (assert u in cache ==> DocOk(u); Depth(u))
    }

    /** The entry lists of the files read so far. */
    ghost function Docs(): (m: map<string, seq<Entry>>)
      reads this`cache, cache.Values
      ensures m.Keys == cache.Keys && forall u :: u in cache ==> m[u] == cache[u].children
    {
      map u | u in cache :: cache[u].children
    }

    /** The entry lists as values. */
    ghost function Views(): (m: Loaded)
      reads this`cache, cache.Values, this`all, all
      requires Valid()
    {
      map u | u in cache :: (assert DocOk(u); View(cache[u].children))
    }

    lemma ViewsMean()
      requires Valid()
      ensures Views().Keys == cache.Keys && forall u :: u in cache ==> Views()[u] == View(cache[u].children)
    {}

    /** Kinds and lists stayed as they were. */
    twostate lemma SameViews()
      requires old(Valid()) && Valid() && cache == old(cache)
      requires forall v :: v in cache ==> cache[v].children == old(cache[v].children)
      requires forall e :: e in old(all) ==> e.kind == old(e.kind)
      ensures Views() == old(Views())
    {
      forall v | v in cache ensures View(cache[v].children) == old(View(cache[v].children)) {
        assert old(DocOk(v));
      }
    }

    predicate Extends(m: map<string, seq<Entry>>, n: map<string, seq<Entry>>)
    {
      forall u :: u in m ==> u in n && n[u] == m[u]
    }

    constructor (files: Files, ghost order: seq<string>)
      requires FilesOk(files) && forall u :: u in files ==> u in order
      ensures Valid() && cache == map[] && all == {} && this.files == files && fresh(all)
      ensures forall u :: u in files ==> Depths()[u] == 0
    {
      this.files, this.order := files, order;
      cache, all := map[], {};
    }

    // ----- loading -----

    /** xmlParseXMLCatalogFile for a readable file. */
    method ParseFile(u: string, prefer: bool) returns (doc: Entry, ghost added: set<Entry>)
      requires u in files
      ensures fresh(doc) && fresh(added) && doc in added
      ensures doc.kind.Catalog? && doc.url == u && doc.home.None? && doc.preferPublic == prefer
      ensures |doc.children| == |files[u]| && forall i :: 0 <= i < |doc.children| ==>
                var c := doc.children[i];
                c in added && c.home == Some(u) && c.place == i && c.AsData() == ReadBy(files[u][i], prefer) && c.depth == 0
      ensures forall e :: e in added && e != doc ==>
                e.children == [] && e.home == Some(u) && e.place < |doc.children| && doc.children[e.place] == e
    {
      doc := new Entry(Data(Kind.Catalog, "", u, prefer), None, 0);
      added := {doc};
      var l: seq<Entry> := [];
      var i := 0;
      while i < |files[u]|
        invariant 0 <= i <= |files[u]| && |l| == i && fresh(added) && doc in added && doc.kind.Catalog?
        invariant forall j :: 0 <= j < i ==>
                    var c := l[j];
                    c in added && c.home == Some(u) && c.place == j && c.AsData() == ReadBy(files[u][j], prefer) && c.depth == 0
        invariant forall e :: e in added && e != doc ==>
                    e.children == [] && e.home == Some(u) && e.place < |l| && l[e.place] == e
      {
        var c := new Entry(ReadBy(files[u][i], prefer), Some(u), i);
        l := l + [c];
        added := added + {c};
        i := i + 1;
      }
      doc.children := l;
    }
 
    /** The file joins the cache. */
    twostate lemma Cached(u: string, new doc: Entry, new added: set<Entry>)
      requires old(Valid()) && u in files && u !in old(cache) && cache == old(cache)[u := doc] && all == old(all) + added
      requires fresh(added) && doc in added && doc.kind.Catalog? && doc.url == u && doc.home.None?
      requires |doc.children| == |files[u]| && forall i :: 0 <= i < |doc.children| ==>
                 var c := doc.children[i];
                 c in added && c.home == Some(u) && c.place == i && c.AsData() == ReadBy(files[u][i], doc.preferPublic) && c.depth == 0
      requires forall e :: e in added && e != doc ==>
                 e.children == [] && e.home == Some(u) && e.place < |doc.children| && doc.children[e.place] == e
      requires forall e :: e in old(all) ==> e.kind == old(e.kind) && e.depth == old(e.depth) && e.children == old(e.children)
      ensures Valid()
    {
      forall v | v in cache ensures DocOk(v) {
        assert v != u ==> old(DocOk(v));
      }
      forall e | e in all ensures EntryOk(e) {
        if e in old(all) {
          assert old(EntryOk(e));
          assert e.home.Some? ==> old(DocOk(e.home.value));
        }
      }
    }

    /** A file that is read has its counter at zero, as if it had been there before. */
    twostate lemma CachedDepth(u: string, new doc: Entry)
      requires old(Valid()) && Valid() && u !in old(cache) && cache == old(cache)[u := doc]
      requires doc.children != [] ==> doc.children[0].depth == 0
      requires forall e :: e in old(all) ==> e.depth == old(e.depth) && e.children == old(e.children)
      ensures Depths() == old(Depths())
    {
      forall v | v in files ensures Depth(v) == old(Depth(v)) {
        if v in old(cache) {
          assert old(DocOk(v)) && DocOk(v);
        }
      }
    }

    twostate lemma CachedView(u: string, new doc: Entry)
      requires old(Valid()) && Valid() && u !in old(cache) && u in files && cache == old(cache)[u := doc]
      requires |doc.children| == |files[u]|
      requires forall i :: 0 <= i < |doc.children| ==> doc.children[i].AsData() == ReadBy(files[u][i], doc.preferPublic)
      requires forall e :: e in old(all) ==> e.kind == old(e.kind) && e.children == old(e.children)
      ensures Views() == OpenFile(files, old(Views()), u, doc.preferPublic)
    {
      hide Valid, DocOk, EntryOk, View, ReadAll, ReadBy;
      forall v | v in old(cache) ensures View(cache[v].children) == old(View(cache[v].children)) {
        KeptView(v);
      }
      assert View(doc.children) == ReadAll(files[u], doc.preferPublic);
    }

    twostate lemma KeptView(new v: string)
      requires old(Valid()) && v in old(cache) && v in cache && cache[v] == old(cache[v])
      requires forall e :: e in old(all) ==> e.kind == old(e.kind) && e.children == old(e.children)
      ensures View(cache[v].children) == old(View(cache[v].children))
    {
      hide EntryOk, Matches, View;
      assert old(DocOk(v));
    }

    /** The part of xmlFetchXMLCatalogFile behind the cache lookup. */
    method Load(u: string, prefer: bool) returns (doc: Entry, ghost added: set<Entry>)
      requires Valid() && u in files && u !in cache
      modifies this`cache, this`all
      ensures Valid() && Depths() == old(Depths()) && Extends(old(Docs()), Docs())
      ensures Views() == OpenFile(files, old(Views()), u, prefer)
      ensures cache == old(cache)[u := doc] && all == old(all) + added && fresh(added)
    {
      hide Matches, EntryOk, DocOk, Valid, Depths, Views, View;
      doc, added := ParseFile(u, prefer);
      cache := cache[u := doc];
      all := all + added;
      Cached(u, doc, added);
      CachedDepth(u, doc);
      CachedView(u, doc);
    }
 
    /** An entry was attached to its file, or marked as broken. */
    twostate lemma Attached(e: Entry)
      requires old(Valid()) && cache == old(cache) && all == old(all) && e in all
      requires old(e.kind).Catalog? || RefersToFile(old(e.kind))
      requires if e.url in cache
               then e.kind == old(e.kind) && e.children == if e.kind.Catalog? then old(cache[e.url].children) else [cache[e.url]]
               else e.url !in files && e.kind.Broken? && e.children == []
      requires forall f :: f in all && f != e ==> f.kind == old(f.kind) && f.children == old(f.children)
      requires forall f :: f in all ==> f.depth == old(f.depth)
      ensures Valid() && forall v :: v in cache ==> cache[v].children == old(cache[v].children)
    {
      forall v | v in cache ensures DocOk(v) && cache[v].children == old(cache[v].children) {
        assert old(DocOk(v)) && old(EntryOk(cache[v]));
      }
      forall f | f in all ensures EntryOk(f) {
        assert old(EntryOk(f));
      }
    }

    twostate lemma SameDepths()
      requires old(Valid()) && Valid() && cache == old(cache)
      requires forall v :: v in cache ==> cache[v].children == old(cache[v].children)
      requires forall e :: e in old(all) ==> e.depth == old(e.depth)
      ensures Depths() == old(Depths())
    {
      forall v | v in files ensures Depth(v) == old(Depth(v)) {
        if v in cache {
          assert old(DocOk(v)) && DocOk(v);
        }
      }
    }

    lemma InFiles(u: string)
      requires Valid()
      ensures u in cache ==> u in files
    {
      assert u in cache ==> DocOk(u);
    }

    lemma NotLoaded(e: Entry)
      requires Valid() && e in all
      ensures e.url !in cache ==> e.children == []
    {
      assert EntryOk(e);
    }

    /** What fetching the file of an entry does to the lists in memory. */
    ghost function Fetched(m: Loaded, e: Entry): Loaded
    {
      if e.home.Some? then Opened(files, m, e.home.value, e.place) else OpenFile(files, m, e.url, e.preferPublic)
    }

    lemma EntryShown(e: Entry)
      requires Valid() && e in all && e.home.Some?
      ensures var u := e.home.value; IsEntry(Views(), u, e.place) && Views()[u][e.place] == e.AsData()
    {
      assert EntryOk(e) && DocOk(e.home.value);
    }

    /** The entry stands where it was read. */
    ghost predicate ShownIn(m: Loaded, e: Entry)
    {
      e.home.Some? ==>
        && IsEntry(m, e.home.value, e.place)
        && var d := m[e.home.value][e.place]; d.name == e.name && d.url == e.url && d.preferPublic == e.preferPublic
    }

    lemma AlreadyThere(m: Loaded, e: Entry)
      requires ShownIn(m, e) && e.url in m
      ensures Fetched(m, e) == m
    {}

    lemma NotThere(m: Loaded, e: Entry)
      requires ShownIn(m, e) && e.url !in m && e.url !in files
      ensures e.home.None? ==> Fetched(m, e) == m
      ensures e.home.Some? ==>
                var u := e.home.value;
                Fetched(m, e) == m[u := m[u][e.place := Data(Broken, e.name, e.url, e.preferPublic)]]
    {}

    /** Loading the file first makes no difference to what fetching comes to. */
    lemma LoadThenAttach(m: Loaded, e: Entry)
      requires ShownIn(m, e) && e.url in files
      ensures Fetched(OpenFile(files, m, e.url, e.preferPublic), e) == Fetched(m, e)
    {}

    /** The entries of another file did not change. */
    twostate lemma OtherView(e: Entry, new v: string)
      requires old(Valid()) && cache == old(cache) && v in cache && cache[v].children == old(cache[v].children)
      requires e.home != Some(v) && forall f :: f in old(all) && f != e ==> f.kind == old(f.kind)
      ensures View(cache[v].children) == old(View(cache[v].children))
    {
      hide EntryOk, Matches, View;
      assert old(DocOk(v));
    }

    twostate lemma MarkedView(e: Entry)
      requires old(Valid()) && cache == old(cache) && e in old(all) && e.home.Some? && e.home.value in cache
      requires cache[e.home.value].children == old(cache[e.home.value].children)
      requires forall f :: f in old(all) && f != e ==> f.kind == old(f.kind)
      ensures e.place < |cache[e.home.value].children|
      ensures View(cache[e.home.value].children) == old(View(cache[e.home.value].children))[e.place := e.AsData()]
    {
      hide Matches, View;
      assert old(EntryOk(e)) && old(DocOk(e.home.value));
    }

    /** One entry was marked as broken. */
    twostate lemma MarkedBroken(e: Entry)
      requires old(Valid()) && Valid() && cache == old(cache) && e in old(all) && e.kind.Broken?
      requires forall v :: v in cache ==> cache[v].children == old(cache[v].children)
      requires forall f :: f in old(all) && f != e ==> f.kind == old(f.kind)
      requires e.url !in cache && e.url !in files
      ensures Views() == Fetched(old(Views()), e)
    {
      hide Valid, DocOk, EntryOk, View, Fetched;
      forall v | v in cache && e.home != Some(v) ensures View(cache[v].children) == old(View(cache[v].children)) {
        OtherView(e, v);
      }
      WasShown(e);
      NotThere(old(Views()), e);
      if e.home.Some? {
        MarkedView(e);
      }
    }

    twostate lemma WasShown(e: Entry)
      requires old(Valid()) && e in old(all)
      ensures ShownIn(old(Views()), e)
    {
      if e.home.Some? {
        assert old(EntryOk(e)) && old(DocOk(e.home.value));
      }
    }

    /** Attaching an entry to its file, or marking it as broken. */
    method Attach(e: Entry)
      requires Valid() && e in all && (e.kind.Catalog? || RefersToFile(e.kind)) && (e.url in cache || e.url !in files)
      modifies e`kind, e`children
      ensures Valid() && Depths() == old(Depths()) && Docs() == old(Docs()) && Views() == Fetched(old(Views()), e)
      ensures if e.url in files
              then e.url in cache && e.kind == old(e.kind) && e.children == if e.kind.Catalog? then cache[e.url].children else [cache[e.url]]
              else e.kind.Broken? && e.children == []
    {
      hide Matches, Valid, Depths, DocOk, EntryOk, Views, View, Fetched, ShownIn;
      InFiles(e.url);
      NotLoaded(e);
      WasShown(e);
      ViewsMean();
      if e.url in cache {
        e.children := if e.kind.Catalog? then cache[e.url].children else [cache[e.url]];
        Attached(e);
        SameViews();
        AlreadyThere(old(Views()), e);
      } else {
        e.kind := Broken;
        Attached(e);
        MarkedBroken(e);
      }
      SameDepths();
    }
 
    /** xmlFetchXMLCatalogFile: from the cache, or from the file, which then joins the cache. */
    method Fetch(e: Entry) returns (ghost added: set<Entry>)
      requires Valid() && e in all && (e.kind.Catalog? || RefersToFile(e.kind)) && e.children == []
      modifies this`cache, this`all, e`kind, e`children
      ensures Valid() && Depths() == old(Depths()) && Extends(old(Docs()), Docs()) && Views() == Fetched(old(Views()), e)
      ensures all == old(all) + added && fresh(added)
      ensures e.url in files ==>
                && e.kind == old(e.kind) && e.url in cache
                && e.children == if e.kind.Catalog? then cache[e.url].children else [cache[e.url]]
      ensures e.url !in files ==> e.kind.Broken? && e.children == []
    {
      hide Valid, DocOk, EntryOk, Matches, Views, View, Fetched, Depths, ShownIn;
      added := {};
      WasShown(e);
      if e.url !in cache && e.url in files {
        LoadThenAttach(Views(), e);
        var doc;
        doc, added := Load(e.url, e.preferPublic);
      }
      Attach(e);
    }
 
    /** A counter changed, and it belongs to one file only. */
    twostate lemma CounterChanged(u: string, new d: int)
      requires old(Valid()) && u in old(cache) && old(cache[u].children) != []
      requires cache == old(cache) && all == old(all) && d <= MAX_CATAL_DEPTH + 1
      requires forall e :: e in all ==> e.kind == old(e.kind) && e.children == old(e.children)
      requires forall e :: e in all ==> e.depth == if e == old(cache[u].children)[0] then d else old(e.depth)
      ensures Valid() && u in files && forall v :: v in cache ==> cache[v].children == old(cache[v].children)
    {
      hide Matches;
      forall v | v in cache ensures DocOk(v) && cache[v].children == old(cache[v].children) {
        assert old(DocOk(v));
      }
      forall e | e in all ensures EntryOk(e) {
        assert old(EntryOk(e));
      }
    }

    twostate lemma CounterOf(u: string, new d: int)
      requires old(Valid()) && Valid() && u in old(cache) && u in files && old(cache[u].children) != []
      requires cache == old(cache) && all == old(all)
      requires forall v :: v in cache ==> cache[v].children == old(cache[v].children)
      requires forall e :: e in all ==> e.depth == if e == old(cache[u].children)[0] then d else old(e.depth)
      ensures Docs() == old(Docs()) && Depths() == old(Depths())[u := d]
    {
      hide Matches, EntryOk;
      assert old(DocOk(u));
      forall v | v in files ensures Depth(v) == if v == u then d else old(Depth(v)) {
        if v in cache {
          assert old(DocOk(v));
        }
      }
    }

    /** catal->depth++ and catal->depth-- */
    method AddDepth(u: string, catal: Entry, d: int)
      requires Valid() && u in cache && cache[u].children != [] && catal == cache[u].children[0]
      requires Depth(u) + d <= MAX_CATAL_DEPTH + 1
      modifies catal`depth
      ensures Valid() && Docs() == old(Docs()) && Views() == old(Views()) && u in files
      ensures Depths() == old(Depths())[u := old(Depth(u)) + d]
    {
      hide Valid, Depths, DocOk, EntryOk, Views;
      catal.depth := catal.depth + d;
      CounterChanged(u, old(Depth(u)) + d);
      CounterOf(u, old(Depth(u)) + d);
      SameViews();
    }
 
    // ----- resolution -----

    ghost function RoomLeft(): nat
      reads this`cache, cache.Values, this`all, all
      requires Valid()
    {
      Room(order, Depths())
    }

    lemma NothingToFetch(e: Entry)
      requires Valid() && e in all && e.url in cache
      ensures Fetched(Views(), e) == Views()
    {
      if e.home.Some? {
        EntryShown(e);
      }
    }

    /** An entry that refers to a file, where it stands. */
    lemma Placed(e: Entry, rank: map<string, nat>)
      requires Valid() && e in all && e.home.Some? && RefersToFile(e.kind)
      ensures var u := e.home.value;
        && u in files && IsEntry(Views(), u, e.place) && Views()[u][e.place] == e.AsData()
        && (Acyclic(files, rank) && e.url in files ==> Below(rank, e.url, u))
    {
      assert EntryOk(e) && DocOk(e.home.value);
      assert Acyclic(files, rank) ==> RefersDown(files, rank, e.home.value);
    }

    /** The file of an entry that refers to one is loaded. */
    method Open(e: Entry) returns (ghost added: set<Entry>)
      requires Valid() && e in all && RefersToFile(e.kind)
      modifies this`cache, this`all, e`kind, e`children
      ensures Valid() && Depths() == old(Depths()) && Extends(old(Docs()), Docs()) && Views() == Fetched(old(Views()), e)
      ensures all == old(all) + added && fresh(added)
      ensures e.children != [] ==>
                && e.url in cache && e.children == [cache[e.url]]
                && cache[e.url] in all && cache[e.url].home.None? && cache[e.url].url == e.url
      ensures e.url in files <==> e.children != []
    {
      hide Matches, Depths, Views, Fetched;
      added := {};
      if e.children == [] {
        added := Fetch(e);
      } else {
        NothingToFetch(e);
      }
      assert EntryOk(e);
      if e.url in cache {
        assert DocOk(e.url);
      }
    }

    /** Since an earlier moment no counter fell, and nothing that was loaded then is lost. */
    ghost predicate Progress(docs: map<string, seq<Entry>>, depths: map<string, int>, was: set<Entry>, added: set<Entry>)
      reads this`cache, cache.Values, this`all, all
    {
      Valid() && Extends(docs, Docs()) && NoLower(depths, Depths()) && all == was + added
    }

    lemma Still()
      requires Valid()
      ensures Progress(Docs(), Depths(), all, {})
    {}

    /** Two stretches in a row. */
    lemma Chain(docs0: map<string, seq<Entry>>, docs1: map<string, seq<Entry>>, depths0: map<string, int>, depths1: map<string, int>,
                all0: set<Entry>, all1: set<Entry>, added: set<Entry>, more: set<Entry>)
      requires Extends(docs0, docs1) && NoLower(depths0, depths1) && all1 == all0 + added
      requires Progress(docs1, depths1, all1, more)
      ensures Valid() && Progress(docs0, depths0, all0, added + more)
    {}

    /** One file is asked through an entry that refers to it. */
    method AskFile(e: Entry, pub: Option<string>, sys: Option<string>, ghost rank: map<string, nat>)
      returns (ret: Answer, asked: bool, ghost added: set<Entry>)
      requires Valid() && e in all && e.home.Some? && RefersToFile(e.kind)
      modifies this`cache, this`all, all
      ensures Progress(old(Docs()), old(Depths()), old(all), added) && fresh(added)
      ensures Calm(files, rank, RankOf(rank, e.home.value), old(Depths())) ==>
                && Outcome(ret, Views()) == AskEntry(files, rank, old(Views()), e.home.value, e.place, pub, sys)
                && Depths() == old(Depths())
      decreases RoomLeft(), 2, 0
    {
      hide Valid, DocOk, EntryOk, Depths, Docs, Views, View, Calm, AskEntry, ResolveFile, ResolveRoots, Effective, Room, Extends,
           NoLower, CalmRoots, Progress, RankOf, Opened, Roots, Below;
      ghost var docs, depths, was, u := Docs(), Depths(), all, e.home.value;
      Unmoved(depths);
      Placed(e, rank);
      InFiles(e.url);
      ViewsMean();
      added := Open(e);
      ret := NotFound;
      ghost var docs1, all1, more, views := Docs(), all, {}, Views();
      asked := e.children != [];
      if asked {
        AskingOne(e, old(Views()), views, rank, depths, pub, sys);
        ret, more := ResolveList(e.children, pub, sys, rank, RankOf(rank, u));
      } else {
        Asking(files, rank, old(Views()), u, e.place, pub, sys);
        Still();
      }
      Chain(docs, docs1, depths, depths, was, all1, added, more);
      added := added + more;
    }

    /** Asking through an entry is asking a list of one. */
    lemma AskingOne(e: Entry, m: Loaded, m': Loaded, rank: map<string, nat>, depths: map<string, int>, pub: Option<string>, sys: Option<string>)
      requires e.home.Some? && IsEntry(m, e.home.value, e.place) && m[e.home.value][e.place].url == e.url && m' == Fetched(m, e)
      requires |e.children| == 1 && e.children[0].url == e.url && e.url in files
      requires Acyclic(files, rank) ==> Below(rank, e.url, e.home.value)
      ensures Calm(files, rank, RankOf(rank, e.home.value), depths) ==>
                && CalmRoots(files, rank, RankOf(rank, e.home.value), Roots(e.children), depths)
                && AskEntry(files, rank, m, e.home.value, e.place, pub, sys)
                   == ResolveRoots(files, rank, m', Roots(e.children), 0, Effective(pub, sys))
    {
      hide AskEntry, ResolveRoots, Effective, ResolveFile;
      var root := Root(e.url, e.children[0].preferPublic);
      assert Roots(e.children) == [root];
      Asking(files, rank, m, e.home.value, e.place, pub, sys);
      SingleRoot(files, rank, m', root, pub, sys);
    }

    static lemma Unmoved(m: map<string, int>)
      requires forall u :: u in m ==> m[u] <= MAX_CATAL_DEPTH + 1
      ensures NoLower(m, m)
    {}

    function Roots(roots: seq<Entry>): (r: seq<Root>)
      ensures |r| == |roots| && forall i :: 0 <= i < |roots| ==> r[i] == Root(roots[i].url, roots[i].preferPublic)
    {
      if roots == [] then [] else [Root(roots[0].url, roots[0].preferPublic)] + Roots(roots[1..])
    }

    /** xmlCatalogListXMLResolve. */
    method ResolveList(roots: seq<Entry>, pub: Option<string>, sys: Option<string>, ghost rank: map<string, nat>, ghost b: nat)
      returns (ret: Answer, ghost added: set<Entry>)
      requires Valid() && forall k :: 0 <= k < |roots| ==> roots[k] in all && roots[k].home.None?
      modifies this`cache, this`all, all
      ensures Progress(old(Docs()), old(Depths()), old(all), added) && fresh(added)
      ensures CalmRoots(files, rank, b, Roots(roots), old(Depths())) ==>
                && Outcome(ret, Views()) == ResolveRoots(files, rank, old(Views()), Roots(roots), 0, Effective(pub, sys))
                && Depths() == old(Depths())
      ensures roots != [] && old(roots[0].kind).Catalog? && Effective(pub, sys).Lookup? ==>
                forall uri :: AnswersAtOnce(old(Views()), old(Depths()), roots[0].url, Effective(pub, sys).pub, Effective(pub, sys).sys, uri) ==>
                  ret == Uri(uri)
      decreases RoomLeft(), 1, 2 + Rank(pub, sys)
    {
      hide AnswersAtOnce, Valid, DocOk, EntryOk, Depths, Docs, Views, Calm, ResolveRoots, Room, Roots, Canonical, Rank, IsUrn, Progress, CalmRoots,
           Effective, Unwrapping;
      ret, added := NotFound, {};
      if pub.None? && sys.None? {
        Still();
        NothingAsked(files, rank, Views(), Roots(roots));
        return;
      }
      var p := Canonicalize(pub);
      var next := Unwrap(p, sys);
      UnwrapFalls(pub, sys);
      EffectiveStep(pub, sys);
      if next.Lookup? {
        ret, added := ResolveList(roots, next.pub, next.sys, rank, b);
      } else {
        ret, added := WalkRoots(roots, p, sys, rank, b);
      }
    }

    /** Its loop over the list of catalogs. */
    method WalkRoots(roots: seq<Entry>, pub: Option<string>, sys: Option<string>, ghost rank: map<string, nat>, ghost b: nat)
      returns (ret: Answer, ghost added: set<Entry>)
      requires Valid() && forall k :: 0 <= k < |roots| ==> roots[k] in all && roots[k].home.None?
      modifies this`cache, this`all, all
      ensures Progress(old(Docs()), old(Depths()), old(all), added) && fresh(added)
      ensures CalmRoots(files, rank, b, Roots(roots), old(Depths())) ==>
                && Outcome(ret, Views()) == ResolveRoots(files, rank, old(Views()), Roots(roots), 0, Lookup(pub, sys))
                && Depths() == old(Depths())
      ensures roots != [] && old(roots[0].kind).Catalog? ==>
                forall uri :: AnswersAtOnce(old(Views()), old(Depths()), roots[0].url, pub, sys, uri) ==> ret == Uri(uri)
      decreases RoomLeft(), 1, 1
    {
      hide AnswersAtOnce, Valid, DocOk, EntryOk, Depths, Docs, Views, Calm, ResolveRoots, RootsFrom, Room, Roots, Progress, CalmRoots, Resolve,
           RootOutcome, RankOf, NoLower, Extends;
      ret, added := NotFound, {};
      ghost var docs, depths, was, views, heads, ids := Docs(), Depths(), all, Views(), Roots(roots), Lookup(pub, sys);
      ghost var calm := CalmRoots(files, rank, b, heads, depths);
      Still();
      FirstRoot(files, rank, views, heads, ids);
      var i := 0;
      while i < |roots|
        invariant 0 <= i <= |roots| && ret == NotFound && Valid()
        invariant Progress(docs, depths, was, added) && fresh(added)
        invariant calm ==> Depths() == depths && RootsFrom(files, rank, views, heads, i, ids, Views())
        invariant i == 0 && roots != [] ==> Views() == views && Depths() == depths && roots[0].kind == old(roots[0].kind)
        invariant i > 0 && old(roots[0].kind).Catalog? ==> forall uri :: !AnswersAtOnce(views, depths, roots[0].url, pub, sys, uri)
      {
        if calm {
          NextRoot(files, rank, views, heads, i, pub, sys, Views());
          CalmRoot(files, rank, b, heads, depths, i);
        }
        ProgressMeans(docs, depths, was, added);
        ghost var docs1, depths1, all1 := Docs(), Depths(), all;
        var stop;
        ghost var more;
        ret, stop, more := AskRoot(roots[i], pub, sys, rank);
        assert fresh(added + more);
        Chain(docs, docs1, depths, depths1, was, all1, added, more);
        assert calm ==> Depths() == depths;
        added := added + more;
        if ret != NotFound || stop {
          return;
        }
        i := i + 1;
      }
      if calm {
        NextRoot(files, rank, views, heads, i, pub, sys, Views());
      }
    }

    lemma ProgressMeans(docs: map<string, seq<Entry>>, depths: map<string, int>, was: set<Entry>, added: set<Entry>)
      requires Progress(docs, depths, was, added)
      ensures Valid() && Extends(docs, Docs()) && NoLower(depths, Depths()) && all == was + added
      ensures RoomLeft() <= Room(order, depths) && was <= all
    {
      RoomShrinks(order, depths, Depths());
    }

    /** One catalog of the list; `stop` when its counter ran up to the limit. */
    method AskRoot(root: Entry, pub: Option<string>, sys: Option<string>, ghost rank: map<string, nat>)
      returns (ret: Answer, stop: bool, ghost added: set<Entry>)
      requires Valid() && root in all && root.home.None?
      modifies this`cache, this`all, all
      ensures Progress(old(Docs()), old(Depths()), old(all), added) && fresh(added)
      ensures (root.url in files ==> Calm(files, rank, RankOf(rank, root.url) + 1, old(Depths()))) ==>
                && Outcome(ret, Views()) == RootOutcome(files, rank, old(Views()), Root(root.url, root.preferPublic), pub, sys)
                && !stop && Depths() == old(Depths())
      ensures old(root.kind).Catalog? ==>
                forall uri :: AnswersAtOnce(old(Views()), old(Depths()), root.url, pub, sys, uri) ==> ret == Uri(uri)
      decreases RoomLeft(), 1, 0
    {
      hide Valid, EntryOk, DocOk, Depths, Docs, Views, AnswersAlone, Calm, Resolve, Room, Extends, NoLower, Progress, RankOf;
      ret, stop, added := NotFound, false, {};
      RootKind(root);
      InFiles(root.url);
      ViewsMean();
      if !root.kind.Catalog? {
        Still();
        NothingLoaded(files, rank, Views(), root.url, pub, sys);
        return;
      }
      ghost var docs, depths, was := Docs(), Depths(), all;
      Unmoved(depths);
      added := OpenRoot(root);
      ghost var docs1, all1, more := Docs(), all, {};
      if root.children != [] {
        InFiles(root.url);
        ret, stop, more := AskOpened(root, pub, sys, rank);
      } else {
        Still();
        InFiles(root.url);
        ViewsMean();
        NothingLoaded(files, rank, Views(), root.url, pub, sys);
      }
      Chain(docs, docs1, depths, depths, was, all1, added, more);
      added := added + more;
    }

    method AskOpened(root: Entry, pub: Option<string>, sys: Option<string>, ghost rank: map<string, nat>)
      returns (ret: Answer, stop: bool, ghost added: set<Entry>)
      requires Valid() && root in all && root.home.None?
      requires root.url in cache && root.children == cache[root.url].children != []
      modifies this`cache, this`all, all
      ensures Progress(old(Docs()), old(Depths()), old(all), added) && fresh(added)
      ensures Calm(files, rank, RankOf(rank, root.url) + 1, old(Depths())) ==>
                && Outcome(ret, Views()) == Resolve(files, rank, old(Views()), root.url, pub, sys) && !stop
                && Depths() == old(Depths())
      ensures forall uri :: AnswersAtOnce(old(Views()), old(Depths()), root.url, pub, sys, uri) ==> ret == Uri(uri)
      decreases RoomLeft(), 0, 2
    {
      hide Valid, EntryOk, DocOk, Depths, Docs, Views, Calm, Resolve, RankOf, LocalOf, View, Room, Extends, NoLower, Progress;
      ghost var docs, depths, was := Docs(), Depths(), all;
      ret, added := ResolveEntries(root.url, root.children, pub, sys, rank);
      ProgressMeans(docs, depths, was, added);
      RootCounter(root);
      if Calm(files, rank, RankOf(rank, root.url) + 1, depths) {
        CalmFile(files, rank, root.url, depths);
      }
      stop := ret == NotFound && root.children != [] && root.children[0].depth > MAX_CATAL_DEPTH;
    }

    /** xmlCatalogXMLResolve. */
    method ResolveEntries(u: string, catal: seq<Entry>, pub: Option<string>, sys: Option<string>, ghost rank: map<string, nat>)
      returns (ret: Answer, ghost added: set<Entry>)
      requires Valid() && u in cache && catal == cache[u].children != []
      modifies this`cache, this`all, all
      ensures Progress(old(Docs()), old(Depths()), old(all), added) && fresh(added)
      ensures u in files && (Calm(files, rank, RankOf(rank, u) + 1, old(Depths())) ==>
                Outcome(ret, Views()) == Resolve(files, rank, old(Views()), u, pub, sys) && Depths() == old(Depths()))
      ensures old(Depth(u)) > MAX_CATAL_DEPTH ==> ret == NotFound && Depths() == old(Depths())
      ensures forall uri :: AnswersAtOnce(old(Views()), old(Depths()), u, pub, sys, uri) ==> ret == Uri(uri)
      decreases RoomLeft(), 0, 1
    {
      hide Valid, EntryOk, DocOk, Depths, Docs, Views, Calm, Follow, Room, Extends, NoLower, Progress, LocalOf, View,
           DecidesAs, AnswersAlone;
      ghost var depths := Depths();
      InCatalog(u);
      ViewsMean();
      if catal[0].depth > MAX_CATAL_DEPTH {
        Still();
        if Calm(files, rank, RankOf(rank, u) + 1, depths) {
          CalmFile(files, rank, u, depths);
          assert false;
        }
        return NotFound, {};
      }
      var local := Decide(catal, pub, sys);
      AtOnce(Views(), depths, u, pub, sys, local);
      ret, added := EnterAndFollow(u, catal, local, pub, sys, rank);
    }

    static lemma AtOnce(m: Loaded, depths: map<string, int>, u: string, pub: Option<string>, sys: Option<string>, local: Local)
      requires u in m ==> DecidesAs(m[u], pub, sys, local)
      ensures forall uri :: AnswersAtOnce(m, depths, u, pub, sys, uri) ==> local == Decided(Uri(uri))
    {
      hide AnswersAlone;
    }

    /** Between catal->depth++ and catal->depth--. */
    method EnterAndFollow(u: string, catal: seq<Entry>, local: Local, pub: Option<string>, sys: Option<string>,
                          ghost rank: map<string, nat>)
      returns (ret: Answer, ghost added: set<Entry>)
      requires Valid() && u in cache && u in files && catal == cache[u].children != [] && Depth(u) <= MAX_CATAL_DEPTH
      requires local.TryDelegates? ==> RefersToFile(local.kind)
      modifies this`cache, this`all, all
      ensures Progress(old(Docs()), old(Depths()), old(all), added) && fresh(added)
      ensures Calm(files, rank, RankOf(rank, u) + 1, old(Depths())) ==>
                Outcome(ret, Views()) == Follow(files, rank, old(Views()), u, local, pub, sys) && Depths() == old(Depths())
      ensures local.Decided? ==> ret == local.answer
      decreases RoomLeft(), 0, 0
    {
      hide Valid, EntryOk, DocOk, Depths, Docs, Views, Calm, Follow, Room, Extends, NoLower, Progress;
      ghost var docs, depths, was := Docs(), Depths(), all;
      InCatalog(u);
      AddDepth(u, catal[0], 1);
      Entered(order, u, depths);
      if Calm(files, rank, RankOf(rank, u) + 1, depths) {
        CalmFile(files, rank, u, depths);
        CalmBelow(files, rank, u, depths, depths[u] + 1);
        assert CalmInside(files, rank, u, depths[u := depths[u] + 1]);
      }
      ghost var docs1, inside, all1 := Docs(), Depths(), all;
      var leaked;
      ret, leaked, added := FollowLocal(u, catal, local, pub, sys, rank);
      InProgress(docs1, inside, all1, added);
      Leave(u, catal[0], leaked, docs1, depths, inside, all1, added);
    }

    /** catal->depth--, unless the counter is left as it is. */
    method Leave(u: string, catal: Entry, leaked: bool,
                 ghost docs: map<string, seq<Entry>>, ghost depths: map<string, int>, ghost inside: map<string, int>,
                 ghost was: set<Entry>, ghost added: set<Entry>)
      requires u in docs && docs[u] != [] && catal == docs[u][0] && u in depths && inside == depths[u := depths[u] + 1]
      requires Progress(docs, inside, was, added)
      modifies catal`depth
      ensures Progress(docs, depths, was, added)
      ensures !leaked && old(Valid() && Depths() == inside) ==> Depths() == depths
      ensures old(Valid()) && Views() == old(Views())
    {
      hide Valid, DocOk, EntryOk, Depths, Docs, Views, View, NoLower;
      Left(u, depths, Depths());
      InCatalog(u);
      if !leaked {
        AddDepth(u, catal, -1);
      }
    }

    lemma InCatalog(u: string)
      requires Valid() && u in cache
      ensures u in files && u in order && u in Depths() && Depths()[u] == Depth(u)
      ensures |cache[u].children| == |files[u]|
      ensures cache[u].children != [] ==> cache[u].children[0].depth == Depth(u) && cache[u].children[0] in all
    {
      assert DocOk(u);
    }

    /** What is done after the list itself has been consulted. `leaked` when the counter is not taken back. */
    method FollowLocal(u: string, catal: seq<Entry>, local: Local, pub: Option<string>, sys: Option<string>,
                       ghost rank: map<string, nat>)
      returns (ret: Answer, leaked: bool, ghost added: set<Entry>)
      requires Valid() && u in cache && u in files && catal == cache[u].children && (local.TryDelegates? ==> RefersToFile(local.kind))
      modifies this`cache, this`all, all
      ensures Progress(old(Docs()), old(Depths()), old(all), added) && fresh(added)
      ensures CalmInside(files, rank, u, old(Depths())) ==>
                && Outcome(ret, Views()) == Follow(files, rank, old(Views()), u, local, pub, sys) && !leaked
                && Depths() == old(Depths())
      ensures local.Decided? ==> ret == local.answer
      decreases RoomLeft(), 4, 0
    {
      hide Valid, DocOk, EntryOk, Depths, Docs, Views, Calm, CalmInside, Room, NoLower, Progress, AskDelegates, AskNext;
      ret, leaked, added := NotFound, false, {};
      match local
      case Decided(a) =>
        Still();
        ret := a;
      case TryDelegates(k, id) =>
        ret, added := TryEachDelegate(u, catal, k, id, rank);
      case TryNext =>
        ret, leaked, added := TryEachNext(u, catal, pub, sys, rank);
      case GiveUp =>
        Still();
    }

    /** One entry of the loop, which began with the lists m and the other snapshots. */
    method AskDelegate(u: string, catal: seq<Entry>, i: nat, delegates: seq<string>, k: Kind, id: string, ghost rank: map<string, nat>,
                       ghost m: Loaded, ghost docs: map<string, seq<Entry>>, ghost depths: map<string, int>, ghost was: set<Entry>,
                       ghost before: set<Entry>)
      returns (ret: Answer, tried: seq<string>, ghost added: set<Entry>)
      requires Progress(docs, depths, was, before) && u in docs && docs[u] == catal && i < |catal| && RefersToFile(k)
      modifies this`cache, this`all, all
      ensures Progress(docs, depths, was, before + added) && fresh(added)
      ensures CalmInside(files, rank, u, old(Depths())) && DelegatesFrom(files, rank, m, u, i, delegates, k, id, old(Views())) ==>
                && Depths() == old(Depths())
                && if ret != NotFound then AskDelegates(files, rank, m, u, 0, [], k, id) == Outcome(ret, Views())
                   else DelegatesFrom(files, rank, m, u, i + 1, tried, k, id, Views())
      decreases Room(order, depths), 2, 1
    {
      hide Valid, DocOk, EntryOk, Depths, Docs, Views, Calm, CalmInside, Room, NoLower, Extends, Progress, AskDelegates, AskEntry,
           DelegatesFrom, RankOf, View;
      ProgressMeans(docs, depths, was, before);
      ghost var docs1, depths1, all1, views := Docs(), Depths(), all, Views();
      ListKept(u, catal, i, docs);
      ret, tried, added := NotFound, delegates, {};
      var cur := catal[i];
      if CalmInside(files, rank, u, depths1) && DelegatesFrom(files, rank, m, u, i, delegates, k, id, views) {
        InsideIsCalm(files, rank, u, depths1);
        DelegateEntry(files, rank, m, u, i, delegates, k, id, views);
      }
      if Delegates(cur.AsData(), k, id) && cur.url !in delegates {
        if |delegates| < MAX_DELEGATE {
          tried := delegates + [cur.url];
        }
        var asked;
        ret, asked, added := AskFile(cur, DelegatedPublic(k, id), DelegatedSystem(k, id), rank);
        Chain(docs, docs1, depths, depths1, was, all1, before, added);
      } else {
        assert before + added == before;
      }
    }

    /** The loop over delegate entries. Only the first MAX_DELEGATE different URLs are remembered. */
    method TryEachDelegate(u: string, catal: seq<Entry>, k: Kind, id: string, ghost rank: map<string, nat>)
      returns (ret: Answer, ghost added: set<Entry>)
      requires Valid() && u in cache && u in files && catal == cache[u].children && RefersToFile(k)
      modifies this`cache, this`all, all
      ensures Progress(old(Docs()), old(Depths()), old(all), added) && fresh(added)
      ensures CalmInside(files, rank, u, old(Depths())) ==>
                && Outcome(ret, Views()) == AskDelegates(files, rank, old(Views()), u, 0, [], k, id)
                && Depths() == old(Depths())
      decreases RoomLeft(), 3, 0
    {
      hide Valid, DocOk, EntryOk, Depths, Docs, Views, Calm, CalmInside, Room, NoLower, Extends, Progress, AskDelegates, AskEntry,
           DelegatesFrom, RankOf, View;
      ret, added := NotFound, {};
      ghost var docs, depths, was, views := Docs(), Depths(), all, Views();
      ghost var calm := CalmInside(files, rank, u, depths);
      Still();
      NoneAsked(files, rank, views, u, k, id);
      var delegates: seq<string> := [];
      var i := 0;
      while i < |catal|
        invariant 0 <= i <= |catal| && ret == NotFound && Valid() && all == was + added
        invariant Progress(docs, depths, was, added) && fresh(added)
        invariant calm ==> Depths() == depths && DelegatesFrom(files, rank, views, u, i, delegates, k, id, Views())
      {
        ghost var more;
        ret, delegates, more := AskDelegate(u, catal, i, delegates, k, id, rank, views, docs, depths, was, added);
        assert fresh(added + more);
        added := added + more;
        InProgress(docs, depths, was, added);
        if ret != NotFound {
          return;
        }
        i := i + 1;
      }
      if calm {
        DelegatesDone(u, catal, delegates, rank, views, k, id, docs, depths, was, added);
      }
      ret := Break;
    }

    lemma DelegatesDone(u: string, catal: seq<Entry>, delegates: seq<string>, rank: map<string, nat>, m: Loaded, k: Kind, id: string,
                        docs: map<string, seq<Entry>>, depths: map<string, int>, was: set<Entry>, added: set<Entry>)
      requires Progress(docs, depths, was, added) && u in docs && docs[u] == catal
      requires DelegatesFrom(files, rank, m, u, |catal|, delegates, k, id, Views())
      ensures AskDelegates(files, rank, m, u, 0, [], k, id) == Outcome(Break, Views())
    {
      hide DelegatesFrom;
      LengthsKept(u, catal, docs);
      DelegateEntry(files, rank, m, u, |catal|, delegates, k, id, Views());
    }

    lemma LengthsKept(u: string, catal: seq<Entry>, docs: map<string, seq<Entry>>)
      requires Valid() && Extends(docs, Docs()) && u in docs && docs[u] == catal
      ensures u in cache && u in files && u in Views() && |catal| == |files[u]| == |Views()[u]|
    {
      assert DocOk(u);
    }

    /** The list of a file that is being resolved stays the same. */
    lemma ListKept(u: string, catal: seq<Entry>, i: nat, docs: map<string, seq<Entry>>)
      requires Valid() && Extends(docs, Docs()) && u in docs && docs[u] == catal && i < |catal|
      ensures u in cache && cache[u].children == catal && catal[i] in all && catal[i].home == Some(u) && catal[i].place == i
      ensures u in files && u in Views() && |catal| == |files[u]| == |Views()[u]| && Views()[u][i] == catal[i].AsData()
      ensures u in Depths() && catal[0].depth == Depths()[u]
    {
      assert DocOk(u);
    }

    /** One entry of the loop, which began with the lists m and the other snapshots; `leaked` when the counter of the
        list ran up to the limit meanwhile. */
    method AskNextEntry(u: string, catal: seq<Entry>, i: nat, pub: Option<string>, sys: Option<string>, ghost rank: map<string, nat>,
                        ghost m: Loaded, ghost docs: map<string, seq<Entry>>, ghost depths: map<string, int>, ghost was: set<Entry>,
                        ghost before: set<Entry>)
      returns (ret: Answer, leaked: bool, ghost added: set<Entry>)
      requires Progress(docs, depths, was, before) && u in docs && docs[u] == catal && i < |catal|
      modifies this`cache, this`all, all
      ensures Progress(docs, depths, was, before + added) && fresh(added)
      ensures CalmInside(files, rank, u, old(Depths())) && NextFrom(files, rank, m, u, i, pub, sys, old(Views())) ==>
                && !leaked && Depths() == old(Depths())
                && if ret != NotFound then AskNext(files, rank, m, u, 0, pub, sys) == Outcome(ret, Views())
                   else NextFrom(files, rank, m, u, i + 1, pub, sys, Views())
      decreases Room(order, depths), 2, 1
    {
      hide Valid, DocOk, EntryOk, Depths, Docs, Views, Calm, CalmInside, Room, NoLower, Extends, Progress, AskEntry, AskNext, NextFrom,
           RankOf, View;
      ProgressMeans(docs, depths, was, before);
      ghost var docs1, depths1, all1, views := Docs(), Depths(), all, Views();
      ListKept(u, catal, i, docs);
      ret, leaked, added := NotFound, false, {};
      var cur := catal[i];
      if CalmInside(files, rank, u, depths1) && NextFrom(files, rank, m, u, i, pub, sys, views) {
        InsideIsCalm(files, rank, u, depths1);
        NextEntry(files, rank, m, u, i, pub, sys, views);
      }
      if cur.kind.NextCatalog? {
        var asked;
        ret, asked, added := AskFile(cur, pub, sys, rank);
        Chain(docs, docs1, depths, depths1, was, all1, before, added);
        ProgressMeans(docs, depths, was, before + added);
        ListKept(u, catal, i, docs);
        leaked := ret == NotFound && asked && catal[0].depth > MAX_CATAL_DEPTH;
      } else {
        assert before + added == before;
      }
    }

    /** The loop over nextCatalog entries. */
    method TryEachNext(u: string, catal: seq<Entry>, pub: Option<string>, sys: Option<string>, ghost rank: map<string, nat>)
      returns (ret: Answer, leaked: bool, ghost added: set<Entry>)
      requires Valid() && u in cache && u in files && catal == cache[u].children
      modifies this`cache, this`all, all
      ensures Progress(old(Docs()), old(Depths()), old(all), added) && fresh(added)
      ensures CalmInside(files, rank, u, old(Depths())) ==>
                && Outcome(ret, Views()) == AskNext(files, rank, old(Views()), u, 0, pub, sys) && !leaked
                && Depths() == old(Depths())
      decreases RoomLeft(), 3, 0
    {
      hide Valid, DocOk, EntryOk, Depths, Docs, Views, Calm, CalmInside, Room, NoLower, Extends, Progress, AskNext, AskEntry,
           NextFrom, RankOf, View;
      ret, leaked, added := NotFound, false, {};
      ghost var docs, depths, was, views := Docs(), Depths(), all, Views();
      ghost var calm := CalmInside(files, rank, u, depths);
      Still();
      NothingNext(files, rank, views, u, pub, sys);
      var i := 0;
      while i < |catal|
        invariant 0 <= i <= |catal| && ret == NotFound && !leaked && Valid() && all == was + added
        invariant Progress(docs, depths, was, added) && fresh(added)
        invariant calm ==> Depths() == depths && NextFrom(files, rank, views, u, i, pub, sys, Views())
      {
        ghost var more;
        ret, leaked, more := AskNextEntry(u, catal, i, pub, sys, rank, views, docs, depths, was, added);
        assert fresh(added + more);
        added := added + more;
        InProgress(docs, depths, was, added);
        if ret != NotFound || leaked {
          return;
        }
        i := i + 1;
      }
      if calm {
        NextDone(u, catal, rank, views, pub, sys, docs, depths, was, added);
      }
    }

    lemma InProgress(docs: map<string, seq<Entry>>, depths: map<string, int>, was: set<Entry>, added: set<Entry>)
      requires Progress(docs, depths, was, added)
      ensures Valid() && all == was + added
    {}

    lemma NextDone(u: string, catal: seq<Entry>, rank: map<string, nat>, m: Loaded, pub: Option<string>, sys: Option<string>,
                   docs: map<string, seq<Entry>>, depths: map<string, int>, was: set<Entry>, added: set<Entry>)
      requires Progress(docs, depths, was, added) && u in docs && docs[u] == catal
      requires NextFrom(files, rank, m, u, |catal|, pub, sys, Views())
      ensures AskNext(files, rank, m, u, 0, pub, sys) == Outcome(NotFound, Views())
    {
      hide NextFrom;
      LengthsKept(u, catal, docs);
      NextEntry(files, rank, m, u, |catal|, pub, sys, Views());
    }

    /** A root entry either is a catalog, or its file could not be read. */
    lemma RootKind(root: Entry)
      requires Valid() && root in all && root.home.None?
      ensures !root.kind.Catalog? ==> root.url !in files
    {
      assert EntryOk(root);
    }

    lemma RootCounter(root: Entry)
      requires Valid() && root in all && root.home.None?
      ensures root.url in files && root.children != [] ==> Depths()[root.url] == root.children[0].depth
    {
      assert EntryOk(root);
    }

    method OpenRoot(root: Entry) returns (ghost added: set<Entry>)
      requires Valid() && root in all && root.kind.Catalog? && root.home.None?
      modifies this`cache, this`all, root`kind, root`children
      ensures Valid() && Depths() == old(Depths()) && Extends(old(Docs()), Docs())
      ensures Views() == OpenFile(files, old(Views()), root.url, root.preferPublic)
      ensures all == old(all) + added && fresh(added)
      ensures root.children != [] ==> root.url in cache && root.children == cache[root.url].children
      ensures root.url in files ==> root.kind.Catalog? && root.url in cache && root.children == cache[root.url].children
    {
      hide Matches, Depths, Views;
      added := {};
      if root.children == [] {
        added := Fetch(root);
      } else {
        NothingToFetch(root);
      }
      assert EntryOk(root);
    }
 
    // ----- use -----

    /** A root catalog, not loaded yet. */
    method AddRoot(url: string, prefer: bool) returns (root: Entry)
      requires Valid()
      modifies this`all
      ensures Valid() && Depths() == old(Depths()) && Views() == old(Views())
      ensures fresh(root) && all == old(all) + {root} && root.home.None? && root.url == url && root.preferPublic == prefer
    {
      root := new Entry(Data(Kind.Catalog, "", url, prefer), None, 0);
      all := all + {root};
      RootAdded(root);
      SameDepths();
      SameViews();
    }

    twostate lemma RootAdded(new root: Entry)
      requires old(Valid()) && cache == old(cache) && all == old(all) + {root}
      requires root.kind.Catalog? && root.home.None? && root.children == []
      requires forall e :: e in old(all) ==> e.kind == old(e.kind) && e.children == old(e.children) && e.depth == old(e.depth)
      ensures Valid() && forall v :: v in cache ==> cache[v].children == old(cache[v].children)
    {
      forall v | v in cache ensures DocOk(v) && cache[v].children == old(cache[v].children) {
        assert old(DocOk(v));
      }
      forall e | e in all ensures EntryOk(e) {
        if e != root {
          assert old(EntryOk(e)) && (e.home.Some? ==> old(DocOk(e.home.value)));
        }
      }
    }

    /** Any number of lookups, without cycles: the answers and the lists in memory are those of the description
        without counters, and the counters come back. In settled files each lookup is answered as if it were the only
        one and nothing had been loaded. */
    method LookupAll(roots: seq<Entry>, requests: seq<Request>, ghost rank: map<string, nat>, ghost b: nat, ghost choice: Choice)
      returns (answers: seq<Answer>, ghost added: set<Entry>)
      requires Valid() && forall k :: 0 <= k < |roots| ==> roots[k] in all && roots[k].home.None?
      modifies this`cache, this`all, all
      ensures Progress(old(Docs()), old(Depths()), old(all), added) && fresh(added)
      ensures |answers| == |requests|
      ensures CalmRoots(files, rank, b, Roots(roots), old(Depths())) ==>
                && Answers(answers, Views()) == Run(files, rank, old(Views()), Roots(roots), requests, |requests|)
                && Depths() == old(Depths())
      ensures CalmRoots(files, rank, b, Roots(roots), old(Depths()))
              && Settled(files, Roots(roots), choice) && Consistent(files, choice, old(Views())) ==>
                forall i :: 0 <= i < |requests| ==>
                  answers[i] == ResolveRoots(files, rank, map[], Roots(roots), 0, Effective(requests[i].0, requests[i].1)).answer
    {
      hide Valid, DocOk, EntryOk, Depths, Docs, Views, Calm, ResolveRoots, Room, Roots, Progress, CalmRoots, NoLower, Extends, Effective,
           Settled, Consistent;
      answers, added := [], {};
      ghost var docs, depths, was, views, heads := Docs(), Depths(), all, Views(), Roots(roots);
      ghost var calm := CalmRoots(files, rank, b, heads, depths);
      Still();
      var n := 0;
      while n < |requests|
        invariant 0 <= n <= |requests| && |answers| == n && Valid()
        invariant Progress(docs, depths, was, added) && fresh(added)
        invariant calm ==> Depths() == depths && Answers(answers, Views()) == Run(files, rank, views, heads, requests, n)
      {
        ProgressMeans(docs, depths, was, added);
        ghost var docs1, depths1, all1 := Docs(), Depths(), all;
        var ret;
        ghost var more;
        ret, more := ResolveList(roots, requests[n].0, requests[n].1, rank, b);
        assert fresh(added + more);
        Chain(docs, docs1, depths, depths1, was, all1, added, more);
        assert calm ==> Depths() == depths;
        added := added + more;
        answers := answers + [ret];
        n := n + 1;
      }
      if calm && Settled(files, heads, choice) && Consistent(files, choice, views) {
        forall i | 0 <= i < |requests|
          ensures answers[i] == ResolveRoots(files, rank, map[], heads, 0, Effective(requests[i].0, requests[i].1)).answer
        {
          CalmIsAcyclic(files, rank, b, heads, depths);
          OrderCannotBeNoticed(files, rank, choice, views, heads, requests, i);
        }
      }
    }
  }

  lemma CalmIsAcyclic(files: Files, rank: map<string, nat>, b: nat, roots: seq<Root>, depths: map<string, int>)
    requires CalmRoots(files, rank, b, roots, depths)
    ensures Acyclic(files, rank)
  {}

  /** Counters that were never touched are calm. */
  lemma FreshIsCalm(files: Files, rank: map<string, nat>, roots: seq<Root>, depths: map<string, int>, b: nat)
    requires Acyclic(files, rank) && depths.Keys == files.Keys && forall u :: u in files ==> depths[u] == 0
    requires forall k :: 0 <= k < |roots| && roots[k].url in files ==> rank[roots[k].url] < b
    ensures CalmRoots(files, rank, b, roots, depths)
  {}
}
