/** The canonicalizer of c14n.c for inclusive canonical form: the stack of rendered namespaces, the processing of
    the namespace axis of an element, and the recursion over the document. */
module C14n {
  import opened Octets
  import opened ByteOrder
  import opened C14nNormalize
  import opened C14nTree
  import opened C14nOrder

  // ---------- the stack of rendered namespaces ----------

  datatype SavedCursors = SavedCursors(nsCurEnd: nat, nsPrevStart: nat, nsPrevEnd: nat)

  predicate IsEmptyNs(ns: Ns)
  {
    ns.prefix == [] && ns.href == []
  }

  /** What a downward search from the top of `tab` to `start` answers. */
  function Lookup(tab: seq<Ns>, start: nat, ns: Ns): bool
  {
    if |tab| <= start then IsEmptyNs(ns)
    else if tab[|tab| - 1].prefix == ns.prefix then tab[|tab| - 1].href == ns.href
    else Lookup(tab[..|tab| - 1], start, ns)
  }

  class VisibleNsStack {
    var nsCurEnd: nat
    var nsPrevStart: nat
    var nsPrevEnd: nat
    var nsTab: array<Ns>

    ghost predicate Valid()
      reads this
    {
      nsPrevStart <= nsPrevEnd <= nsCurEnd <= nsTab.Length
    }

    ghost function Live(): seq<Ns>
      reads this, nsTab
      requires nsCurEnd <= nsTab.Length
    {
      nsTab[..nsCurEnd]
    }

    ghost function Cursors(): SavedCursors
      reads this
    {
      SavedCursors(nsCurEnd, nsPrevStart, nsPrevEnd)
    }

    constructor ()
      ensures Valid() && fresh(nsTab) && Live() == [] && Cursors() == SavedCursors(0, 0, 0)
    {
      nsCurEnd, nsPrevStart, nsPrevEnd := 0, 0, 0;
      nsTab := new Ns[0];
    }

    method Add(ns: Ns)
      requires Valid()
      modifies this`nsCurEnd, this`nsTab, nsTab
      ensures Valid() && (nsTab == old(nsTab) || fresh(nsTab))
      ensures Live() == old(Live()) + [ns]
    {
      if nsTab.Length == 0 {
        nsTab := new Ns[16];
      } else if nsTab.Length == nsCurEnd {
        var tmp := new Ns[2 * nsTab.Length];
        forall i | 0 <= i < nsTab.Length {
          tmp[i] := nsTab[i];
        }
        nsTab := tmp;
      }
      nsTab[nsCurEnd] := ns;
      nsCurEnd := nsCurEnd + 1;
    }

    method Save() returns (state: SavedCursors)
      ensures state == Cursors()
    {
      state := SavedCursors(nsCurEnd, nsPrevStart, nsPrevEnd);
    }

    method Restore(state: SavedCursors)
      modifies this`nsCurEnd, this`nsPrevStart, this`nsPrevEnd
      ensures Cursors() == state
    {
      nsCurEnd := state.nsCurEnd;
      nsPrevStart := state.nsPrevStart;
      nsPrevEnd := state.nsPrevEnd;
    }

    method Shift()
      modifies this`nsPrevStart, this`nsPrevEnd
      ensures nsPrevStart == old(nsPrevEnd) && nsPrevEnd == nsCurEnd
    {
      nsPrevStart := nsPrevEnd;
      nsPrevEnd := nsCurEnd;
    }

    method Find(ns: Ns) returns (found: bool)
      requires Valid()
      ensures found == Lookup(Live(), if IsEmptyNs(ns) then 0 else nsPrevStart, ns)
    {
      var hasEmptyNs := ns.prefix == [] && ns.href == [];
      var start := if hasEmptyNs then 0 else nsPrevStart;
      var i := nsCurEnd - 1;
      assert Live()[..i + 1] == Live();
      while i >= start
        invariant -1 <= i < nsCurEnd
        invariant Lookup(Live(), start, ns) == Lookup(Live()[..i + 1], start, ns)
      {
        var ns1 := nsTab[i];
        assert Live()[..i + 1][|Live()[..i + 1]| - 1] == ns1;
        if ns.prefix == ns1.prefix {
          return ns.href == ns1.href;
        }
        assert Live()[..i + 1][..i] == Live()[..i];
        i := i - 1;
      }
      return hasEmptyNs;
    }
  }

  // ---------- xmlSearchNs ----------

  /** Where a prefix is bound: by the document for xml, else by a declaration of some element of the path. */
  datatype Place = Nowhere | OfDocument | At(level: nat, index: nat)

  function FirstIndex(nsDef: seq<Ns>, i: nat, prefix: seq<byte>): (k: nat)
    requires i <= |nsDef|
    ensures i <= k <= |nsDef| && (k < |nsDef| ==> nsDef[k].prefix == prefix)
    ensures forall j :: i <= j < k ==> nsDef[j].prefix != prefix
    decreases |nsDef| - i
  {
    if i == |nsDef| || nsDef[i].prefix == prefix then i else FirstIndex(nsDef, i + 1, prefix)
  }

  /** The nearest declaration. `path` lists the declarations of the ancestors, the element itself last. */
  function SearchUp(path: seq<seq<Ns>>, prefix: seq<byte>): (p: Place)
    ensures p.At? ==> p.level < |path| && p.index < |path[p.level]| && path[p.level][p.index].prefix == prefix
    ensures !p.OfDocument?
  {
    if path == [] then Nowhere
    else
      var last := |path| - 1;
      var k := FirstIndex(path[last], 0, prefix);
      if k < |path[last]| then At(last, k) else SearchUp(path[..last], prefix)
  }

  function SearchNs(path: seq<seq<Ns>>, prefix: seq<byte>): (p: Place)
    ensures p.At? ==> p.level < |path| && p.index < |path[p.level]| && path[p.level][p.index].prefix == prefix
  {
    if prefix == XML_PREFIX then OfDocument else SearchUp(path, prefix)
  }

  /** The declaration that the own name of an element refers to has the prefix. */
  predicate NamedBy(path: seq<seq<Ns>>, p: Place, prefix: seq<byte>)
  {
    p.At? && p.level < |path| && p.index < |path[p.level]| && path[p.level][p.index].prefix == prefix
  }

  /** The search as it is coded: at each ancestor it also looks at the declaration that the ancestor's own name refers
      to, listed in `own`. */
  function SearchWithNames(path: seq<seq<Ns>>, own: seq<Place>, orig: bool, prefix: seq<byte>): Place
    requires |own| == |path|
  {
    if path == [] then Nowhere
    else
      var last := |path| - 1;
      var k := FirstIndex(path[last], 0, prefix);
      if k < |path[last]| then At(last, k)
      else if !orig && NamedBy(path, own[last], prefix) then own[last]
      else SearchWithNames(path[..last], own[..last], false, prefix)
  }

  /** As parsed, a name refers to the nearest declaration of its prefix. */
  ghost predicate NamesBound(path: seq<seq<Ns>>, own: seq<Place>)
  {
    |own| == |path| && forall l, prefix :: 0 <= l < |path| && NamedBy(path, own[l], prefix) ==> SearchUp(path[..l + 1], prefix) == own[l]
  }

  /** In a parsed document the look at the names makes no difference. */
  lemma {:induction false} NamesAddNothing(path: seq<seq<Ns>>, own: seq<Place>, orig: bool, prefix: seq<byte>)
    requires NamesBound(path, own)
    ensures SearchWithNames(path, own, orig, prefix) == SearchUp(path, prefix)
  {
    if path != [] {
      var last := |path| - 1;
      assert path[..last + 1] == path;
      var path', own' := path[..last], own[..last];
      forall l, p | 0 <= l < |path'| && NamedBy(path', own'[l], p) ensures SearchUp(path'[..l + 1], p) == own'[l] {
        assert NamedBy(path, own[l], p) && path'[..l + 1] == path[..l + 1];
      }
      NamesAddNothing(path', own', false, prefix);
    }
  }

  ghost function ScopeOf(path: seq<seq<Ns>>): Scope
  {
    if path == [] then map[] else Declare(ScopeOf(path[..|path| - 1]), path[|path| - 1])
  }

  lemma {:induction false} ScopeWithoutXml(path: seq<seq<Ns>>)
    ensures XML_PREFIX !in ScopeOf(path)
  {
    if path != [] {
      ScopeWithoutXml(path[..|path| - 1]);
      DeclareGrows(ScopeOf(path[..|path| - 1]), path[|path| - 1]);
    }
  }

  /** The scope binds exactly the prefixes the search finds, to the URI of the declaration found. */
  lemma {:induction false} SearchIsScope(path: seq<seq<Ns>>, prefix: seq<byte>)
    ensures SearchNs(path, prefix).At? <==> prefix in ScopeOf(path)
    ensures var p := SearchNs(path, prefix); p.At? ==> ScopeOf(path)[prefix] == path[p.level][p.index].href
  {
    if prefix == XML_PREFIX {
      ScopeWithoutXml(path);
    } else if path != [] {
      var last := |path| - 1;
      var k := FirstIndex(path[last], 0, prefix);
      SearchIsScope(path[..last], prefix);
      if k < |path[last]| {
        DeclareListed(ScopeOf(path[..last]), path[last], k);
      } else {
        DeclareUnlisted(ScopeOf(path[..last]), path[last], prefix);
      }
    }
  }

  // ---------- the stack mirrors the scopes of the output ancestors ----------

  /** A stretch of the stack holds the whole namespace axis of an element with this scope. */
  ghost predicate IsAxis(seg: seq<Ns>, scope: Scope)
  {
    && (forall i :: 0 <= i < |seg| ==> seg[i].prefix in scope && scope[seg[i].prefix] == seg[i].href)
    && forall p :: p in scope ==> Ns(p, scope[p]) in seg
  }

  /** Between elements: the last axis pushed is the parent's, and nothing below it is declared outside the
      parent's scope. */
  ghost predicate Mirrors(live: seq<Ns>, prevStart: nat, scope: Scope)
  {
    prevStart <= |live| && IsAxis(live[prevStart..], scope)
    && forall i :: 0 <= i < |live| ==> live[i].prefix in scope
  }

  lemma {:induction false} LookupMisses(tab: seq<Ns>, start: nat, ns: Ns)
    requires forall i :: start <= i < |tab| ==> tab[i].prefix != ns.prefix
    ensures Lookup(tab, start, ns) == IsEmptyNs(ns)
  {
    if |tab| > start {
      LookupMisses(tab[..|tab| - 1], start, ns);
    }
  }

  lemma {:induction false} LookupHits(tab: seq<Ns>, start: nat, ns: Ns, top: nat, k: nat, href: seq<byte>)
    requires start <= top <= k < |tab| && tab[k].prefix == ns.prefix
    requires forall i :: top <= i < |tab| && tab[i].prefix == ns.prefix ==> tab[i].href == href
    ensures Lookup(tab, start, ns) == (href == ns.href)
  {
    if tab[|tab| - 1].prefix != ns.prefix {
      LookupHits(tab[..|tab| - 1], start, ns, top, k, href);
    }
  }

  lemma AxisAgrees(below: seq<Ns>, prevStart: nat, outer: Scope, i: nat)
    requires Mirrors(below, prevStart, outer) && prevStart <= i < |below|
    ensures below[i].prefix in outer && outer[below[i].prefix] == below[i].href
  {
    assert below[prevStart..][i - prevStart] == below[i];
  }

  lemma AxisEntry(below: seq<Ns>, prevStart: nat, outer: Scope, p: seq<byte>) returns (k: nat)
    requires Mirrors(below, prevStart, outer) && p in outer
    ensures prevStart <= k < |below| && below[k] == Ns(p, outer[p])
  {
    assert Ns(p, outer[p]) in below[prevStart..];
    var j :| 0 <= j < |below[prevStart..]| && below[prevStart..][j] == Ns(p, outer[p]);
    k := prevStart + j;
  }

  /** A search for a prefix not yet pushed by the element itself answers whether the parent binds it alike. */
  lemma LookupMeansSame(below: seq<Ns>, pushed: seq<Ns>, prevStart: nat, ns: Ns, outer: Scope)
    requires Mirrors(below, prevStart, outer)
    requires forall i :: 0 <= i < |pushed| ==> pushed[i].prefix != ns.prefix
    ensures Lookup(below + pushed, if IsEmptyNs(ns) then 0 else prevStart, ns)
            <==> Meaning(outer, ns.prefix) == Bound(ns.href)
  {
    var tab := below + pushed;
    var start := if IsEmptyNs(ns) then 0 else prevStart;
    if ns.prefix in outer {
      var k := AxisEntry(below, prevStart, outer, ns.prefix);
      forall i | prevStart <= i < |tab| && tab[i].prefix == ns.prefix ensures tab[i].href == outer[ns.prefix] {
        assert i < |below|;
        AxisAgrees(below, prevStart, outer, i);
      }
      LookupHits(tab, start, ns, prevStart, k, outer[ns.prefix]);
    } else {
      assert forall i :: 0 <= i < |below| ==> below[i].prefix != ns.prefix;
      LookupMisses(tab, start, ns);
    }
  }

  // ---------- output ----------

  datatype Token =
    | OpenTag(name: seq<byte>)
    | NsDecl(ns: Ns)
    | AttrOut(prefix: seq<byte>, name: seq<byte>, bytes: seq<byte>)
    | TagEnd
    | CloseTag(name: seq<byte>)
    | Chars(text: seq<byte>)

  function Decls(l: seq<Ns>): (t: seq<Token>)
    ensures |t| == |l|
  {
    seq(|l|, i requires 0 <= i < |l| => NsDecl(l[i]))
  }

  function AttrToken(a: Attribute): Token
  {
    AttrOut(a.prefix, a.name, Normalize(a.value, C14nNormalize.Attr))
  }

  function AttrTokens(l: seq<Attribute>): (t: seq<Token>)
    ensures |t| == |l|
  {
    seq(|l|, i requires 0 <= i < |l| => AttrToken(l[i]))
  }

  function Serialize(n: Node): seq<Token>
    decreases n, 0
  {
    match n
    case Text(content) => [Chars(Normalize(content, C14nNormalize.Text))]
    case Element(name, nsDef, attrs, _, children) =>
      [OpenTag(name)] + Decls(nsDef) + AttrTokens(attrs) + [TagEnd] + SerializeList(children) + [CloseTag(name)]
  }

  function SerializeList(l: seq<Node>): seq<Token>
    decreases l, 1
  {
    if l == [] then [] else SerializeList(l[..|l| - 1]) + Serialize(l[|l| - 1])
  }

  /** Some element of the tree fails the check for relative namespace URIs. */
  ghost predicate HasRelativeUri(n: Node)
    decreases n
  {
    n.Element? && (n.relativeUri || exists i :: 0 <= i < |n.children| && HasRelativeUri(n.children[i]))
  }

  // ---------- the namespace axis ----------

  /** Declarations of the levels above (level, index), walking from the element towards the root, are done. */
  ghost predicate Done(p: Place, level: int, index: int)
  {
    p.At? && (p.level > level || (p.level == level && p.index < index))
  }

  /** State of the axis walk: what has been pushed, and which of that goes into the sorted list. */
  ghost predicate AxisUpTo(path: seq<seq<Ns>>, level: int, index: int, pushed: seq<Ns>, list: seq<Ns>, outer: Scope)
  {
    var own := ScopeOf(path);
    && (forall i :: 0 <= i < |pushed| ==>
          pushed[i].prefix in own && own[pushed[i].prefix] == pushed[i].href
          && Done(SearchNs(path, pushed[i].prefix), level, index))
    && (forall p :: Done(SearchNs(path, p), level, index) && p in own ==> Ns(p, own[p]) in pushed)
    && Ascending(list)
    && forall ns :: ns in list <==> ns in pushed && Meaning(outer, ns.prefix) != Bound(ns.href)
  }

  ghost predicate HasDefault(pushed: seq<Ns>)
  {
    exists i :: 0 <= i < |pushed| && pushed[i].prefix == []
  }

  lemma HasDefaultSnoc(pushed: seq<Ns>, ns: Ns)
    ensures HasDefault(pushed + [ns]) <==> HasDefault(pushed) || ns.prefix == []
  {
    var pushed' := pushed + [ns];
    assert pushed'[|pushed|] == ns;
    if i :| 0 <= i < |pushed| && pushed[i].prefix == [] {
      assert pushed'[i].prefix == [];
    }
  }

  lemma AxisSkips(path: seq<seq<Ns>>, level: nat, index: nat, pushed: seq<Ns>, list: seq<Ns>, outer: Scope)
    requires level < |path| && index < |path[level]| && AxisUpTo(path, level, index, pushed, list, outer)
    requires SearchNs(path, path[level][index].prefix) != At(level, index)
    ensures AxisUpTo(path, level, index + 1, pushed, list, outer)
  {
    forall p ensures Done(SearchNs(path, p), level, index + 1) ==> Done(SearchNs(path, p), level, index) {
    }
  }

  lemma AxisPushes(path: seq<seq<Ns>>, level: nat, index: nat, pushed: seq<Ns>, list: seq<Ns>, list': seq<Ns>, outer: Scope)
    requires level < |path| && index < |path[level]| && AxisUpTo(path, level, index, pushed, list, outer)
    requires var ns := path[level][index];
      SearchNs(path, ns.prefix) == At(level, index) && Ascending(list')
      && forall x :: x in list' <==> x in list || (x == ns && Meaning(outer, ns.prefix) != Bound(ns.href))
    ensures AxisUpTo(path, level, index + 1, pushed + [path[level][index]], list', outer)
  {
    var ns := path[level][index];
    var own := ScopeOf(path);
    SearchIsScope(path, ns.prefix);
    var pushed' := pushed + [ns];
    forall p | Done(SearchNs(path, p), level, index + 1) && p in own ensures Ns(p, own[p]) in pushed' {
      if SearchNs(path, p) == At(level, index) {
        assert ns == Ns(p, own[p]);
        assert pushed'[|pushed|] == ns;
      } else {
        assert Ns(p, own[p]) in pushed;
      }
    }
    forall x ensures x in list' <==> x in pushed' && Meaning(outer, x.prefix) != Bound(x.href) {
      assert x in pushed' <==> x in pushed || x == ns;
    }
  }

  /** When the walk has reached the root, the pushed entries are the axis and the list is the canonical one. */
  lemma AxisComplete(path: seq<seq<Ns>>, pushed: seq<Ns>, list: seq<Ns>, outer: Scope)
    requires AxisUpTo(path, -1, 0, pushed, list, outer)
    ensures IsAxis(pushed, ScopeOf(path)) && CanonicalDecls(list, outer, ScopeOf(path))
  {
    var own := ScopeOf(path);
    forall p | p in own ensures Ns(p, own[p]) in pushed {
      SearchIsScope(path, p);
      assert Done(SearchNs(path, p), -1, 0);
    }
    forall ns ensures ns in list <==> ns.prefix in own && own[ns.prefix] == ns.href && Meaning(outer, ns.prefix) != Bound(ns.href) {
      if ns in pushed {
        var i :| 0 <= i < |pushed| && pushed[i] == ns;
      }
      if ns.prefix in own && own[ns.prefix] == ns.href {
        assert Ns(ns.prefix, own[ns.prefix]) in pushed;
      }
    }
  }

  lemma NextLevel(path: seq<seq<Ns>>, level: nat, pushed: seq<Ns>, list: seq<Ns>, outer: Scope)
    requires level < |path| && AxisUpTo(path, level, |path[level]|, pushed, list, outer)
    ensures AxisUpTo(path, level - 1, 0, pushed, list, outer)
  {
    forall p ensures Done(SearchNs(path, p), level - 1, 0) <==> Done(SearchNs(path, p), level, |path[level]|) {
    }
  }

  /** A new item in front of the first one that is not smaller keeps a list sorted. */
  lemma Inserted<T>(list: seq<T>, lk: nat, x: T, key: T -> seq<byte>)
    requires lk <= |list| && Sorted(list, key) && forall i :: 0 <= i < |list| ==> key(list[i]) != key(x)
    requires forall i :: 0 <= i < lk ==> Less(key(list[i]), key(x))
    requires lk < |list| ==> !Less(key(list[lk]), key(x))
    ensures var r := list[..lk] + [x] + list[lk..]; Sorted(r, key) && forall y :: y in r <==> y in list || y == x
  {
    var r := list[..lk] + [x] + list[lk..];
    InsertedMembers(list, lk, x);
    forall i | lk <= i < |list| ensures Less(key(x), key(list[i])) {
      LessTotal(key(x), key(list[lk]));
      if i > lk {
        LessTransitive(key(x), key(list[lk]), key(list[i]));
      }
    }
  }

  lemma InsertedMembers<T>(list: seq<T>, lk: nat, x: T)
    requires lk <= |list|
    ensures forall y :: y in list[..lk] + [x] + list[lk..] <==> y in list || y == x
  {
    assert list == list[..lk] + list[lk..];
  }

  /** xmlListInsert on the sorted list: in front of the first entry that is not smaller. */
  method ListInsert(list: seq<Ns>, ns: Ns) returns (r: seq<Ns>)
    requires Ascending(list) && forall i :: 0 <= i < |list| ==> list[i].prefix != ns.prefix
    ensures Ascending(r) && forall x :: x in r <==> x in list || x == ns
  {
    var lk := 0;
    while lk < |list| && Less(list[lk].prefix, ns.prefix)
      invariant 0 <= lk <= |list|
      invariant forall i :: 0 <= i < lk ==> Less(list[i].prefix, ns.prefix)
    {
      lk := lk + 1;
    }
    r := list[..lk] + [ns] + list[lk..];
    ghost var key := (x: Ns) => x.prefix;
    Inserted(list, lk, ns, key);
    assert forall i :: 0 <= i < |r| ==> key(r[i]) == r[i].prefix;
  }

  // ---------- the attribute axis ----------

  /** attr->ns, the declaration that the prefix of the attribute refers to. */
  function AttrNs(path: seq<seq<Ns>>, a: Attribute): (p: Place)
    ensures p.At? ==> p.level < |path| && p.index < |path[p.level]| && path[p.level][p.index].prefix == a.prefix
  {
    if a.prefix == [] then Nowhere else SearchNs(path, a.prefix)
  }

  /** attr->name */
  function AttrName(path: seq<seq<Ns>>, a: Attribute): seq<byte>
  {
    if a.prefix != [] && AttrNs(path, a).Nowhere? then a.prefix + [58] + a.name else a.name
  }

  function Href(path: seq<seq<Ns>>, p: Place): seq<byte>
    requires p.At? ==> p.level < |path| && p.index < |path[p.level]|
  {
    match p
    case Nowhere => []
    case OfDocument => XML_NAMESPACE
    case At(level, index) => path[level][index].href
  }

  function Strcmp(a: seq<byte>, b: seq<byte>): int
  {
    if a == b then 0 else if Less(a, b) then -1 else 1
  }

  /** xmlC14NAttrsCompare */
  function AttrsCompare(path: seq<seq<Ns>>, a: Attribute, b: Attribute): int
  {
    var p, q := AttrNs(path, a), AttrNs(path, b);
    if p == q then Strcmp(AttrName(path, a), AttrName(path, b))
    else if p.Nowhere? then -1
    else if q.Nowhere? then 1
    else
      var ret := Strcmp(Href(path, p), Href(path, q));
      if ret == 0 then Strcmp(AttrName(path, a), AttrName(path, b)) else ret
  }

  ghost predicate PathOk(path: seq<seq<Ns>>)
  {
    forall level, i :: 0 <= level < |path| && 0 <= i < |path[level]| ==> 0 !in path[level][i].href
  }

  /** The key of an attribute in terms of the declaration found. */
  lemma KeyOfPlace(path: seq<seq<Ns>>, a: Attribute)
    ensures var p := AttrNs(path, a);
      AttrKey(ScopeOf(path), a) == if p.Nowhere? then [0] + AttrName(path, a) else [1] + (Href(path, p) + ([0] + AttrName(path, a)))
  {
    SearchIsScope(path, a.prefix);
    ScopeWithoutXml(path);
  }

  /** The comparison orders attributes by their keys. */
  lemma CompareByKey(path: seq<seq<Ns>>, a: Attribute, b: Attribute)
    requires PathOk(path)
    ensures AttrsCompare(path, a, b) < 0 <==> Less(AttrKey(ScopeOf(path), a), AttrKey(ScopeOf(path), b))
  {
    var p, q := AttrNs(path, a), AttrNs(path, b);
    var m, n := AttrName(path, a), AttrName(path, b);
    KeyOfPlace(path, a);
    KeyOfPlace(path, b);
    hide AttrKey, ScopeOf, AttrNs, AttrName;
    LessIrreflexive(m);
    if p.Nowhere? && q.Nowhere? {
      LessFront([0], m, n);
    } else if !p.Nowhere? && !q.Nowhere? {
      var h, k := Href(path, p), Href(path, q);
      hide Less;
      LessFront([1], h + ([0] + m), k + ([0] + n));
      HrefOk(path, p);
      HrefOk(path, q);
      LessPair(h, m, k, n);
      LessIrreflexive(h);
    } else {
      DifferentFirst(m, Href(path, q) + ([0] + n));
      DifferentFirst(n, Href(path, p) + ([0] + m));
    }
  }

  lemma HrefOk(path: seq<seq<Ns>>, p: Place)
    requires PathOk(path) && (p.At? ==> p.level < |path| && p.index < |path[p.level]|)
    ensures 0 !in Href(path, p)
  {
  }

  // ---------- the canonicalizer ----------

  class Canonicalizer {
    const nsRendered: VisibleNsStack
    var buf: seq<Token>

    constructor ()
      ensures fresh(nsRendered) && fresh(nsRendered.nsTab) && nsRendered.Valid() && buf == []
      ensures nsRendered.Live() == [] && nsRendered.Cursors() == SavedCursors(0, 0, 0)
    {
      nsRendered := new VisibleNsStack();
      buf := [];
    }

    /** The stack as it is found on entry to an element whose parent has scope `outer`. */
    ghost predicate Ready(outer: Scope)
      reads this, nsRendered, nsRendered.nsTab
    {
      nsRendered.Valid() && nsRendered.nsPrevEnd == nsRendered.nsCurEnd
      && Mirrors(nsRendered.Live(), nsRendered.nsPrevStart, outer)
    }

    method PrintNamespaces(ns: Ns)
      modifies this`buf
      ensures buf == old(buf) + [NsDecl(ns)]
    {
      buf := buf + [NsDecl(ns)];
    }

    method ListWalk(list: seq<Ns>)
      modifies this`buf
      ensures buf == old(buf) + Decls(list)
    {
      var i := 0;
      while i < |list|
        invariant 0 <= i <= |list|
        invariant buf == old(buf) + Decls(list[..i])
      {
        PrintNamespaces(list[i]);
        i := i + 1;
        assert Decls(list[..i]) == Decls(list[..i - 1]) + [NsDecl(list[i - 1])];
      }
      assert list[..i] == list;
    }

    /** One turn of the inner loop of the axis walk. */
    method ConsiderDeclaration(path: seq<seq<Ns>>, level: nat, index: nat, list: seq<Ns>, hasEmptyNs: bool,
                               ghost below: seq<Ns>, ghost pushed: seq<Ns>, ghost outer: Scope)
      returns (list': seq<Ns>, hasEmptyNs': bool, ghost pushed': seq<Ns>)
      requires level < |path| && index < |path[level]| && nsRendered.Valid()
      requires nsRendered.Live() == below + pushed && Mirrors(below, nsRendered.nsPrevStart, outer)
      requires AxisUpTo(path, level, index, pushed, list, outer)
      requires hasEmptyNs <==> HasDefault(pushed)
      modifies nsRendered`nsCurEnd, nsRendered`nsTab, nsRendered.nsTab
      ensures nsRendered.Valid() && (nsRendered.nsTab == old(nsRendered.nsTab) || fresh(nsRendered.nsTab))
      ensures nsRendered.Live() == below + pushed'
      ensures AxisUpTo(path, level, index + 1, pushed', list', outer)
      ensures hasEmptyNs' <==> HasDefault(pushed')
    {
      hide AxisUpTo, Mirrors, Lookup, HasDefault, Ascending;
      list', hasEmptyNs', pushed' := list, hasEmptyNs, pushed;
      var ns := path[level][index];
      var tmp := SearchNs(path, ns.prefix);
      if tmp == At(level, index) && !IsXmlNs(ns) {
        NotYetPushed(path, level, index, pushed, list, outer);
        LookupMeansSame(below, pushed, nsRendered.nsPrevStart, ns, outer);
        var alreadyRendered := nsRendered.Find(ns);
        nsRendered.Add(ns);
        if !alreadyRendered {
          list' := ListInsert(list, ns);
        }
        if ns.prefix == [] {
          hasEmptyNs' := true;
        }
        AxisPushes(path, level, index, pushed, list, list', outer);
        HasDefaultSnoc(pushed, ns);
        pushed' := pushed + [ns];
      } else {
        assert tmp != At(level, index);
        AxisSkips(path, level, index, pushed, list, outer);
      }
    }

    lemma NotYetPushed(path: seq<seq<Ns>>, level: nat, index: nat, pushed: seq<Ns>, list: seq<Ns>, outer: Scope)
      requires level < |path| && index < |path[level]| && AxisUpTo(path, level, index, pushed, list, outer)
      requires SearchNs(path, path[level][index].prefix) == At(level, index)
      ensures forall i :: 0 <= i < |pushed| ==> pushed[i].prefix != path[level][index].prefix
      ensures Ascending(list) && forall i :: 0 <= i < |list| ==> list[i].prefix != path[level][index].prefix
    {
      forall i | 0 <= i < |list| ensures list[i].prefix != path[level][index].prefix {
        assert list[i] in pushed;
      }
    }

    /** The walk over the declarations of the element and its ancestors. */
    method CollectAxis(path: seq<seq<Ns>>) returns (sorted: seq<Ns>, hasEmptyNs: bool, ghost pushed: seq<Ns>)
      requires path != [] && Ready(ScopeOf(path[..|path| - 1]))
      modifies nsRendered`nsCurEnd, nsRendered`nsTab, nsRendered.nsTab
      ensures nsRendered.Valid() && (nsRendered.nsTab == old(nsRendered.nsTab) || fresh(nsRendered.nsTab))
      ensures nsRendered.Live() == old(nsRendered.Live()) + pushed
      ensures AxisUpTo(path, -1, 0, pushed, sorted, ScopeOf(path[..|path| - 1])) && (hasEmptyNs <==> HasDefault(pushed))
    {
      ghost var outer := ScopeOf(path[..|path| - 1]);
      ghost var below := nsRendered.Live();
      assert Mirrors(below, nsRendered.nsPrevStart, outer);
      hide AxisUpTo, Mirrors, Lookup, HasDefault, Ascending, ScopeOf;
      pushed, sorted, hasEmptyNs := [], [], false;
      var level := |path| - 1;
      NothingPushedYet(path, outer);
      while level >= 0
        invariant -1 <= level < |path|
        invariant nsRendered.Valid() && (nsRendered.nsTab == old(nsRendered.nsTab) || fresh(nsRendered.nsTab))
        invariant nsRendered.Live() == below + pushed
        invariant AxisUpTo(path, level, 0, pushed, sorted, outer) && (hasEmptyNs <==> HasDefault(pushed))
      {
        var index := 0;
        while index < |path[level]|
          invariant 0 <= index <= |path[level]|
          invariant nsRendered.Valid() && (nsRendered.nsTab == old(nsRendered.nsTab) || fresh(nsRendered.nsTab))
          invariant nsRendered.Live() == below + pushed
          invariant AxisUpTo(path, level, index, pushed, sorted, outer) && (hasEmptyNs <==> HasDefault(pushed))
        {
          sorted, hasEmptyNs, pushed := ConsiderDeclaration(path, level, index, sorted, hasEmptyNs, below, pushed, outer);
          index := index + 1;
        }
        NextLevel(path, level, pushed, sorted, outer);
        level := level - 1;
      }
    }

    /** xmlC14NProcessNamespacesAxis for a visible element: pushes the whole axis, prints what is new. */
    method ProcessNamespacesAxis(path: seq<seq<Ns>>) returns (ghost list: seq<Ns>)
      requires path != [] && Ready(ScopeOf(path[..|path| - 1]))
      modifies this`buf, nsRendered`nsCurEnd, nsRendered`nsTab, nsRendered.nsTab
      ensures nsRendered.Valid() && (nsRendered.nsTab == old(nsRendered.nsTab) || fresh(nsRendered.nsTab))
      ensures old(nsRendered.Live()) <= nsRendered.Live()
      ensures IsAxis(nsRendered.Live()[old(nsRendered.nsCurEnd)..], ScopeOf(path))
      ensures CanonicalDecls(list, ScopeOf(path[..|path| - 1]), ScopeOf(path))
      ensures buf == old(buf) + Decls(list)
    {
      ghost var below := nsRendered.Live();
      assert Mirrors(below, nsRendered.nsPrevStart, ScopeOf(path[..|path| - 1]));
      hide AxisUpTo, Mirrors, Lookup, HasDefault, Ascending, IsAxis, CanonicalDecls, ScopeOf;
      var sorted, hasEmptyNs;
      ghost var pushed;
      sorted, hasEmptyNs, pushed := CollectAxis(path);
      AxisComplete(path, pushed, sorted, ScopeOf(path[..|path| - 1]));
      list := sorted;
      if !hasEmptyNs {
        NoDefaultAnywhere(path, below, nsRendered.nsPrevStart, pushed);
        var found := nsRendered.Find(Ns([], []));
        // The separate xmlns="" would be printed here if it were not found.
        assert found;
      }
      ListWalk(sorted);
      assert nsRendered.Live()[|below|..] == pushed;
    }

    /** xmlC14NPrintAttrs */
    method PrintAttr(a: Attribute)
      modifies this`buf
      ensures buf == old(buf) + [AttrToken(a)]
    {
      var t := NormalizeString(a.value, C14nNormalize.Attr);
      buf := buf + [AttrOut(a.prefix, a.name, t.buffer[..t.out])];
    }

    /** xmlListInsert with the comparison of attributes. */
    method InsertAttr(path: seq<seq<Ns>>, list: seq<Attribute>, a: Attribute) returns (r: seq<Attribute>)
      requires PathOk(path) && AscendingAttrs(list, ScopeOf(path))
      requires forall i :: 0 <= i < |list| ==> AttrKey(ScopeOf(path), list[i]) != AttrKey(ScopeOf(path), a)
      ensures AscendingAttrs(r, ScopeOf(path)) && forall x :: x in r <==> x in list || x == a
    {
      hide ScopeOf, AttrKey, AttrsCompare;
      ghost var scope := ScopeOf(path);
      var lk := 0;
      while lk < |list| && AttrsCompare(path, list[lk], a) < 0
        invariant 0 <= lk <= |list|
        invariant forall i :: 0 <= i < lk ==> Less(AttrKey(scope, list[i]), AttrKey(scope, a))
      {
        CompareByKey(path, list[lk], a);
        lk := lk + 1;
      }
      if lk < |list| {
        CompareByKey(path, list[lk], a);
      }
      r := list[..lk] + [a] + list[lk..];
      ghost var key := (x: Attribute) => AttrKey(scope, x);
      Inserted(list, lk, a, key);
      assert forall i :: 0 <= i < |r| ==> key(r[i]) == AttrKey(scope, r[i]);
    }

    lemma NoAttrs(attrs: seq<Attribute>, scope: Scope)
      ensures CanonicalAttrs([], attrs[..0], scope)
    {
    }

    /** xmlC14NProcessAttrsAxis for a whole document: the attributes, sorted. */
    method ProcessAttrsAxis(path: seq<seq<Ns>>, attrs: seq<Attribute>) returns (ghost list: seq<Attribute>)
      requires PathOk(path) && Distinct(attrs, ScopeOf(path))
      modifies this`buf
      ensures CanonicalAttrs(list, attrs, ScopeOf(path)) && buf == old(buf) + AttrTokens(list)
    {
      hide ScopeOf, AttrKey;
      var sorted: seq<Attribute> := [];
      var i := 0;
      NoAttrs(attrs, ScopeOf(path));
      while i < |attrs|
        invariant 0 <= i <= |attrs| && CanonicalAttrs(sorted, attrs[..i], ScopeOf(path)) && buf == old(buf)
      {
        forall j | 0 <= j < |sorted| ensures AttrKey(ScopeOf(path), sorted[j]) != AttrKey(ScopeOf(path), attrs[i]) {
          assert sorted[j] in attrs[..i];
        }
        sorted := InsertAttr(path, sorted, attrs[i]);
        assert attrs[..i + 1] == attrs[..i] + [attrs[i]];
        i := i + 1;
      }
      assert attrs[..i] == attrs;
      list := sorted;
      var j := 0;
      while j < |sorted|
        invariant 0 <= j <= |sorted| && buf == old(buf) + AttrTokens(sorted[..j])
      {
        PrintAttr(sorted[j]);
        j := j + 1;
        assert AttrTokens(sorted[..j]) == AttrTokens(sorted[..j - 1]) + [AttrToken(sorted[j - 1])];
      }
      assert sorted[..j] == sorted;
    }

    lemma NothingPushedYet(path: seq<seq<Ns>>, outer: Scope)
      requires path != []
      ensures AxisUpTo(path, |path| - 1, 0, [], [], outer) && !HasDefault([])
    {
    }

    predicate IsXmlNs(ns: Ns)
    {
      ns.prefix == XML_PREFIX && ns.href == XML_NAMESPACE
    }

    /** On a fully visible tree the separate xmlns="" is never due: without a default namespace in scope no
        output ancestor has one either. */
    lemma NoDefaultAnywhere(path: seq<seq<Ns>>, below: seq<Ns>, prevStart: nat, pushed: seq<Ns>)
      requires path != [] && IsAxis(pushed, ScopeOf(path)) && !HasDefault(pushed)
      requires Mirrors(below, prevStart, ScopeOf(path[..|path| - 1]))
      ensures Lookup(below + pushed, 0, Ns([], []))
    {
      DeclareGrows(ScopeOf(path[..|path| - 1]), path[|path| - 1]);
      LookupMisses(below + pushed, 0, Ns([], []));
    }

    /** Output of the start tag: name, namespace axis, the shift of the stack cursors, and attributes. */
    method StartElement(path: seq<seq<Ns>>, name: seq<byte>, attrs: seq<Attribute>)
      returns (ghost list: seq<Ns>, ghost sorted: seq<Attribute>)
      requires path != [] && Ready(ScopeOf(path[..|path| - 1])) && PathOk(path) && Distinct(attrs, ScopeOf(path))
      modifies this`buf, nsRendered, nsRendered.nsTab
      ensures Ready(ScopeOf(path)) && (nsRendered.nsTab == old(nsRendered.nsTab) || fresh(nsRendered.nsTab))
      ensures old(nsRendered.Live()) <= nsRendered.Live()
      ensures CanonicalDecls(list, ScopeOf(path[..|path| - 1]), ScopeOf(path))
      ensures CanonicalAttrs(sorted, attrs, ScopeOf(path))
      ensures buf == old(buf) + [OpenTag(name)] + Decls(list) + AttrTokens(sorted) + [TagEnd]
    {
      hide ScopeOf, CanonicalDecls, CanonicalAttrs, Decls, AttrTokens, PathOk, Distinct, Mirrors, IsAxis;
      ghost var base := nsRendered.nsCurEnd;
      ghost var below := nsRendered.Live();
      StackIsInScope(ScopeOf(path[..|path| - 1]));
      buf := buf + [OpenTag(name)];
      list := ProcessNamespacesAxis(path);
      nsRendered.Shift();
      assert forall i :: 0 <= i < base ==> nsRendered.Live()[i] == below[i];
      MirrorsOwnAxis(path, nsRendered.Live(), base);
      sorted := ProcessAttrsAxis(path, attrs);
      buf := buf + [TagEnd];
    }

    lemma StackIsInScope(outer: Scope)
      requires Ready(outer)
      ensures forall i :: 0 <= i < |nsRendered.Live()| ==> nsRendered.Live()[i].prefix in outer
    {
    }

    method ProcessElementNode(path: seq<seq<Ns>>, n: Node) returns (ret: int, ghost c: Node)
      requires n.Element? && Ready(ScopeOf(path)) && PathOk(path) && AttrsOk(n, ScopeOf(path))
      modifies this`buf, nsRendered, nsRendered.nsTab
      ensures ret == 0 || ret == -1
      ensures ret == -1 <==> HasRelativeUri(n)
      ensures ret == 0 ==> IsCanonical(n, c, ScopeOf(path)) && buf == old(buf) + Serialize(c)
      ensures ret == 0 ==> nsRendered.Cursors() == old(nsRendered.Cursors())
      ensures ret == 0 ==> nsRendered.Valid() && nsRendered.Live() == old(nsRendered.Live())
      ensures nsRendered.nsTab == old(nsRendered.nsTab) || fresh(nsRendered.nsTab)
      decreases n, 0
    {
      hide IsCanonical, CanonicalDecls, CanonicalAttrs, Mirrors, ScopeOf, Decls, AttrTokens, PathOk, AttrsOk, Distinct;
      c := n;
      if n.relativeUri {
        return -1, n;
      }
      var path' := path + [n.nsDef];
      assert path'[..|path'| - 1] == path;
      InsideOk(path, n);
      var state := nsRendered.Save();
      ghost var list, sorted := StartElement(path', n.name, n.attrs);
      ghost var live := nsRendered.Live();
      ghost var cs;
      ret, cs := ProcessNodeList(path', n.children);
      if ret < 0 {
        return -1, n;
      }
      buf := buf + [CloseTag(n.name)];
      nsRendered.Restore(state);
      c := Element(n.name, list, sorted, false, cs);
      CanonicalElement(path, n, list, sorted, cs);
      assert nsRendered.Live() == live[..state.nsCurEnd];
      ret := 0;
    }

    lemma InsideOk(path: seq<seq<Ns>>, n: Node)
      requires n.Element? && PathOk(path) && AttrsOk(n, ScopeOf(path))
      ensures var path' := path + [n.nsDef];
        PathOk(path') && Distinct(n.attrs, ScopeOf(path'))
        && forall i :: 0 <= i < |n.children| ==> AttrsOk(n.children[i], ScopeOf(path'))
    {
      assert (path + [n.nsDef])[..|path|] == path;
    }

    method ProcessNode(path: seq<seq<Ns>>, n: Node) returns (ret: int, ghost c: Node)
      requires Ready(ScopeOf(path)) && PathOk(path) && AttrsOk(n, ScopeOf(path))
      modifies this`buf, nsRendered, nsRendered.nsTab
      ensures ret == 0 || ret == -1
      ensures ret == -1 <==> HasRelativeUri(n)
      ensures ret == 0 ==> IsCanonical(n, c, ScopeOf(path)) && buf == old(buf) + Serialize(c)
      ensures ret == 0 ==> nsRendered.Cursors() == old(nsRendered.Cursors())
      ensures ret == 0 ==> nsRendered.Valid() && nsRendered.Live() == old(nsRendered.Live())
      ensures nsRendered.nsTab == old(nsRendered.nsTab) || fresh(nsRendered.nsTab)
      decreases n, 1
    {
      hide Mirrors, ScopeOf;
      match n
      case Element(_, _, _, _, _) =>
        ret, c := ProcessElementNode(path, n);
      case Text(content) =>
        var t := NormalizeString(content, C14nNormalize.Text);
        buf := buf + [Chars(t.buffer[..t.out])];
        ret, c := 0, n;
    }

    lemma CanonicalElement(path: seq<seq<Ns>>, n: Node, list: seq<Ns>, sorted: seq<Attribute>, cs: seq<Node>)
      requires n.Element? && CanonicalDecls(list, ScopeOf(path), ScopeOf(path + [n.nsDef])) && |cs| == |n.children|
      requires CanonicalAttrs(sorted, n.attrs, ScopeOf(path + [n.nsDef]))
      requires forall i :: 0 <= i < |cs| ==> IsCanonical(n.children[i], cs[i], ScopeOf(path + [n.nsDef]))
      ensures IsCanonical(n, Element(n.name, list, sorted, false, cs), ScopeOf(path))
    {
      assert (path + [n.nsDef])[..|path|] == path;
    }

    lemma MirrorsOwnAxis(path: seq<seq<Ns>>, live: seq<Ns>, base: nat)
      requires path != [] && base <= |live| && IsAxis(live[base..], ScopeOf(path))
      requires forall i :: 0 <= i < base ==> live[i].prefix in ScopeOf(path[..|path| - 1])
      ensures Mirrors(live, base, ScopeOf(path))
    {
      DeclareGrows(ScopeOf(path[..|path| - 1]), path[|path| - 1]);
      forall i | base <= i < |live| ensures live[i].prefix in ScopeOf(path) {
        assert live[base..][i - base] == live[i];
      }
    }

    method ProcessNodeList(path: seq<seq<Ns>>, l: seq<Node>) returns (ret: int, ghost cs: seq<Node>)
      requires Ready(ScopeOf(path)) && PathOk(path) && forall i :: 0 <= i < |l| ==> AttrsOk(l[i], ScopeOf(path))
      modifies this`buf, nsRendered, nsRendered.nsTab
      ensures ret == 0 || ret == -1
      ensures ret == -1 <==> exists i :: 0 <= i < |l| && HasRelativeUri(l[i])
      ensures ret == 0 ==> |cs| == |l| && (forall i :: 0 <= i < |l| ==> IsCanonical(l[i], cs[i], ScopeOf(path)))
                           && buf == old(buf) + SerializeList(cs)
      ensures ret == 0 ==> nsRendered.Cursors() == old(nsRendered.Cursors())
      ensures ret == 0 ==> nsRendered.Valid() && nsRendered.Live() == old(nsRendered.Live())
      ensures nsRendered.nsTab == old(nsRendered.nsTab) || fresh(nsRendered.nsTab)
      decreases l, 2
    {
      hide IsCanonical, Mirrors, ScopeOf, AttrsOk, PathOk;
      ret, cs := 0, [];
      var i := 0;
      while i < |l|
        invariant 0 <= i <= |l| && ret == 0 && |cs| == i
        invariant forall k :: 0 <= k < i ==> IsCanonical(l[k], cs[k], ScopeOf(path)) && !HasRelativeUri(l[k])
        invariant buf == old(buf) + SerializeList(cs)
        invariant nsRendered.Cursors() == old(nsRendered.Cursors()) && nsRendered.Valid()
        invariant nsRendered.Live() == old(nsRendered.Live())
        invariant nsRendered.nsTab == old(nsRendered.nsTab) || fresh(nsRendered.nsTab)
      {
        ghost var c;
        ret, c := ProcessNode(path, l[i]);
        if ret < 0 {
          return;
        }
        cs := cs + [c];
        assert cs[..|cs| - 1] == cs[..i];
        i := i + 1;
      }
    }
  }

  /** Canonicalizing a document from its root element, with a fresh stack. */
  method Canonicalize(root: Node) returns (ret: int, out: seq<Token>, ghost c: Node)
    requires AttrsOk(root, map[])
    ensures ret == -1 <==> HasRelativeUri(root)
    ensures ret == -1 || (ret == 0 && IsCanonical(root, c, map[]) && InOrder(c, map[]) && out == Serialize(c))
  {
    var ctx := new Canonicalizer();
    ret, c := ctx.ProcessNode([], root);
    out := ctx.buf;
    if ret == 0 {
      CanonicalInOrder(root, c);
    }
  }
}
