/** Documents, namespace scopes, and what the canonical form of a document is (section 2.3 of Canonical XML 1.0,
    for the node-set of the whole document). */
module C14nTree {
  import opened Octets
  import opened ByteOrder

  /** A namespace declaration; the empty prefix stands for the default namespace. */
  datatype Ns = Ns(prefix: seq<byte>, href: seq<byte>)

  datatype Attribute = Attribute(prefix: seq<byte>, name: seq<byte>, value: seq<byte>)

  /** `relativeUri` is the verdict of the URI check on the declarations of the element. */
  datatype Node =
    | Element(name: seq<byte>, nsDef: seq<Ns>, attrs: seq<Attribute>, relativeUri: bool, children: seq<Node>)
    | Text(content: seq<byte>)

  type Scope = map<seq<byte>, seq<byte>>

  const XML_PREFIX: seq<byte> := BytesOf("xml")
  const XML_NAMESPACE: seq<byte> := BytesOf("http://www.w3.org/XML/1998/namespace")

  /** The bindings in force inside an element. The prefix xml is fixed and never looked up in declarations. */
  function Declare(outer: Scope, nsDef: seq<Ns>): Scope
  {
    if nsDef == [] then outer
    else
      var inner := Declare(outer, nsDef[1..]);
      if nsDef[0].prefix == XML_PREFIX then inner else inner[nsDef[0].prefix := nsDef[0].href]
  }

  datatype Binding = Unbound | Bound(href: seq<byte>)

  /** What a prefix means; an undeclared default namespace is the same as xmlns="". */
  function Meaning(scope: Scope, prefix: seq<byte>): Binding
  {
    if prefix in scope then Bound(scope[prefix]) else if prefix == [] then Bound([]) else Unbound
  }

  ghost predicate SameScope(p: Scope, q: Scope)
  {
    forall prefix :: Meaning(p, prefix) == Meaning(q, prefix)
  }

  ghost predicate Ascending(l: seq<Ns>)
  {
    forall i, j :: 0 <= i < j < |l| ==> Less(l[i].prefix, l[j].prefix)
  }

  /** The declarations to print: those bindings that differ from the parent's, in ascending prefix order. */
  ghost predicate CanonicalDecls(l: seq<Ns>, outer: Scope, own: Scope)
  {
    Ascending(l) &&
    forall ns :: ns in l <==> ns.prefix in own && own[ns.prefix] == ns.href && Meaning(outer, ns.prefix) != Bound(ns.href)
  }

  /** The namespace of a prefixed attribute. */
  function AttrUri(scope: Scope, prefix: seq<byte>): Binding
  {
    if prefix == XML_PREFIX then Bound(XML_NAMESPACE) else if prefix in scope then Bound(scope[prefix]) else Unbound
  }

  /** The sort key of an attribute: those without a namespace come first, by name; the others by URI and name. An
      undeclared prefix belongs to the name. */
  function AttrKey(scope: Scope, a: Attribute): seq<byte>
  {
    if a.prefix == [] then [0] + a.name
    else match AttrUri(scope, a.prefix)
      case Bound(href) => [1] + (href + ([0] + a.name))
      case Unbound => [0] + (a.prefix + [58] + a.name)
  }

  ghost predicate AscendingAttrs(l: seq<Attribute>, scope: Scope)
  {
    forall i, j :: 0 <= i < j < |l| ==> Less(AttrKey(scope, l[i]), AttrKey(scope, l[j]))
  }

  /** The attributes to print: all of them, sorted. */
  ghost predicate CanonicalAttrs(l: seq<Attribute>, attrs: seq<Attribute>, own: Scope)
  {
    AscendingAttrs(l, own) && forall a :: a in l <==> a in attrs
  }

  /** c is the canonical form of n inside an element with scope `outer`. */
  ghost predicate IsCanonical(n: Node, c: Node, outer: Scope)
    decreases n
  {
    match n
    case Text(_) => c == n
    case Element(name, nsDef, attrs, _, children) =>
      c.Element? && c.name == name && !c.relativeUri && |c.children| == |children|
      && CanonicalDecls(c.nsDef, outer, Declare(outer, nsDef))
      && CanonicalAttrs(c.attrs, attrs, Declare(outer, nsDef))
      && forall i :: 0 <= i < |children| ==> IsCanonical(children[i], c.children[i], Declare(outer, nsDef))
  }

  ghost predicate SameAttributes(a: seq<Attribute>, b: seq<Attribute>)
  {
    forall x :: x in a <==> x in b
  }

  /** m says the same as n: same names, attributes, text and structure, and every prefix means the same at every
      element. */
  ghost predicate SameDocument(n: Node, m: Node, p: Scope, q: Scope)
    decreases n
  {
    match n
    case Text(_) => m == n
    case Element(name, nsDef, attrs, _, children) =>
      m.Element? && m.name == name && |m.children| == |children| && SameAttributes(attrs, m.attrs)
      && SameScope(Declare(p, nsDef), Declare(q, m.nsDef))
      && forall i :: 0 <= i < |children| ==> SameDocument(children[i], m.children[i], Declare(p, nsDef), Declare(q, m.nsDef))
  }

  /** No two attributes of an element have the same namespace and name, and strings end at their only zero byte. */
  ghost predicate AttrsOk(n: Node, outer: Scope)
    decreases n
  {
    n.Element? ==>
      var own := Declare(outer, n.nsDef);
      && (forall i :: 0 <= i < |n.nsDef| ==> 0 !in n.nsDef[i].href)
      && Distinct(n.attrs, own)
      && forall i :: 0 <= i < |n.children| ==> AttrsOk(n.children[i], own)
  }

  ghost predicate Distinct(attrs: seq<Attribute>, own: Scope)
  {
    forall i, j :: 0 <= i < j < |attrs| ==> AttrKey(own, attrs[i]) != AttrKey(own, attrs[j])
  }

  // ---------- declarations as a list ----------

  lemma {:induction false} DeclareUnlisted(outer: Scope, l: seq<Ns>, prefix: seq<byte>)
    requires forall i :: 0 <= i < |l| ==> l[i].prefix != prefix || prefix == XML_PREFIX
    ensures prefix in Declare(outer, l) <==> prefix in outer
    ensures prefix in outer ==> Declare(outer, l)[prefix] == outer[prefix]
  {
    if l != [] {
      DeclareUnlisted(outer, l[1..], prefix);
    }
  }

  lemma {:induction false} DeclareListed(outer: Scope, l: seq<Ns>, i: nat)
    requires i < |l| && l[i].prefix != XML_PREFIX && forall j :: 0 <= j < i ==> l[j].prefix != l[i].prefix
    ensures l[i].prefix in Declare(outer, l) && Declare(outer, l)[l[i].prefix] == l[i].href
  {
    if i > 0 {
      DeclareListed(outer, l[1..], i - 1);
    }
  }

  lemma AscendingDistinct(l: seq<Ns>, i: nat, j: nat)
    requires Ascending(l) && i < |l| && j < |l| && l[i].prefix == l[j].prefix
    ensures i == j
  {
    LessIrreflexive(l[i].prefix);
  }

  /** Declaring the canonical list in a scope that agrees with the parent gives a scope that agrees with the element. */
  lemma CanonicalDeclsMean(l: seq<Ns>, outer: Scope, own: Scope, q: Scope)
    requires CanonicalDecls(l, outer, own) && SameScope(outer, q)
    requires XML_PREFIX !in own && XML_PREFIX !in outer && forall p :: p in outer ==> p in own
    ensures SameScope(own, Declare(q, l))
  {
    forall p ensures Meaning(own, p) == Meaning(Declare(q, l), p) {
      if i :| 0 <= i < |l| && l[i].prefix == p {
        assert l[i] in l;
        forall j | 0 <= j < i ensures l[j].prefix != p {
          if l[j].prefix == p {
            AscendingDistinct(l, i, j);
          }
        }
        DeclareListed(q, l, i);
      } else {
        DeclareUnlisted(q, l, p);
        assert Meaning(outer, p) == Meaning(q, p);
        if p in own {
          assert Ns(p, own[p]) !in l;
        }
      }
    }
  }

  lemma {:induction false} DeclareGrows(outer: Scope, l: seq<Ns>)
    ensures forall p :: p in outer ==> p in Declare(outer, l)
    ensures XML_PREFIX !in outer ==> XML_PREFIX !in Declare(outer, l)
  {
    if l != [] {
      DeclareGrows(outer, l[1..]);
    }
  }

  // ---------- the canonical form keeps the meaning ----------

  lemma {:induction false} CanonicalKeepsMeaning(n: Node, c: Node, p: Scope, q: Scope)
    requires IsCanonical(n, c, p) && SameScope(p, q) && XML_PREFIX !in p
    ensures SameDocument(n, c, p, q)
    decreases n
  {
    if n.Element? {
      var own := Declare(p, n.nsDef);
      DeclareGrows(p, n.nsDef);
      CanonicalDeclsMean(c.nsDef, p, own, q);
      forall i | 0 <= i < |n.children|
        ensures SameDocument(n.children[i], c.children[i], own, Declare(q, c.nsDef))
      {
        CanonicalKeepsMeaning(n.children[i], c.children[i], own, Declare(q, c.nsDef));
      }
    }
  }

  // ---------- and declares no more than necessary ----------

  /** m declares at every element at least what c declares there. */
  ghost predicate DeclaresAtLeast(m: Node, c: Node)
    decreases c
  {
    c.Element? ==>
      m.Element? && (forall ns :: ns in c.nsDef ==> ns in m.nsDef) && |m.children| == |c.children|
      && forall i :: 0 <= i < |c.children| ==> DeclaresAtLeast(m.children[i], c.children[i])
  }

  lemma {:induction false} DeclaredOrInherited(outer: Scope, l: seq<Ns>, prefix: seq<byte>)
    requires prefix in Declare(outer, l) && Ns(prefix, Declare(outer, l)[prefix]) !in l
    ensures prefix in outer && outer[prefix] == Declare(outer, l)[prefix]
  {
    if l != [] {
      assert l[0] in l && forall ns :: ns in l[1..] ==> ns in l;
      DeclaredOrInherited(outer, l[1..], prefix);
    }
  }

  /** Any document that says the same as n contains every declaration of the canonical form of n. */
  lemma {:induction false} CanonicalIsMinimal(n: Node, c: Node, m: Node, p: Scope, q: Scope)
    requires IsCanonical(n, c, p) && SameDocument(n, m, p, q) && SameScope(p, q) && XML_PREFIX !in p
    ensures DeclaresAtLeast(m, c)
    decreases n
  {
    if n.Element? {
      var own, own' := Declare(p, n.nsDef), Declare(q, m.nsDef);
      forall ns | ns in c.nsDef ensures ns in m.nsDef {
        assert Meaning(own, ns.prefix) == Meaning(own', ns.prefix) == Bound(ns.href);
        assert Meaning(p, ns.prefix) == Meaning(q, ns.prefix);
        if ns !in m.nsDef {
          if ns.prefix in own' {
            DeclaredOrInherited(q, m.nsDef, ns.prefix);
          } else {
            NotDeclared(q, m.nsDef, ns.prefix);
          }
        }
      }
      DeclareGrows(p, n.nsDef);
      forall i | 0 <= i < |c.children| ensures DeclaresAtLeast(m.children[i], c.children[i]) {
        CanonicalIsMinimal(n.children[i], c.children[i], m.children[i], own, own');
      }
    }
  }

  lemma NotDeclared(outer: Scope, l: seq<Ns>, prefix: seq<byte>)
    requires prefix !in Declare(outer, l)
    ensures prefix !in outer
  {
    DeclareGrows(outer, l);
  }

  // ---------- and decides sameness ----------

  /** Items in the order of their keys. */
  ghost predicate Sorted<T>(l: seq<T>, key: T -> seq<byte>)
  {
    forall i, j :: 0 <= i < j < |l| ==> Less(key(l[i]), key(l[j]))
  }

  lemma {:induction false} SortedUnique<T>(a: seq<T>, b: seq<T>, key: T -> seq<byte>)
    requires Sorted(a, key) && Sorted(b, key) && forall x :: x in a <==> x in b
    ensures a == b
  {
    if a != [] && b != [] {
      HeadIsLeast(a, b, key);
      HeadIsLeast(b, a, key);
      LessIrreflexive(key(a[0]));
      if a[0] != b[0] {
        LessTransitive(key(a[0]), key(b[0]), key(a[0]));
        assert false;
      }
      forall x ensures x in a[1..] <==> x in b[1..] {
        TailMembers(a, x, key);
        TailMembers(b, x, key);
      }
      SortedUnique(a[1..], b[1..], key);
      assert a == [a[0]] + a[1..] && b == [b[0]] + b[1..];
    } else {
      SomeMember(a);
      SomeMember(b);
    }
  }

  lemma SomeMember<T>(a: seq<T>)
    ensures a == [] || exists x :: x in a
  {
    if a != [] {
      assert a[0] in a;
    }
  }

  lemma HeadIsLeast<T>(a: seq<T>, b: seq<T>, key: T -> seq<byte>)
    requires Sorted(a, key) && a != [] && b != [] && b[0] in a
    ensures b[0] == a[0] || Less(key(a[0]), key(b[0]))
  {
    var i :| 0 <= i < |a| && a[i] == b[0];
  }

  lemma TailMembers<T>(a: seq<T>, x: T, key: T -> seq<byte>)
    requires Sorted(a, key) && a != []
    ensures x in a[1..] <==> x in a && x != a[0]
  {
    if x in a[1..] {
      var i :| 0 <= i < |a[1..]| && a[1..][i] == x;
      assert a[i + 1] == x;
      LessIrreflexive(key(x));
    }
  }

  lemma AscendingUnique(a: seq<Ns>, b: seq<Ns>)
    requires Ascending(a) && Ascending(b) && forall ns :: ns in a <==> ns in b
    ensures a == b
  {
    SortedUnique(a, b, (ns: Ns) => ns.prefix);
  }

  lemma SameKey(p: Scope, q: Scope, a: Attribute)
    requires SameScope(p, q)
    ensures AttrKey(p, a) == AttrKey(q, a)
  {
    assert Meaning(p, a.prefix) == Meaning(q, a.prefix);
  }

  /** The sorted attributes depend on the set of attributes and the meanings of the prefixes only. */
  lemma AttrsUnique(a: seq<Attribute>, b: seq<Attribute>, p: Scope, q: Scope)
    requires AscendingAttrs(a, p) && AscendingAttrs(b, q) && SameAttributes(a, b) && SameScope(p, q)
    ensures a == b
  {
    SameKeys(b, q, p);
    SortedUnique(a, b, x => AttrKey(p, x));
  }

  lemma SameKeys(l: seq<Attribute>, p: Scope, q: Scope)
    requires AscendingAttrs(l, p) && SameScope(p, q)
    ensures AscendingAttrs(l, q)
  {
    forall i | 0 <= i < |l| ensures AttrKey(p, l[i]) == AttrKey(q, l[i]) {
      SameKey(p, q, l[i]);
    }
  }

  /** Equal canonical forms exactly when the documents say the same. */
  lemma CanonicalDecides(n: Node, m: Node, c: Node, d: Node)
    requires IsCanonical(n, c, map[]) && IsCanonical(m, d, map[])
    ensures c == d <==> SameDocument(n, m, map[], map[])
  {
    if SameDocument(n, m, map[], map[]) {
      SameDocumentSameForm(n, m, c, d, map[], map[]);
    }
    if c == d {
      CanonicalKeepsMeaning(n, c, map[], map[]);
      CanonicalKeepsMeaning(m, d, map[], map[]);
      SameViaThird(n, m, c, map[], map[], map[]);
    }
  }

  lemma {:induction false} SameDocumentSameForm(n: Node, m: Node, c: Node, d: Node, p: Scope, q: Scope)
    requires IsCanonical(n, c, p) && IsCanonical(m, d, q) && SameDocument(n, m, p, q) && SameScope(p, q)
    requires XML_PREFIX !in p && XML_PREFIX !in q
    ensures c == d
    decreases n
  {
    if n.Element? {
      var own, own' := Declare(p, n.nsDef), Declare(q, m.nsDef);
      DeclareGrows(p, n.nsDef);
      DeclareGrows(q, m.nsDef);
      forall ns ensures ns in c.nsDef <==> ns in d.nsDef {
        assert Meaning(own, ns.prefix) == Meaning(own', ns.prefix);
        assert Meaning(p, ns.prefix) == Meaning(q, ns.prefix);
        ListedIsMeant(ns, c.nsDef, p, own);
        ListedIsMeant(ns, d.nsDef, q, own');
      }
      AscendingUnique(c.nsDef, d.nsDef);
      AttrsUnique(c.attrs, d.attrs, own, own');
      forall i | 0 <= i < |c.children| ensures c.children[i] == d.children[i] {
        SameDocumentSameForm(n.children[i], m.children[i], c.children[i], d.children[i], own, own');
      }
      assert c.children == d.children;
    }
  }

  /** In the canonical list membership depends only on meanings. */
  lemma ListedIsMeant(ns: Ns, l: seq<Ns>, outer: Scope, own: Scope)
    requires CanonicalDecls(l, outer, own) && forall p :: p in outer ==> p in own
    ensures ns in l <==> Meaning(own, ns.prefix) == Bound(ns.href) && Meaning(outer, ns.prefix) != Bound(ns.href)
  {
  }

  lemma {:induction false} SameViaThird(n: Node, m: Node, c: Node, p: Scope, q: Scope, r: Scope)
    requires SameDocument(n, c, p, r) && SameDocument(m, c, q, r)
    ensures SameDocument(n, m, p, q)
    decreases n
  {
    if n.Element? {
      var own, own', own'' := Declare(p, n.nsDef), Declare(q, m.nsDef), Declare(r, c.nsDef);
      forall prefix ensures Meaning(own, prefix) == Meaning(own', prefix) {
        assert Meaning(own, prefix) == Meaning(own'', prefix) == Meaning(own', prefix);
      }
      forall i | 0 <= i < |n.children| ensures SameDocument(n.children[i], m.children[i], own, own') {
        SameViaThird(n.children[i], m.children[i], c.children[i], own, own', own'');
      }
    }
  }

  /** The canonical form is a fixed point: it is its own canonical form. */
  lemma {:induction false} CanonicalIsStable(n: Node, c: Node, p: Scope, q: Scope)
    requires IsCanonical(n, c, p) && SameScope(p, q) && XML_PREFIX !in p && XML_PREFIX !in q
    ensures IsCanonical(c, c, q)
    decreases n
  {
    if n.Element? {
      var own, own' := Declare(p, n.nsDef), Declare(q, c.nsDef);
      DeclareGrows(p, n.nsDef);
      DeclareGrows(q, c.nsDef);
      CanonicalDeclsMean(c.nsDef, p, own, q);
      forall ns ensures ns in c.nsDef <==>
          ns.prefix in own' && own'[ns.prefix] == ns.href && Meaning(q, ns.prefix) != Bound(ns.href)
      {
        assert Meaning(own, ns.prefix) == Meaning(own', ns.prefix);
        assert Meaning(p, ns.prefix) == Meaning(q, ns.prefix);
        ListedIsMeant(ns, c.nsDef, p, own);
      }
      SameKeys(c.attrs, own, own');
      forall i | 0 <= i < |n.children| ensures IsCanonical(c.children[i], c.children[i], own') {
        CanonicalIsStable(n.children[i], c.children[i], own, own');
      }
    }
  }
}
