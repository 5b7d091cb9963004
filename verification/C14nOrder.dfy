/** In what order canonical output lists the declarations and attributes of an element, as facts about bytes. */
module C14nOrder {
  import opened Octets
  import opened ByteOrder
  import opened C14nTree

  ghost predicate PrefixesInOrder(l: seq<Ns>)
  {
    forall i, j :: 0 <= i < j < |l| ==> ByteBefore(l[i].prefix, l[j].prefix)
  }

  /** An attribute without a namespace: without a prefix, or with one that nothing declares. */
  predicate NoNamespace(scope: Scope, a: Attribute)
  {
    a.prefix == [] || (a.prefix != BytesOf("xml") && a.prefix !in scope)
  }

  function FullName(a: Attribute): seq<byte>
  {
    if a.prefix == [] then a.name else a.prefix + BytesOf(":") + a.name
  }

  function Uri(scope: Scope, a: Attribute): seq<byte>
    requires !NoNamespace(scope, a)
  {
    if a.prefix == BytesOf("xml") then BytesOf("http://www.w3.org/XML/1998/namespace") else scope[a.prefix]
  }

  /** Attributes without a namespace first, by name; then by URI, and by name where the URIs are equal. */
  ghost predicate AttrBefore(scope: Scope, a: Attribute, b: Attribute)
  {
    if NoNamespace(scope, a) then !NoNamespace(scope, b) || ByteBefore(FullName(a), FullName(b))
    else
      && !NoNamespace(scope, b)
      && (ByteBefore(Uri(scope, a), Uri(scope, b)) || (Uri(scope, a) == Uri(scope, b) && ByteBefore(a.name, b.name)))
  }

  ghost predicate AttrsInOrder(scope: Scope, l: seq<Attribute>)
  {
    forall i, j :: 0 <= i < j < |l| ==> AttrBefore(scope, l[i], l[j])
  }

  /** Every start tag of the tree lists its declarations and its attributes in order. */
  ghost predicate InOrder(c: Node, outer: Scope)
    decreases c
  {
    c.Element? ==>
      && PrefixesInOrder(c.nsDef) && AttrsInOrder(Declare(outer, c.nsDef), c.attrs)
      && forall i :: 0 <= i < |c.children| ==> InOrder(c.children[i], Declare(outer, c.nsDef))
  }

  // ---------- the canonical order is this one ----------

  lemma XmlNames()
    ensures 0 !in XML_NAMESPACE && BytesOf(":") == [58]
  {
    NoZero("http://www.w3.org/XML/1998/namespace");
  }

  lemma NoZero(s: string)
    requires forall i :: 0 <= i < |s| ==> 0 < s[i] as int < 256
    ensures 0 !in BytesOf(s)
  {
  }

  ghost predicate Strings(scope: Scope)
  {
    forall p :: p in scope ==> 0 !in scope[p]
  }

  lemma AscendingMeans(l: seq<Ns>)
    requires Ascending(l)
    ensures PrefixesInOrder(l)
  {
    forall i, j | 0 <= i < j < |l| ensures ByteBefore(l[i].prefix, l[j].prefix) {
      LessMeans(l[i].prefix, l[j].prefix);
    }
  }

  lemma KeyOrder(scope: Scope, a: Attribute, b: Attribute)
    requires Strings(scope) && Less(AttrKey(scope, a), AttrKey(scope, b))
    ensures AttrBefore(scope, a, b)
  {
    XmlNames();
    var m, n := FullName(a), FullName(b);
    KeyParts(scope, a);
    KeyParts(scope, b);
    hide AttrKey, BytesOf, Less;
    if NoNamespace(scope, a) && NoNamespace(scope, b) {
      LessFront([0], m, n);
      LessMeans(m, n);
    } else if NoNamespace(scope, a) {
    } else if NoNamespace(scope, b) {
      DifferentFirst(n, Uri(scope, a) + ([0] + a.name));
    } else {
      var h, k := Uri(scope, a), Uri(scope, b);
      LessFront([1], h + ([0] + a.name), k + ([0] + b.name));
      LessPair(h, a.name, k, b.name);
      LessMeans(h, k);
      LessMeans(a.name, b.name);
    }
  }

  lemma KeyParts(scope: Scope, a: Attribute)
    ensures AttrKey(scope, a) == if NoNamespace(scope, a) then [0] + FullName(a) else [1] + (Uri(scope, a) + ([0] + a.name))
    ensures !NoNamespace(scope, a) && Strings(scope) ==> 0 !in Uri(scope, a)
  {
    XmlNames();
  }

  lemma {:induction false} DeclareStrings(outer: Scope, l: seq<Ns>)
    requires Strings(outer) && forall i :: 0 <= i < |l| ==> 0 !in l[i].href
    ensures Strings(Declare(outer, l))
  {
    if l != [] {
      DeclareStrings(outer, l[1..]);
    }
  }

  lemma {:induction false} StableInOrder(n: Node, c: Node, p: Scope, q: Scope)
    requires IsCanonical(n, c, p) && AttrsOk(n, p) && SameScope(p, q) && Strings(p) && Strings(q) && XML_PREFIX !in p && XML_PREFIX !in q
    ensures InOrder(c, q)
    decreases n
  {
    if n.Element? {
      var own, own' := Declare(p, n.nsDef), Declare(q, c.nsDef);
      DeclareGrows(p, n.nsDef);
      DeclareGrows(q, c.nsDef);
      DeclareStrings(p, n.nsDef);
      ListedStrings(c.nsDef, p, own);
      DeclareStrings(q, c.nsDef);
      CanonicalDeclsMean(c.nsDef, p, own, q);
      AscendingMeans(c.nsDef);
      SameKeys(c.attrs, own, own');
      forall i, j | 0 <= i < j < |c.attrs| ensures AttrBefore(own', c.attrs[i], c.attrs[j]) {
        KeyOrder(own', c.attrs[i], c.attrs[j]);
      }
      forall i | 0 <= i < |c.children| ensures InOrder(c.children[i], own') {
        StableInOrder(n.children[i], c.children[i], own, own');
      }
    }
  }

  lemma ListedStrings(l: seq<Ns>, outer: Scope, own: Scope)
    requires CanonicalDecls(l, outer, own) && Strings(own)
    ensures forall i :: 0 <= i < |l| ==> 0 !in l[i].href
  {
    forall i | 0 <= i < |l| ensures 0 !in l[i].href {
      assert l[i] in l;
    }
  }

  /** The canonical form of a document lists everything in order. */
  lemma CanonicalInOrder(n: Node, c: Node)
    requires IsCanonical(n, c, map[]) && AttrsOk(n, map[])
    ensures InOrder(c, map[])
  {
    StableInOrder(n, c, map[], map[]);
  }
}
