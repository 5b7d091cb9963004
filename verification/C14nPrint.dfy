/** The bytes of canonical output, and that they decide whether two documents say the same. */
module C14nPrint {
  import opened Octets
  import opened References
  import opened Quoting
  import opened C14nNormalize
  import opened C14nTree
  import opened C14n

  const BLANK: byte := 32
  const SLASH: byte := 47
  const COLON: byte := 58
  const LESS_THAN: byte := 60
  const EQUALS: byte := 61
  const GREATER_THAN: byte := 62
  const XMLNS: seq<byte> := [32, 120, 109, 108, 110, 115]

  // ---------- printing ----------

  /** The end of the name in a declaration. */
  function Suffix(prefix: seq<byte>): seq<byte>
  {
    if prefix == [] then [] else [COLON] + prefix
  }

  function QName(prefix: seq<byte>, name: seq<byte>): seq<byte>
  {
    if prefix == [] then name else prefix + [COLON] + name
  }

  /** What is written to the output buffer. */
  function Bytes(t: Token): seq<byte>
  {
    match t
    case OpenTag(name) => [LESS_THAN] + name
    case NsDecl(ns) => XMLNS + Suffix(ns.prefix) + [EQUALS] + Quoted(ns.href)
    case AttrOut(prefix, name, bytes) => [BLANK] + QName(prefix, name) + [EQUALS] + ([QUOTE] + bytes + [QUOTE])
    case TagEnd => [GREATER_THAN]
    case CloseTag(name) => [LESS_THAN, SLASH] + name + [GREATER_THAN]
    case Chars(text) => text
  }

  function Print(tokens: seq<Token>): seq<byte>
  {
    if tokens == [] then [] else Bytes(tokens[0]) + Print(tokens[1..])
  }

  lemma {:induction false} PrintAppend(a: seq<Token>, b: seq<Token>)
    ensures Print(a + b) == Print(a) + Print(b)
  {
    if a == [] {
      assert a + b == b;
    } else {
      assert (a + b)[1..] == a[1..] + b;
      PrintAppend(a[1..], b);
    }
  }

  lemma PrintOne(t: Token)
    ensures Print([t]) == Bytes(t)
  {
    assert Print([t]) == Bytes(t) + Print([t][1..]);
  }

  // ---------- documents whose output can be read back ----------

  predicate NameOk(name: seq<byte>)
  {
    name != [] && name[0] != SLASH && BLANK !in name && GREATER_THAN !in name
  }

  predicate NsOk(ns: Ns)
  {
    EQUALS !in ns.prefix && Clear(ns.href)
  }

  /** No delimiters in the names, and not a name that declares a namespace. */
  predicate AttrOk(a: Attribute)
  {
    EQUALS !in a.prefix && EQUALS !in a.name && COLON !in a.prefix && COLON !in a.name
    && a.prefix != XMLNS[1..] && (a.prefix == [] ==> a.name != XMLNS[1..])
  }

  predicate NoAdjacentText(l: seq<Node>)
  {
    forall i :: 0 < i < |l| ==> !(l[i - 1].Text? && l[i].Text?)
  }

  /** A document as parsed: names without delimiters, text in one piece, no relative URI, and none that has both kinds
      of quotes. */
  predicate Readable(n: Node)
    decreases n
  {
    match n
    case Text(content) => content != []
    case Element(name, nsDef, attrs, relativeUri, children) =>
      NameOk(name) && !relativeUri && (forall i :: 0 <= i < |nsDef| ==> NsOk(nsDef[i]))
      && (forall i :: 0 <= i < |attrs| ==> AttrOk(attrs[i])) && ReadableList(children)
  }

  predicate ReadableList(l: seq<Node>)
    decreases l
  {
    NoAdjacentText(l) && forall i :: 0 <= i < |l| ==> Readable(l[i])
  }

  ghost predicate ScopeOk(scope: Scope)
  {
    forall p :: p in scope ==> NsOk(Ns(p, scope[p]))
  }

  lemma {:induction false} DeclareOk(outer: Scope, l: seq<Ns>)
    requires ScopeOk(outer) && forall i :: 0 <= i < |l| ==> NsOk(l[i])
    ensures ScopeOk(Declare(outer, l))
  {
    if l != [] {
      DeclareOk(outer, l[1..]);
    }
  }

  lemma {:induction false} CanonicalIsReadable(n: Node, c: Node, outer: Scope)
    requires IsCanonical(n, c, outer) && Readable(n) && ScopeOk(outer)
    ensures Readable(c)
    decreases n
  {
    if n.Element? {
      var own := Declare(outer, n.nsDef);
      DeclareOk(outer, n.nsDef);
      forall i | 0 <= i < |c.nsDef| ensures NsOk(c.nsDef[i]) {
        assert c.nsDef[i] in c.nsDef;
      }
      forall i | 0 <= i < |c.attrs| ensures AttrOk(c.attrs[i]) {
        assert c.attrs[i] in c.attrs;
      }
      forall i | 0 <= i < |c.children| ensures Readable(c.children[i]) {
        CanonicalIsReadable(n.children[i], c.children[i], own);
      }
      SameKinds(n, c, outer);
    }
  }

  lemma SameKinds(n: Node, c: Node, outer: Scope)
    requires n.Element? && IsCanonical(n, c, outer)
    ensures |c.children| == |n.children| && forall i :: 0 <= i < |c.children| ==> c.children[i].Text? == n.children[i].Text?
  {
    forall i | 0 <= i < |c.children| ensures c.children[i].Text? == n.children[i].Text? {
      assert IsCanonical(n.children[i], c.children[i], Declare(outer, n.nsDef));
    }
  }

  // ---------- the printed form, piece by piece ----------

  function WrittenDecls(l: seq<Ns>): seq<byte>
  {
    if l == [] then [] else Bytes(NsDecl(l[0])) + WrittenDecls(l[1..])
  }

  function WrittenAttrs(l: seq<Attribute>): seq<byte>
  {
    if l == [] then [] else Bytes(AttrToken(l[0])) + WrittenAttrs(l[1..])
  }

  function Written(n: Node): seq<byte>
    decreases n, 0
  {
    match n
    case Text(content) => Normalize(content, C14nNormalize.Text)
    case Element(name, nsDef, attrs, _, children) =>
      [LESS_THAN] + name + (WrittenDecls(nsDef) + WrittenAttrs(attrs)) + [GREATER_THAN] + WrittenList(children) + Bytes(CloseTag(name))
  }

  function WrittenList(l: seq<Node>): seq<byte>
    decreases l, 1
  {
    if l == [] then [] else Written(l[0]) + WrittenList(l[1..])
  }

  lemma {:induction false} PrintDecls(l: seq<Ns>)
    ensures Print(Decls(l)) == WrittenDecls(l)
  {
    if l != [] {
      assert Decls(l)[0] == NsDecl(l[0]) && Decls(l)[1..] == Decls(l[1..]);
      PrintDecls(l[1..]);
    }
  }

  lemma {:induction false} PrintAttrs(l: seq<Attribute>)
    ensures Print(AttrTokens(l)) == WrittenAttrs(l)
  {
    if l != [] {
      assert AttrTokens(l)[0] == AttrToken(l[0]) && AttrTokens(l)[1..] == AttrTokens(l[1..]);
      PrintAttrs(l[1..]);
    }
  }

  lemma {:induction false} PrintNode(n: Node)
    ensures Print(Serialize(n)) == Written(n)
    decreases n, 0
  {
    match n
    case Text(content) =>
      PrintOne(Chars(Normalize(content, C14nNormalize.Text)));
    case Element(name, nsDef, attrs, _, children) =>
      var a, b, c := [OpenTag(name)], Decls(nsDef) + AttrTokens(attrs), SerializeList(children);
      assert [OpenTag(name)] + Decls(nsDef) + AttrTokens(attrs) == a + b;
      PrintAppend(Decls(nsDef), AttrTokens(attrs));
      PrintAttrs(attrs);
      PrintAppend(a + b + [TagEnd] + c, [CloseTag(name)]);
      PrintAppend(a + b + [TagEnd], c);
      PrintAppend(a + b, [TagEnd]);
      PrintAppend(a, b);
      PrintOne(OpenTag(name));
      PrintOne(TagEnd);
      PrintOne(CloseTag(name));
      PrintDecls(nsDef);
      PrintNodes(children);
  }

  lemma {:induction false} PrintNodes(l: seq<Node>)
    ensures Print(SerializeList(l)) == WrittenList(l)
    decreases l, 1
  {
    hide Serialize, SerializeList, Written, WrittenList, Print;
    if l == [] {
      NoNodes();
    } else {
      var last := |l| - 1;
      SerializedSnoc(l);
      PrintAppend(SerializeList(l[..last]), Serialize(l[last]));
      PrintNodes(l[..last]);
      PrintNode(l[last]);
      WrittenSnoc(l[..last], l[last]);
      assert l == l[..last] + [l[last]];
    }
  }

  lemma NoNodes()
    ensures Print(SerializeList([])) == WrittenList([])
  {
  }

  lemma SerializedSnoc(l: seq<Node>)
    requires l != []
    ensures SerializeList(l) == SerializeList(l[..|l| - 1]) + Serialize(l[|l| - 1])
  {
  }

  lemma {:induction false} WrittenSnoc(l: seq<Node>, n: Node)
    ensures WrittenList(l + [n]) == WrittenList(l) + Written(n)
    decreases |l|
  {
    if l == [] {
      assert WrittenList([n]) == Written(n) + WrittenList([n][1..]);
    } else {
      assert (l + [n])[1..] == l[1..] + [n];
      WrittenSnoc(l[1..], n);
    }
  }

  // ---------- reading it back ----------

  lemma Cancel(a: seq<byte>, x: seq<byte>, y: seq<byte>)
    requires a + x == a + y
    ensures x == y
  {
    assert (a + x)[|a|..] == x && (a + y)[|a|..] == y;
  }

  lemma Regroup(a: seq<byte>, b: seq<byte>, c: seq<byte>, d: seq<byte>, e: seq<byte>, f: seq<byte>, x: seq<byte>)
    ensures (a + b + c + d + e + f) + x == a + (b + (c + (d + (e + (f + x)))))
  {
    assert a + b + c + d == a + (b + (c + d));
    assert (a + b + c + d + e + f) + x == (a + b + c + d) + (e + (f + x));
  }

  lemma SuffixReads(p: seq<byte>, q: seq<byte>)
    requires Suffix(p) == Suffix(q)
    ensures p == q
  {
    if p != [] && q != [] {
      Cancel([COLON], p, q);
    }
  }

  lemma SuffixWithout(p: seq<byte>)
    requires EQUALS !in p
    ensures EQUALS !in Suffix(p)
  {
  }

  lemma DeclParts(n: Ns, x: seq<byte>)
    ensures Bytes(NsDecl(n)) + x == XMLNS + (Suffix(n.prefix) + ([EQUALS] + (Quoted(n.href) + x)))
  {
    hide Quoted, Suffix;
    Regroup(XMLNS, Suffix(n.prefix), [EQUALS], Quoted(n.href), [], [], x);
    assert [] + ([] + x) == x && Bytes(NsDecl(n)) + [] + [] == Bytes(NsDecl(n));
  }

  lemma DeclReads(n: Ns, x: seq<byte>, m: Ns, y: seq<byte>)
    requires NsOk(n) && NsOk(m) && Bytes(NsDecl(n)) + x == Bytes(NsDecl(m)) + y
    ensures n == m && x == y
  {
    var p, q := Suffix(n.prefix), Suffix(m.prefix);
    var s, t := [EQUALS] + (Quoted(n.href) + x), [EQUALS] + (Quoted(m.href) + y);
    DeclParts(n, x);
    DeclParts(m, y);
    hide Quoted, Suffix, Bytes;
    Cancel(XMLNS, p + s, q + t);
    SuffixWithout(n.prefix);
    SuffixWithout(m.prefix);
    SplitAt(p, s, q, t, {EQUALS});
    SuffixReads(n.prefix, m.prefix);
    Cancel([EQUALS], Quoted(n.href) + x, Quoted(m.href) + y);
    QuotedReads(n.href, x, m.href, y);
  }

  lemma QNameReads(a: Attribute, b: Attribute)
    requires AttrOk(a) && AttrOk(b) && QName(a.prefix, a.name) == QName(b.prefix, b.name)
    ensures a.prefix == b.prefix && a.name == b.name
  {
    var s, t := QName(a.prefix, a.name), QName(b.prefix, b.name);
    if a.prefix != [] {
      assert s[|a.prefix|] == COLON && s[|a.prefix|] in s;
    }
    if b.prefix != [] {
      assert t[|b.prefix|] == COLON && t[|b.prefix|] in t;
    }
    if a.prefix != [] && b.prefix != [] {
      assert s == a.prefix + ([COLON] + a.name) && t == b.prefix + ([COLON] + b.name);
      SplitAt(a.prefix, [COLON] + a.name, b.prefix, [COLON] + b.name, {COLON});
      Cancel([COLON], a.name, b.name);
    }
  }

  lemma AttrParts(a: Attribute, x: seq<byte>)
    requires AttrOk(a)
    ensures Bytes(AttrToken(a)) + x
            == [BLANK] + (QName(a.prefix, a.name) + ([EQUALS] + ([QUOTE] + (Normalize(a.value, C14nNormalize.Attr) + ([QUOTE] + x)))))
    ensures EQUALS !in QName(a.prefix, a.name)
  {
    var q, v := QName(a.prefix, a.name), Normalize(a.value, C14nNormalize.Attr);
    hide Normalize;
    Regroup([BLANK], q, [EQUALS], [QUOTE] + v + [QUOTE], [], [], x);
    Regroup([QUOTE], v, [QUOTE], [], [], [], x);
    assert [] + ([] + x) == x && [] + ([] + ([] + x)) == x;
    assert Bytes(AttrToken(a)) + [] + [] == Bytes(AttrToken(a));
    assert [QUOTE] + v + [QUOTE] + [] + [] + [] == [QUOTE] + v + [QUOTE];
  }

  lemma AttrReads(a: Attribute, x: seq<byte>, b: Attribute, y: seq<byte>)
    requires AttrOk(a) && AttrOk(b) && Bytes(AttrToken(a)) + x == Bytes(AttrToken(b)) + y
    ensures a == b && x == y
  {
    var p, q := QName(a.prefix, a.name), QName(b.prefix, b.name);
    var v, w := Normalize(a.value, C14nNormalize.Attr), Normalize(b.value, C14nNormalize.Attr);
    AttrParts(a, x);
    AttrParts(b, y);
    hide Bytes, QName, Normalize, AttrToken;
    var s, t := [QUOTE] + (v + ([QUOTE] + x)), [QUOTE] + (w + ([QUOTE] + y));
    Cancel([BLANK], p + ([EQUALS] + s), q + ([EQUALS] + t));
    SplitAt(p, [EQUALS] + s, q, [EQUALS] + t, {EQUALS});
    QNameReads(a, b);
    Cancel([EQUALS], s, t);
    Cancel([QUOTE], v + ([QUOTE] + x), w + ([QUOTE] + y));
    NormalizeClean(a.value, C14nNormalize.Attr);
    NormalizeClean(b.value, C14nNormalize.Attr);
    SplitAt(v, [QUOTE] + x, w, [QUOTE] + y, {QUOTE});
    Cancel([QUOTE], x, y);
    NormalizeInvertible(a.value, C14nNormalize.Attr);
    NormalizeInvertible(b.value, C14nNormalize.Attr);
  }

  /** A declaration is no attribute. */
  lemma DeclIsNoAttr(n: Ns, x: seq<byte>, a: Attribute, y: seq<byte>)
    requires NsOk(n) && AttrOk(a)
    ensures Bytes(NsDecl(n)) + x != Bytes(AttrToken(a)) + y
  {
    if Bytes(NsDecl(n)) + x == Bytes(AttrToken(a)) + y {
      var p, q := XMLNS[1..] + Suffix(n.prefix), QName(a.prefix, a.name);
      var s := [EQUALS] + (Quoted(n.href) + x);
      var t := [EQUALS] + ([QUOTE] + (Normalize(a.value, C14nNormalize.Attr) + ([QUOTE] + y)));
      DeclParts(n, x);
      AttrParts(a, y);
      assert XMLNS + (Suffix(n.prefix) + s) == [BLANK] + (p + s);
      Cancel([BLANK], p + s, q + t);
      SuffixWithout(n.prefix);
      SplitAt(p, s, q, t, {EQUALS});
      XmlnsIsNoName(n.prefix, a);
    }
  }

  lemma XmlnsIsNoName(prefix: seq<byte>, a: Attribute)
    requires COLON !in a.prefix && COLON !in a.name && XMLNS[1..] + Suffix(prefix) == QName(a.prefix, a.name)
    ensures if a.prefix == [] then a.name == XMLNS[1..] else a.prefix == XMLNS[1..]
  {
    var p, q := XMLNS[1..] + Suffix(prefix), QName(a.prefix, a.name);
    assert prefix == [] ==> p == XMLNS[1..];
    assert prefix != [] ==> p[5] == COLON && p[5] in q;
    if a.prefix != [] {
      assert q[|a.prefix|] == COLON && q == a.prefix + ([COLON] + a.name);
      if prefix != [] {
        assert p == XMLNS[1..] + ([COLON] + prefix);
        SplitAt(XMLNS[1..], [COLON] + prefix, a.prefix, [COLON] + a.name, {COLON});
      }
    }
  }

  /** What is left of a start tag: declarations, attributes, and its end. */
  function TagRest(l: seq<Ns>, a: seq<Attribute>, x: seq<byte>): seq<byte>
  {
    WrittenDecls(l) + (WrittenAttrs(a) + ([GREATER_THAN] + x))
  }

  ghost predicate TagOk(l: seq<Ns>, a: seq<Attribute>)
  {
    (forall i :: 0 <= i < |l| ==> NsOk(l[i])) && forall i :: 0 <= i < |a| ==> AttrOk(a[i])
  }

  /** The rest of a start tag begins with a declaration, an attribute or its end. */
  lemma TagStart(l: seq<Ns>, a: seq<Attribute>, x: seq<byte>)
    ensures l != [] ==> TagRest(l, a, x) == Bytes(NsDecl(l[0])) + TagRest(l[1..], a, x)
    ensures l == [] && a != [] ==> TagRest(l, a, x) == Bytes(AttrToken(a[0])) + TagRest(l, a[1..], x)
    ensures TagRest(l, a, x)[0] == if l == [] && a == [] then GREATER_THAN else BLANK
  {
    hide Bytes;
    if l != [] {
      FirstOfDecl(l[0]);
      assert TagRest(l, a, x) == Bytes(NsDecl(l[0])) + TagRest(l[1..], a, x);
    } else if a != [] {
      FirstOfAttr(a[0]);
      assert TagRest(l, a, x) == Bytes(AttrToken(a[0])) + TagRest(l, a[1..], x);
    }
  }

  lemma TagJoined(l: seq<Ns>, a: seq<Attribute>, x: seq<byte>)
    ensures TagRest(l, a, x) == (WrittenDecls(l) + WrittenAttrs(a)) + ([GREATER_THAN] + x)
  {
    hide WrittenDecls, WrittenAttrs;
  }

  lemma FirstOfDecl(n: Ns)
    ensures Bytes(NsDecl(n)) != [] && Bytes(NsDecl(n))[0] == BLANK
  {
  }

  lemma FirstOfAttr(a: Attribute)
    ensures Bytes(AttrToken(a)) != [] && Bytes(AttrToken(a))[0] == BLANK
  {
  }

  lemma {:induction false} TagReads(l: seq<Ns>, a: seq<Attribute>, x: seq<byte>, m: seq<Ns>, b: seq<Attribute>, y: seq<byte>)
    requires TagOk(l, a) && TagOk(m, b) && TagRest(l, a, x) == TagRest(m, b, y)
    ensures l == m && a == b && x == y
    decreases |l| + |a|
  {
    hide Bytes, NsOk, AttrOk, TagRest;
    TagStart(l, a, x);
    TagStart(m, b, y);
    if l != [] && m != [] {
      DeclReads(l[0], TagRest(l[1..], a, x), m[0], TagRest(m[1..], b, y));
      TagReads(l[1..], a, x, m[1..], b, y);
      assert l == [l[0]] + l[1..] && m == [m[0]] + m[1..];
    } else if l == [] && m == [] && a != [] && b != [] {
      AttrReads(a[0], TagRest(l, a[1..], x), b[0], TagRest(m, b[1..], y));
      TagReads(l, a[1..], x, m, b[1..], y);
      assert a == [a[0]] + a[1..] && b == [b[0]] + b[1..];
    } else if l != [] && b != [] {
      DeclIsNoAttr(l[0], TagRest(l[1..], a, x), b[0], TagRest(m, b[1..], y));
    } else if m != [] && a != [] {
      DeclIsNoAttr(m[0], TagRest(m[1..], b, y), a[0], TagRest(l, a[1..], x));
    } else {
      TagEnds(l, a, x, m, b, y);
    }
  }

  lemma TagEnds(l: seq<Ns>, a: seq<Attribute>, x: seq<byte>, m: seq<Ns>, b: seq<Attribute>, y: seq<byte>)
    requires l == [] && a == [] && m == [] && b == [] && TagRest(l, a, x) == TagRest(m, b, y)
    ensures x == y
  {
    assert TagRest([], [], x) == [GREATER_THAN] + x && TagRest([], [], y) == [GREATER_THAN] + y;
    Cancel([GREATER_THAN], x, y);
  }

  /** What can follow a list of nodes: nothing, or the end tag of the element around it. */
  predicate Closing(x: seq<byte>)
  {
    x == [] || (|x| >= 2 && x[0] == LESS_THAN && x[1] == SLASH)
  }

  predicate StartsText(l: seq<Node>)
  {
    l != [] && l[0].Text?
  }

  /** The first bytes tell what comes next. */
  lemma FirstBytes(l: seq<Node>, x: seq<byte>)
    requires ReadableList(l) && Closing(x)
    ensures var w := WrittenList(l) + x;
      if l == [] then Closing(w)
      else if l[0].Text? then w != [] && w[0] != LESS_THAN
      else |w| >= 2 && w[0] == LESS_THAN && w[1] != SLASH
  {
    if StartsText(l) {
      var t := Normalize(l[0].content, C14nNormalize.Text);
      NormalizeClean(l[0].content, C14nNormalize.Text);
      assert t != [];
    } else if l != [] {
      var n := l[0];
      assert Written(n)[0] == LESS_THAN && Written(n)[1] == n.name[0];
    }
  }

  lemma TextReads(s: seq<byte>, x: seq<byte>, t: seq<byte>, y: seq<byte>)
    requires Normalize(s, C14nNormalize.Text) + x == Normalize(t, C14nNormalize.Text) + y
    requires (x == [] || x[0] == LESS_THAN) && (y == [] || y[0] == LESS_THAN)
    ensures s == t && x == y
  {
    NormalizeClean(s, C14nNormalize.Text);
    NormalizeClean(t, C14nNormalize.Text);
    SplitAt(Normalize(s, C14nNormalize.Text), x, Normalize(t, C14nNormalize.Text), y, {LESS_THAN});
    NormalizeInvertible(s, C14nNormalize.Text);
    NormalizeInvertible(t, C14nNormalize.Text);
  }

  /** An element in front: name, declarations, children and end tag, one after the other. */
  ghost function AfterName(n: Node, x: seq<byte>): seq<byte>
    requires n.Element?
  {
    TagRest(n.nsDef, n.attrs, WrittenList(n.children) + (Bytes(CloseTag(n.name)) + x))
  }

  lemma ElementParts(n: Node, x: seq<byte>)
    requires n.Element?
    ensures Written(n) + x == [LESS_THAN] + (n.name + AfterName(n, x))
    ensures AfterName(n, x) != [] && AfterName(n, x)[0] in {BLANK, GREATER_THAN}
    ensures Closing(Bytes(CloseTag(n.name)) + x)
  {
    assert Closing(Bytes(CloseTag(n.name)) + x);
    var rest := WrittenList(n.children) + (Bytes(CloseTag(n.name)) + x);
    var tag := WrittenDecls(n.nsDef) + WrittenAttrs(n.attrs);
    hide WrittenDecls, WrittenAttrs, WrittenList, Bytes, TagRest;
    TagStart(n.nsDef, n.attrs, rest);
    TagJoined(n.nsDef, n.attrs, rest);
    Regroup([LESS_THAN], n.name, tag, [GREATER_THAN], WrittenList(n.children), Bytes(CloseTag(n.name)), x);
  }

  lemma HeadReads(n: Node, x: seq<byte>, m: Node, y: seq<byte>)
    requires n.Element? && m.Element? && Readable(n) && Readable(m) && Written(n) + x == Written(m) + y
    ensures n.name == m.name && n.nsDef == m.nsDef && n.attrs == m.attrs
    ensures WrittenList(n.children) + (Bytes(CloseTag(n.name)) + x) == WrittenList(m.children) + (Bytes(CloseTag(n.name)) + y)
  {
    ElementParts(n, x);
    ElementParts(m, y);
    Cancel([LESS_THAN], n.name + AfterName(n, x), m.name + AfterName(m, y));
    SplitAt(n.name, AfterName(n, x), m.name, AfterName(m, y), {BLANK, GREATER_THAN});
    TagReads(n.nsDef, n.attrs, WrittenList(n.children) + (Bytes(CloseTag(n.name)) + x),
             m.nsDef, m.attrs, WrittenList(m.children) + (Bytes(CloseTag(n.name)) + y));
  }

  /** Canonical trees with the same bytes are equal. */
  lemma {:induction false} ListReads(l: seq<Node>, x: seq<byte>, m: seq<Node>, y: seq<byte>)
    requires ReadableList(l) && ReadableList(m) && Closing(x) && Closing(y)
    requires WrittenList(l) + x == WrittenList(m) + y
    ensures l == m && x == y
    decreases l
  {
    hide Written, Bytes;
    FirstBytes(l, x);
    FirstBytes(m, y);
    if l != [] && m != [] {
      var s, t := WrittenList(l[1..]) + x, WrittenList(m[1..]) + y;
      assert WrittenList(l) + x == Written(l[0]) + s && WrittenList(m) + y == Written(m[0]) + t;
      TailIsReadable(l);
      TailIsReadable(m);
      if l[0].Text? {
        FirstBytes(l[1..], x);
        FirstBytes(m[1..], y);
        TextNodeReads(l[0], s, m[0], t);
      } else {
        ElementReads(l[0], s, m[0], t);
      }
      ListReads(l[1..], x, m[1..], y);
      assert l == [l[0]] + l[1..] && m == [m[0]] + m[1..];
    } else {
      assert [] + x == x && [] + y == y;
    }
  }

  lemma TailIsReadable(l: seq<Node>)
    requires ReadableList(l) && l != []
    ensures ReadableList(l[1..]) && Readable(l[0])
    ensures l[0].Text? ==> !StartsText(l[1..])
  {
    assert forall i :: 0 <= i < |l[1..]| ==> l[1..][i] == l[i + 1];
  }

  lemma TextNodeReads(n: Node, x: seq<byte>, m: Node, y: seq<byte>)
    requires n.Text? && m.Text? && Written(n) + x == Written(m) + y
    requires (x == [] || x[0] == LESS_THAN) && (y == [] || y[0] == LESS_THAN)
    ensures n == m && x == y
  {
    TextReads(n.content, x, m.content, y);
  }

  lemma {:induction false} ElementReads(n: Node, x: seq<byte>, m: Node, y: seq<byte>)
    requires n.Element? && m.Element? && Readable(n) && Readable(m) && Written(n) + x == Written(m) + y
    ensures n == m && x == y
    decreases n
  {
    HeadReads(n, x, m, y);
    ElementParts(n, x);
    ElementParts(n, y);
    var end := Bytes(CloseTag(n.name));
    ListReads(n.children, end + x, m.children, end + y);
    Cancel(end, x, y);
  }

  // ---------- the output decides ----------

  /** The printed canonical forms are equal exactly when the documents say the same. */
  lemma OutputDecides(n: Node, m: Node, c: Node, d: Node)
    requires Readable(n) && Readable(m) && IsCanonical(n, c, map[]) && IsCanonical(m, d, map[])
    ensures Print(Serialize(c)) == Print(Serialize(d)) <==> SameDocument(n, m, map[], map[])
  {
    CanonicalDecides(n, m, c, d);
    CanonicalIsReadable(n, c, map[]);
    CanonicalIsReadable(m, d, map[]);
    PrintNode(c);
    PrintNode(d);
    if Written(c) == Written(d) {
      assert WrittenList([c]) == Written(c) + WrittenList([c][1..]) == Written(c);
      assert WrittenList([d]) == Written(d) + WrittenList([d][1..]) == Written(d);
      assert WrittenList([c]) + [] == WrittenList([c]) && WrittenList([d]) + [] == WrittenList([d]);
      ListReads([c], [], [d], []);
      assert [c][0] == [d][0];
    }
  }

  /** URIs are quoted rather than escaped, so a URI with both kinds of quotes is printed like another one. */
  lemma OutputCollides() returns (n: Node, m: Node)
    ensures IsCanonical(n, n, map[]) && IsCanonical(m, m, map[]) && !SameDocument(n, m, map[], map[])
    ensures Print(Serialize(n)) == Print(Serialize(m))
  {
    var s, t := [APOSTROPHE, QUOTE], [APOSTROPHE] + QUOT_REF;
    n, m := Element([97], [Ns([], s)], [], false, []), Element([97], [Ns([], t)], [], false, []);
    DeclareOne(s);
    DeclareOne(t);
    assert Meaning(Declare(map[], n.nsDef), []) != Meaning(Declare(map[], m.nsDef), []);
    PrintNode(n);
    PrintNode(m);
    assert Masked(s) == t by {
      assert s[1..] == [QUOTE] && Masked([QUOTE]) == QUOT_REF + Masked([QUOTE][1..]) == QUOT_REF;
    }
    assert Quoted(s) == Quoted(t);
    assert n.nsDef[1..] == m.nsDef[1..];
  }

  lemma DeclareOne(href: seq<byte>)
    requires href != []
    ensures Declare(map[], [Ns([], href)]) == map[[] := href]
    ensures IsCanonical(Element([97], [Ns([], href)], [], false, []), Element([97], [Ns([], href)], [], false, []), map[])
  {
    var l := [Ns([], href)];
    assert Declare(map[], l[1..]) == map[];
    forall ns ensures ns in l <==> ns.prefix in map[[] := href] && map[[] := href][ns.prefix] == ns.href
                                   && Meaning(map[], ns.prefix) != Bound(ns.href)
    {
      if ns.prefix == [] && ns.href == href {
        assert ns == l[0];
      }
    }
  }

  // ---------- the format, spelled out ----------

  function DeclText(ns: Ns): seq<byte>
  {
    BytesOf(" xmlns") + (if ns.prefix == [] then [] else BytesOf(":") + ns.prefix) + BytesOf("=") + Quoted(ns.href)
  }

  function AttrText(a: Attribute): seq<byte>
  {
    BytesOf(" ") + (if a.prefix == [] then a.name else a.prefix + BytesOf(":") + a.name)
    + BytesOf("=") + (BytesOf("\"") + Normalize(a.value, C14nNormalize.Attr) + BytesOf("\""))
  }

  /** An element: start tag with declarations and attributes, content, end tag. */
  lemma PrintedElement(n: Node)
    requires n.Element?
    ensures Print(Serialize(n))
            == BytesOf("<") + n.name
               + (Concat(seq(|n.nsDef|, i requires 0 <= i < |n.nsDef| => DeclText(n.nsDef[i])))
                  + Concat(seq(|n.attrs|, i requires 0 <= i < |n.attrs| => AttrText(n.attrs[i]))))
               + BytesOf(">")
               + Concat(seq(|n.children|, i requires 0 <= i < |n.children| => Print(Serialize(n.children[i]))))
               + (BytesOf("</") + n.name + BytesOf(">"))
  {
    hide Concat, DeclText, AttrText, Print, Serialize, WrittenDecls, WrittenAttrs, WrittenList;
    PrintNode(n);
    DeclTexts(n.nsDef);
    AttrTexts(n.attrs);
    ChildTexts(n.children);
    Delimiters();
  }

  lemma Delimiters()
    ensures BytesOf("<") == [LESS_THAN] && BytesOf(">") == [GREATER_THAN] && BytesOf("</") == [LESS_THAN, SLASH]
  {
  }

  /** Text: the escaped content. */
  lemma PrintedText(s: seq<byte>)
    ensures Print(Serialize(Node.Text(s))) == Normalize(s, C14nNormalize.Text)
  {
    PrintNode(Node.Text(s));
  }

  lemma {:induction false} DeclTexts(l: seq<Ns>)
    ensures WrittenDecls(l) == Concat(seq(|l|, i requires 0 <= i < |l| => DeclText(l[i])))
  {
    hide DeclText, Bytes;
    if l != [] {
      var t := seq(|l|, i requires 0 <= i < |l| => DeclText(l[i]));
      DeclTexts(l[1..]);
      assert t[1..] == seq(|l[1..]|, i requires 0 <= i < |l[1..]| => DeclText(l[1..][i]));
      DeclIsText(l[0]);
    }
  }

  lemma DeclIsText(ns: Ns)
    ensures Bytes(NsDecl(ns)) == DeclText(ns)
  {
    assert XMLNS == BytesOf(" xmlns") && BytesOf(":") == [COLON] && BytesOf("=") == [EQUALS];
  }

  lemma AttrIsText(a: Attribute)
    ensures Bytes(AttrToken(a)) == AttrText(a)
  {
    hide Normalize;
    assert BytesOf(" ") == [BLANK] && BytesOf(":") == [COLON] && BytesOf("=") == [EQUALS] && BytesOf("\"") == [QUOTE];
  }

  lemma {:induction false} AttrTexts(l: seq<Attribute>)
    ensures WrittenAttrs(l) == Concat(seq(|l|, i requires 0 <= i < |l| => AttrText(l[i])))
  {
    hide AttrText, Bytes, AttrToken;
    if l != [] {
      var t := seq(|l|, i requires 0 <= i < |l| => AttrText(l[i]));
      AttrTexts(l[1..]);
      assert t[1..] == seq(|l[1..]|, i requires 0 <= i < |l[1..]| => AttrText(l[1..][i]));
      AttrIsText(l[0]);
    }
  }

  lemma {:induction false} ChildTexts(l: seq<Node>)
    ensures WrittenList(l) == Concat(seq(|l|, i requires 0 <= i < |l| => Print(Serialize(l[i]))))
    decreases |l|
  {
    hide Print, Serialize, Written;
    if l != [] {
      var t := seq(|l|, i requires 0 <= i < |l| => Print(Serialize(l[i])));
      ChildTexts(l[1..]);
      assert t[1..] == seq(|l[1..]|, i requires 0 <= i < |l[1..]| => Print(Serialize(l[1..][i])));
      PrintNode(l[0]);
    }
  }
}
