/** Text coalescing in the tree-building SAX callbacks of SAX2.c. */
module Sax2 {
  import opened Common
  import opened Octets
  import opened SaxDocument
  import opened SaxChildren

  const SIZE_T_MAX := 0xFFFF_FFFF_FFFF_FFFF

  // ---------- zero-terminated strings in memory ----------

  /** XML characters: the zero byte never occurs in parsed text. */
  predicate NoZero(s: seq<byte>)
  {
    forall i :: 0 <= i < |s| ==> s[i] != 0
  }

  /** The memory block holds the string s followed by its terminator. */
  ghost predicate Holds(a: array<byte>, s: seq<byte>)
    reads a
  {
    |s| < a.Length && a[..|s|] == s && a[|s|] == 0 && NoZero(s)
  }

  /** xmlStrlen. */
  method Strlen(a: array<byte>, ghost s: seq<byte>) returns (n: nat)
    requires Holds(a, s)
    ensures n == |s|
  {
    n := 0;
    while a[n] != 0
      invariant n <= |s| && (n < |s| ==> a[n] == s[n])
      decreases |s| - n
    {
      n := n + 1;
      assert n < |s| ==> a[..|s|][n] == s[n];
    }
  }

  /** xmlStrndup: a block of exactly the needed size. */
  method Strndup(s: seq<byte>) returns (a: array<byte>)
    requires NoZero(s)
    ensures fresh(a) && Holds(a, s) && a.Length == |s| + 1
  {
    a := new byte[|s| + 1];
    forall i | 0 <= i < |s| {
      a[i] := s[i];
    }
    a[|s|] := 0;
    assert a[..|s|] == s;
  }

  /** xmlStrdup. */
  method Strdup(b: array<byte>, ghost s: seq<byte>) returns (a: array<byte>)
    requires Holds(b, s)
    ensures fresh(a) && Holds(a, s) && a.Length == |s| + 1
  {
    var n := Strlen(b, s);
    a := Strndup(b[..n]);
  }

  /** xmlRealloc to a size with room for the string. */
  method Realloc(b: array<byte>, size: nat, ghost s: seq<byte>) returns (a: array<byte>)
    requires Holds(b, s) && |s| < size
    ensures fresh(a) && Holds(a, s) && a.Length == size
  {
    a := new byte[size];
    forall i | 0 <= i < size && i < b.Length {
      a[i] := b[i];
    }
    assert a[..|s|] == b[..|s|];
  }

  // ---------- the tree ----------

  /** A text node. `inlineArea` is the space of the properties and nsDef fields, used for very short strings. */
  class TextNode {
    const inlineArea: array<byte>
    var content: array<byte>
    /** The text received for this node so far, and its place in the document. */
    ghost var text: seq<byte>
    ghost const owner: nat
    ghost const place: nat

    constructor (ghost owner: nat, ghost place: nat)
      ensures fresh(inlineArea) && inlineArea.Length == 16 && content == inlineArea
      ensures this.owner == owner && this.place == place
    {
      inlineArea := new byte[16];
      content := inlineArea;
      text := [];
      this.owner, this.place := owner, place;
    }
  }

  datatype Child = TextChild(node: TextNode) | ElementChild(elem: Element) | OtherChild

  class Element {
    var children: seq<Child>
    ghost const number: nat

    constructor (ghost number: nat)
      ensures children == [] && this.number == number
    {
      children := [];
      this.number := number;
    }
  }

  predicate IsBlank(c: byte)
  {
    c == 0x20 || 0x9 <= c <= 0xA || c == 0xD
  }

  /** The parser context: stack of open elements, the two cached sizes of the text node being filled, options,
      and the string dictionary as a map from strings to the blocks that hold them. */
  class ParserCtxt {
    var nodeTab: seq<Element>
    var nodelen: int
    var nodemem: int
    const dictNames: bool
    const compact: bool
    const huge: bool
    var dict: map<seq<byte>, array<byte>>
    /** The document received so far, its elements and text nodes, and all memory that belongs to it. */
    ghost var doc: Doc
    ghost var order: seq<Element>
    ghost var texts: set<TextNode>
    ghost var repr: set<object>

    constructor (dictNames: bool, compact: bool, huge: bool)
      ensures Valid() && doc == Empty && nodeTab == [] && dict == map[] && repr == {}
      ensures this.dictNames == dictNames && this.compact == compact && this.huge == huge
    {
      nodeTab, nodelen, nodemem := [], 0, -1;
      this.dictNames, this.compact, this.huge := dictNames, compact, huge;
      dict, texts, order, doc, repr := map[], {}, [], Empty, {};
    }

    // ----- invariant -----

    /** xmlDictOwns. */
    predicate DictOwns(a: array<byte>)
      reads this`dict
    {
      a in dict.Values
    }

    /** Every interned string is unchanged, and outside the document's own memory. */
    ghost predicate DictOk()
      reads this`dict, this`repr, dict.Values
    {
      forall s :: s in dict ==> Holds(dict[s], s) && dict[s] !in repr
    }

    /** The memory of one text node. */
    ghost predicate NodeOk(t: TextNode)
      reads this`dict, this`repr, t, t.content
    {
      && t in repr && t.inlineArea in repr && t.inlineArea.Length == 16
      && Holds(t.content, t.text) && (t.content in repr || DictOwns(t.content))
    }

    /** Areas and private blocks are not shared. */
    ghost predicate Apart(t: TextNode, u: TextNode)
      reads this`dict, t, u
    {
      t.inlineArea != u.inlineArea && t.content != u.inlineArea && u.content != t.inlineArea
      && (!DictOwns(t.content) ==> t.content != u.content)
    }

    ghost predicate MemoryOk()
      reads this`dict, this`repr, this`texts, texts, set t | t in texts :: t.content
    {
      && (forall t :: t in texts ==> NodeOk(t))
      && forall t, u :: t in texts && u in texts && t != u ==> Apart(t, u)
    }

    ghost predicate Matches(c: Child, s: Shape, i: nat, j: nat)
      reads this`order, this`texts, texts
    {
      match c
      case TextChild(t) => t in texts && s == Text(t.text) && t.owner == i && t.place == j
      case ElementChild(e) => s.Elem? && s.number < |order| && order[s.number] == e
      case OtherChild => s.Other?
    }

    ghost predicate KidsOk(i: nat)
      reads this`order, this`texts, this`doc, texts, order
      requires i < |order| == |doc.kids|
    {
      |order[i].children| == |doc.kids[i]|
      && forall j :: 0 <= j < |doc.kids[i]| ==> Matches(order[i].children[j], doc.kids[i][j], i, j)
    }

    ghost predicate StackOk()
      reads this`order, this`nodeTab, this`doc, this`repr
    {
      && WellFormed(doc)
      && |order| == |doc.kids| && (forall i :: 0 <= i < |order| ==> order[i].number == i && order[i] in repr)
      && |nodeTab| == |doc.open| && (forall k :: 0 <= k < |nodeTab| ==> nodeTab[k] == order[doc.open[k]])
    }

    /** The nodes in memory are the document. */
    ghost predicate TreeOk()
      reads this`order, this`texts, this`nodeTab, this`doc, this`repr, texts, order
    {
      StackOk() && forall i :: 0 <= i < |order| ==> KidsOk(i)
    }

    /** If the last child of the current element is text then, unless the cache was switched off, nodelen is its
        length and nodemem bytes are available; an inline or interned string has no spare room. */
    ghost predicate CacheOk(t: TextNode)
      reads this`dict, this`nodelen, this`nodemem, t
    {
      nodemem == 0
      || (nodelen == |t.text| && nodelen < nodemem <= t.content.Length && nodemem <= 4 * nodelen + 1
          && (t.content == t.inlineArea || DictOwns(t.content) ==> nodemem == nodelen + 1))
    }

    ghost predicate Valid()
      reads this, repr, texts, order, dict.Values, set t | t in texts :: t.content
    {
      && Core()
      && (doc.cached <==> nodemem != 0)
      && forall t :: t in texts && IsLast(t) ==> CacheOk(t)
    }

    ghost predicate Core()
      reads this`dict, this`repr, this`texts, this`order, this`nodeTab, this`doc, repr, texts, order, dict.Values, set t | t in texts :: t.content
    {
      this !in repr && DictOk() && MemoryOk() && TreeOk()
    }

    /** ctxt->node */
    function Node(): Element
      reads this`nodeTab
      requires nodeTab != []
    {
      nodeTab[|nodeTab| - 1]
    }

    /** The last child of the open element is the text node t. */
    ghost predicate IsLast(t: TextNode)
      reads this`nodeTab, nodeTab
    {
      nodeTab != [] && Node().children != [] && Node().children[|Node().children| - 1] == TextChild(t)
    }

    // ----- text nodes -----

    /** xmlDictLookup, as a finite map. */
    method Intern(s: seq<byte>) returns (a: array<byte>)
      requires DictOk() && NoZero(s)
      modifies this`dict
      ensures DictOk() && s in dict && a == dict[s]
      ensures dict == old(dict) || (s !in old(dict) && dict == old(dict)[s := a] && fresh(a) && a.Length == |s| + 1)
    {
      if s in dict {
        return dict[s];
      }
      a := Strndup(s);
      dict := dict[s := a];
    }

    /** The dictionary only grows, by fresh blocks. */
    twostate predicate DictGrew()
      reads this`dict
    {
      && (forall s :: s in old(dict) ==> s in dict && dict[s] == old(dict[s]))
      && forall s :: s in dict ==> s in old(dict) || fresh(dict[s])
    }

    /** Very short text is kept in the node itself, if the options allow. */
    predicate KeptInline(str: seq<byte>)
    {
      dictNames && compact && |str| < 16
    }

    /** Up to three bytes in front of a quote or a tag, and blanks between tags, are interned. */
    predicate KeptInDict(str: seq<byte>, la0: byte, la1: byte)
    {
      && dictNames && !KeptInline(str)
      && var tag := la0 == 60 && la1 != 33;
         (|str| <= 3 && (la0 == 34 || la0 == 39 || tag)) || (tag && 0 < |str| < 60 && forall i :: 0 <= i < |str| ==> IsBlank(str[i]))
    }

    /** Where the text of a new node is kept. `la0` and `la1` are the two bytes of input behind it. */
    method FindStorage(str: seq<byte>, la0: byte, la1: byte, ret: TextNode)
      requires DictOk() && NoZero(str) && ret.content == ret.inlineArea && ret.inlineArea.Length == 16
      requires !DictOwns(ret.inlineArea) && ret.inlineArea !in repr
      modifies this`dict, ret`content, ret.inlineArea
      ensures DictOk() && DictGrew() && Holds(ret.content, str)
      ensures ret.content == ret.inlineArea <==> KeptInline(str)
      ensures DictOwns(ret.content) <==> KeptInDict(str, la0, la1)
      ensures ret.content == ret.inlineArea || fresh(ret.content) || DictOwns(ret.content)
    {
      var len := |str|;
      if dictNames {
        var first := if len > 0 then str[0] else la0;
        if len < 16 && compact {
          forall i | 0 <= i < len {
            ret.inlineArea[i] := str[i];
          }
          ret.inlineArea[len] := 0;
          assert ret.inlineArea[..len] == str;
          return;
        } else if len <= 3 && (la0 == 34 || la0 == 39 || (la0 == 60 && la1 != 33)) {
          ret.content := Intern(str);
          return;
        } else if IsBlank(first) && len < 60 && la0 == 60 && la1 != 33 {
          var i := 1;
          while i < len && IsBlank(str[i])
            invariant 1 <= i && forall k :: 0 <= k < i && k < len ==> IsBlank(str[k])
          {
            i := i + 1;
          }
          if i >= len {
            ret.content := Intern(str);
            return;
          }
        }
      }
      ret.content := Strndup(str);
    }

    /** A larger dictionary owns none of the private memory. */
    twostate lemma DictMayGrow()
      requires old(MemoryOk()) && DictGrew() && texts == old(texts) && repr == old(repr)
      requires forall u :: u in texts ==> u.content == old(u.content) && Holds(u.content, u.text)
      ensures MemoryOk()
    {
      forall u | u in texts ensures NodeOk(u) {
        assert old(NodeOk(u));
      }
      forall u, v | u in texts && v in texts && u != v ensures Apart(u, v) {
        assert old(NodeOk(u)) && old(Apart(u, v));
      }
    }

    lemma AllHold()
      requires MemoryOk()
      ensures forall t :: t in texts ==> Holds(t.content, t.text)
    {
      forall t | t in texts ensures Holds(t.content, t.text) {
        assert NodeOk(t);
      }
    }

    /** The choice of storage in xmlSAX2TextNode. `la0` and `la1` are the two bytes of input after the chunk. */
    method NewTextNode(str: seq<byte>, la0: byte, la1: byte, ghost owner: nat, ghost place: nat) returns (ret: TextNode)
      requires DictOk() && MemoryOk() && NoZero(str)
      modifies this`dict
      ensures DictOk() && MemoryOk() && DictGrew() && fresh(ret) && fresh(ret.inlineArea) && ret.inlineArea.Length == 16
      ensures ret.text == str && Holds(ret.content, str) && ret.owner == owner && ret.place == place
      ensures ret.content !in repr && fresh({ret, ret.inlineArea} + Private(ret))
      ensures !DictOwns(ret.inlineArea)
      ensures ret.content == ret.inlineArea <==> KeptInline(str)
      ensures DictOwns(ret.content) <==> KeptInDict(str, la0, la1)
    {
      AllHold();
      ret := new TextNode(owner, place);
      FindStorage(str, la0, la1, ret);
      ret.text := str;
      DictMayGrow();
    }

    // ----- appending to the last text node -----

    /** One node got a new private block, or kept its private block. */
    twostate lemma BlockReplaced(t: TextNode)
      requires old(MemoryOk()) && t in texts && texts == old(texts) && dict == old(dict)
      requires old(repr) <= repr && t.content in repr && Holds(t.content, t.text)
      requires !DictOwns(t.content) && (fresh(t.content) || (t.content == old(t.content) && t.content != t.inlineArea))
      requires forall u :: u in texts && u != t ==> u.content == old(u.content) && Holds(u.content, u.text)
      ensures MemoryOk()
    {
      forall u | u in texts ensures NodeOk(u) {
        assert old(NodeOk(u));
      }
      forall u, v | u in texts && v in texts && u != v ensures Apart(u, v) {
        assert old(Apart(u, v));
      }
    }

    /** The block a node may write to. */
    ghost function Private(t: TextNode): set<object>
      reads this`dict, t`content
    {
      if DictOwns(t.content) then {} else {t.content}
    }

    /** A string in the inline area or in the dictionary is copied before it is written to. */
    method Unshare(t: TextNode) returns (ghost added: set<object>)
      requires t in texts && DictOk() && MemoryOk() && CacheOk(t) && nodemem != 0
      modifies t`content, this`repr
      ensures DictOk() && MemoryOk() && CacheOk(t) && t.content != t.inlineArea && !DictOwns(t.content)
      ensures t.content == old(t.content) || fresh(t.content)
      ensures repr == old(repr) + added && fresh(added)
    {
      added := {};
      assert NodeOk(t);
      if t.content == t.inlineArea || (nodemem == nodelen + 1 && DictOwns(t.content)) {
        t.content := Strdup(t.content, t.text);
        added := {t.content};
        repr := repr + added;
        BlockReplaced(t);
      }
    }

    method GrowBlock(t: TextNode, size: nat) returns (ghost added: set<object>)
      requires t in texts && DictOk() && MemoryOk() && |t.text| < size
      requires t.content != t.inlineArea && !DictOwns(t.content)
      modifies this`nodemem, this`repr, t`content
      ensures DictOk() && MemoryOk() && fresh(t.content) && !DictOwns(t.content)
      ensures nodemem == size == t.content.Length && repr == old(repr) + added && fresh(added)
    {
      assert NodeOk(t);
      t.content := Realloc(t.content, size, t.text);
      nodemem := size;
      added := {t.content};
      repr := repr + added;
      BlockReplaced(t);
    }

    /** memcpy behind the text, then the new terminator. */
    method Write(t: TextNode, ch: seq<byte>)
      requires Holds(t.content, t.text) && NoZero(ch)
      requires nodelen == |t.text| && nodelen + |ch| < t.content.Length
      modifies this`nodelen, t`text, t.content
      ensures nodelen == |t.text| && t.text == old(t.text) + ch && Holds(t.content, t.text)
    {
      forall i | 0 <= i < |ch| {
        t.content[nodelen + i] := ch[i];
      }
      nodelen := nodelen + |ch|;
      t.content[nodelen] := 0;
      t.text := t.text + ch;
      assert t.content[..nodelen] == t.text;
    }

    /** Writing to a private block touches no other node and no interned string. */
    method WriteBehind(t: TextNode, ch: seq<byte>)
      requires t in texts && DictOk() && MemoryOk() && NoZero(ch)
      requires t.content != t.inlineArea && !DictOwns(t.content)
      requires nodelen == |t.text| && nodelen + |ch| < t.content.Length
      modifies this`nodelen, t`text, t.content
      ensures nodelen == |t.text| && t.text == old(t.text) + ch && DictOk() && MemoryOk()
    {
      ghost var others := texts - {t};
      assert forall u :: u in others ==> NodeOk(u) && Apart(t, u);
      assert NodeOk(t);
      Write(t, ch);
      BlockReplaced(t);
    }

    /** The coalescing branch of xmlSAX2Characters. */
    method Append(t: TextNode, ch: seq<byte>) returns (ghost added: set<object>)
      requires t in texts && DictOk() && MemoryOk() && CacheOk(t) && nodemem != 0 && NoZero(ch)
      requires |t.text| + |ch| <= FITTING
      modifies this`nodelen, this`nodemem, this`repr, t`content, t`text, Private(t)
      ensures DictOk() && MemoryOk() && CacheOk(t) && nodemem != 0
      ensures t.content == old(t.content) || fresh(t.content)
      ensures t.text == if huge || |old(t.text)| + |ch| <= XML_MAX_TEXT_LENGTH then old(t.text) + ch else old(t.text)
      ensures repr == old(repr) + added && fresh(added)
    {
      hide MemoryOk, Holds;
      added := Unshare(t);
      if nodelen + |ch| > XML_MAX_TEXT_LENGTH && !huge {
        return;
      }
      if nodelen > SIZE_T_MAX - |ch| || nodemem + |ch| > SIZE_T_MAX / 2 {
        assert false;
      }
      if nodelen + |ch| >= nodemem {
        ghost var more := GrowBlock(t, (nodemem + |ch|) * 2);
        added := added + more;
      }
      WriteBehind(t, ch);
    }
 
    // ----- adding to the open element -----

    /** The last text node grew, and so did the last text of the document. */
    twostate lemma TextGrew(new d: Doc, t: TextNode, new s: seq<byte>)
      requires old(TreeOk()) && d == old(doc) && d.open != [] && EndsInText(d.kids[Top(d)])
      requires order == old(order) && nodeTab == old(nodeTab) && texts == old(texts) && old(repr) <= repr
      requires forall i :: 0 <= i < |order| ==> order[i].children == old(order[i].children)
      requires IsLast(t)
      requires forall u :: u in texts && u != t ==> u.text == old(u.text)
      requires t.text == old(t.text) + s
      requires WellFormed(doc) && doc.open == d.open && doc.kids == d.kids[Top(d) := AddText(d.kids[Top(d)], s)]
      ensures TreeOk()
    {
      hide ChildrenOk, Nested, NoAdjacentText;
      ghost var top := Top(d);
      ghost var last := |d.kids[top]| - 1;
      assert old(KidsOk(top));
      assert old(Matches(order[top].children[last], doc.kids[top][last], top, last));
      forall i | 0 <= i < |order| ensures KidsOk(i) {
        assert old(KidsOk(i));
        forall j | 0 <= j < |doc.kids[i]| ensures Matches(order[i].children[j], doc.kids[i][j], i, j) {
          assert old(Matches(order[i].children[j], doc.kids[i][j], i, j));
        }
      }
    }

    /** A node was added behind the children of the open element. */
    twostate lemma NodeAdded(new d: Doc, new c: Child, new s: Shape)
      requires old(TreeOk()) && nodeTab != [] && d == old(doc)
      requires order == old(order) && nodeTab == old(nodeTab) && old(texts) <= texts && old(repr) <= repr
      requires forall i :: 0 <= i < |order| ==> order[i].children == old(order[i].children) + if order[i] == Node() then [c] else []
      requires forall u :: u in old(texts) ==> u.text == old(u.text)
      requires WellFormed(doc) && doc.open == d.open && d.open != [] && OpenOk(d)
      requires doc.kids == d.kids[Top(d) := d.kids[Top(d)] + [s]]
      requires !s.Elem? && Matches(c, s, Top(d), |d.kids[Top(d)]|)
      ensures TreeOk()
    {
      hide ChildrenOk, Nested, NoAdjacentText;
      forall i | 0 <= i < |order| ensures KidsOk(i) {
        assert old(KidsOk(i));
        forall j | 0 <= j < |doc.kids[i]| ensures Matches(order[i].children[j], doc.kids[i][j], i, j) {
          if j < |d.kids[i]| {
            assert old(Matches(order[i].children[j], doc.kids[i][j], i, j));
          }
        }
      }
    }

    /** xmlTextConcat: measure, reallocate or copy, and append. */
    method TextConcat(t: TextNode, s: seq<byte>) returns (ghost added: set<object>)
      requires t in texts && DictOk() && MemoryOk() && NoZero(s)
      modifies this`repr, t`content, t`text, Private(t)
      ensures DictOk() && MemoryOk() && t.text == old(t.text) + s
      ensures t.content == old(t.content) || fresh(t.content)
      ensures t.content != t.inlineArea && !DictOwns(t.content)
      ensures repr == old(repr) + added && fresh(added)
    {
      added := {};
      assert NodeOk(t);
      if t.content == t.inlineArea || DictOwns(t.content) || s != [] {
        var size := Strlen(t.content, t.text);
        var block := Realloc(t.content, size + |s| + 1, t.text);
        forall i | 0 <= i < |s| {
          block[size + i] := s[i];
        }
        block[size + |s|] := 0;
        assert block[..size + |s|] == t.text + s;
        t.content, t.text := block, t.text + s;
        added := {block};
        repr := repr + added;
        BlockReplaced(t);
      } else {
        assert t.text + s == t.text;
      }
    }

    /** The last child of the open element, in memory and in the document. */
    lemma LastChild()
      requires TreeOk() && nodeTab != []
      ensures var l := doc.kids[Top(doc)];
              && Node() in order && |Node().children| == |l|
              && (EndsInText(l) <==> Node().children != [] && Node().children[|l| - 1].TextChild?)
              && forall t :: IsLast(t) ==> EndsInText(l) && t in texts && l[|l| - 1] == Text(t.text)
    {
      assert KidsOk(Top(doc));
      var j := |doc.kids[Top(doc)]| - 1;
      if j >= 0 {
        assert Matches(order[Top(doc)].children[j], doc.kids[Top(doc)][j], Top(doc), j);
      }
    }

    lemma Owned(t: TextNode)
      requires MemoryOk() && t in texts
      ensures t in repr && Private(t) <= repr && Holds(t.content, t.text)
    {
      assert NodeOk(t);
    }

    method AppendToLast(t: TextNode, ch: seq<byte>, ghost ev: Event) returns (ghost added: set<object>)
      requires Core() && IsLast(t) && t in texts && CacheOk(t) && nodemem != 0 && doc.cached
      requires NoZero(ch) && |t.text| + |ch| <= FITTING && ev.Characters? && ev.ch == ch
      modifies this`nodelen, this`nodemem, this`repr, this`doc, repr
      ensures Core() && IsLast(t) && CacheOk(t) && nodemem != 0
      ensures nodeTab != [] && old(WellFormed(doc)) && doc == Step(old(doc), huge, ev)
      ensures repr == old(repr) + added && fresh(added)
    {
      hide AddText, ChildrenOk, Nested, NoAdjacentText, Step, MemoryOk, DictOk, Refused, CacheOk, KidsOk;
      LastChild();
      Owned(t);
      CharactersStep(doc, huge, ev);
      RefusedWhen(doc, huge, ch);
      ghost var more := if Refused(doc, huge, doc.kids[Top(doc)], ch) then [] else ch;
      added := Append(t, ch);
      doc := Step(doc, huge, ev);
      TextGrew(old(doc), t, more);
    }

    /** The document with the children of the open element replaced. */
    ghost function WithTop(l: seq<Shape>, cached: bool): Doc
      reads this`doc
      requires OpenOk(doc) && doc.open != []
    {
      doc.(kids := doc.kids[Top(doc) := l], cached := cached)
    }

    /** xmlTextConcat on the last child of the open element. */
    method ConcatToLast(t: TextNode, s: seq<byte>, ghost cached: bool) returns (ghost added: set<object>)
      requires Core() && IsLast(t) && t in texts && NoZero(s)
      modifies this`repr, this`doc, repr
      ensures Core() && IsLast(t) && t.content != t.inlineArea && !DictOwns(t.content) && Holds(t.content, t.text)
      ensures nodeTab != [] && old(WellFormed(doc)) && doc == old(WithTop(AddText(doc.kids[Top(doc)], s), cached))
      ensures t.text == old(t.text) + s
      ensures repr == old(repr) + added && fresh(added)
    {
      hide ChildrenOk, Nested, NoAdjacentText, MemoryOk, DictOk, KidsOk, Holds;
      LastChild();
      Owned(t);
      added := TextConcat(t, s);
      ghost var l := AddText(doc.kids[Top(doc)], s);
      doc := WithTop(l, cached);
      AddItemKeeps(old(doc).kids[Top(doc)], TextItem(s), old(doc));
      TopReplaced(old(doc), l, doc);
      TextGrew(old(doc), t, s);
      Owned(t);
    }
 
    /** A node whose memory is all its own joins the others. */
    twostate lemma NodeJoined(t: TextNode)
      requires old(MemoryOk()) && DictOk() && texts == old(texts) + {t} && dict == old(dict)
      requires t !in old(texts) && old(repr) !! {t, t.inlineArea, t.content}
      requires repr == old(repr) + {t, t.inlineArea} + Private(t)
      requires t.inlineArea.Length == 16 && !DictOwns(t.inlineArea) && Holds(t.content, t.text)
      requires forall u :: u in old(texts) ==> u.content == old(u.content) && Holds(u.content, u.text)
      ensures MemoryOk()
    {
      forall u | u in texts ensures NodeOk(u) {
        assert u != t ==> old(NodeOk(u));
      }
      forall u, v | u in texts && v in texts && u != v ensures Apart(u, v) {
        if u != t && v != t {
          assert old(Apart(u, v));
        } else {
          assert u != t ==> old(NodeOk(u));
          assert v != t ==> old(NodeOk(v));
        }
      }
    }

    /** The new text node becomes the last child of the open element. */
    method LinkText(t: TextNode, ghost cached: bool) returns (ghost added: set<object>)
      requires Core() && nodeTab != [] && !EndsInText(doc.kids[Top(doc)])
      requires t !in texts && this !in {t, t.inlineArea, t.content} && repr !! {t, t.inlineArea, t.content}
      requires t.inlineArea.Length == 16 && !DictOwns(t.inlineArea) && Holds(t.content, t.text)
      requires t.owner == Top(doc) && t.place == |doc.kids[Top(doc)]|
      modifies this`repr, this`doc, this`texts, Node()`children
      ensures Core() && IsLast(t) && t in texts
      ensures doc == old(WithTop(AddText(doc.kids[Top(doc)], t.text), cached))
      ensures added == {t, t.inlineArea} + Private(t) && repr == old(repr) + added
    {
      hide ChildrenOk, Nested, NoAdjacentText, MemoryOk, KidsOk, Holds;
      LastChild();
      AllHold();
      ghost var l := AddText(doc.kids[Top(doc)], t.text);
      AddItemKeeps(doc.kids[Top(doc)], TextItem(t.text), doc);
      TopReplaced(doc, l, WithTop(l, cached));
      Node().children := Node().children + [TextChild(t)];
      texts := texts + {t};
      added := {t, t.inlineArea} + Private(t);
      repr := repr + added;
      doc := WithTop(l, cached);
      NodeJoined(t);
      NodeAdded(old(doc), TextChild(t), Text(t.text));
    }

    /** A comment, processing instruction, reference or copied element becomes the last child. */
    method LinkOther(ghost cached: bool)
      requires Core() && nodeTab != []
      modifies this`doc, Node()`children
      ensures Core() && doc == old(WithTop(doc.kids[Top(doc)] + [Other], cached))
      ensures forall t :: !IsLast(t)
    {
      hide ChildrenOk, Nested, NoAdjacentText, MemoryOk, KidsOk, Holds;
      LastChild();
      ghost var l := doc.kids[Top(doc)] + [Other];
      AddItemKeeps(doc.kids[Top(doc)], NodeItem, doc);
      TopReplaced(doc, l, WithTop(l, cached));
      Node().children := Node().children + [OtherChild];
      doc := WithTop(l, cached);
      NodeAdded(old(doc), OtherChild, Other);
    }
 
    // ----- the callbacks -----

    lemma TreeBasics()
      requires TreeOk()
      ensures StackOk() && WellFormed(doc) && (nodeTab != [] <==> doc.open != [])
    {}

    /** Right after a text node became last, with nodelen and nodemem set to its size. */
    lemma CacheFilled(t: TextNode)
      requires Core() && t in texts && IsLast(t) && doc.cached
      requires nodelen == |t.text| && nodemem == nodelen + 1
      ensures Valid()
    {
      assert NodeOk(t);
    }

    method AddNewText(ch: seq<byte>, la0: byte, la1: byte) returns (ghost added: set<object>)
      requires Core() && nodeTab != [] && NoZero(ch) && !EndsInText(doc.kids[Top(doc)])
      modifies this, Node()`children
      ensures Valid() && DictGrew() && doc == old(WithTop(AddText(doc.kids[Top(doc)], ch), true))
      ensures repr == old(repr) + added && fresh(added)
    {
      hide ChildrenOk, Nested, NoAdjacentText, MemoryOk, TreeOk, DictOk, Holds, AddText, Private, Valid, IsLast;
      TreeBasics();
      var t := NewTextNode(ch, la0, la1, Top(doc), |doc.kids[Top(doc)]|);
      added := LinkText(t, true);
      nodelen := |ch|;
      nodemem := |ch| + 1;
      CacheFilled(t);
    }
 
    /** The branch of xmlSAX2Characters that measures the text because the cache is off. */
    method Remeasure(t: TextNode, ch: seq<byte>) returns (ghost added: set<object>)
      requires Core() && t in texts && IsLast(t) && NoZero(ch)
      modifies this`nodelen, this`nodemem, this`repr, this`doc, repr
      ensures Valid() && nodeTab != [] && old(WellFormed(doc)) && doc == old(WithTop(AddText(doc.kids[Top(doc)], ch), true))
      ensures repr == old(repr) + added && fresh(added)
    {
      hide ChildrenOk, Nested, NoAdjacentText, MemoryOk, TreeOk, DictOk, AddText, Valid, IsLast;
      added := ConcatToLast(t, ch, true);
      nodelen := Strlen(t.content, t.text);
      nodemem := nodelen + 1;
      CacheFilled(t);
    }

    /** xmlSAX2Characters. */
    method Characters(ch: seq<byte>, la0: byte, la1: byte) returns (ghost added: set<object>)
      requires Valid() && NoZero(ch) && Fits(doc, Event.Characters(ch, la0, la1))
      modifies this, repr
      ensures Valid() && DictGrew() && old(OpenOk(doc)) && doc == Step(old(doc), huge, Event.Characters(ch, la0, la1))
      ensures repr == old(repr) + added && fresh(added)
    {
      hide ChildrenOk, Nested, NoAdjacentText, MemoryOk, TreeOk, DictOk, AddText;
      TreeBasics();
      added := {};
      if nodeTab == [] {
        return;
      }
      LastChild();
      var kids := Node().children;
      if kids != [] && kids[|kids| - 1].TextChild? {
        var lastChild := kids[|kids| - 1].node;
        if nodemem != 0 {
          added := AppendToLast(lastChild, ch, Event.Characters(ch, la0, la1));
        } else {
          added := Remeasure(lastChild, ch);
        }
      } else {
        added := AddNewText(ch, la0, la1);
      }
    }
 
    /** A new element was pushed, and linked to the element that was open. */
    twostate lemma ElementAdded(new d: Doc, new e: Element)
      requires old(TreeOk()) && d == old(doc) && e !in old(order) && e.number == |old(order)| && e.children == []
      requires order == old(order) + [e] && nodeTab == old(nodeTab) + [e] && texts == old(texts) && repr == old(repr) + {e}
      requires doc == Step(d, huge, Start) && WellFormed(doc)
      requires forall i :: 0 <= i < |old(order)| ==>
                 order[i].children == old(order[i].children)
                   + if old(nodeTab) != [] && order[i] == old(nodeTab)[|old(nodeTab)| - 1] then [ElementChild(e)] else []
      requires forall t :: t in texts ==> t.text == old(t.text)
      ensures TreeOk()
    {
      hide ChildrenOk, Nested, NoAdjacentText;
      forall i | 0 <= i < |order| ensures KidsOk(i) {
        assert i < |d.kids| ==> old(KidsOk(i));
        forall j | 0 <= j < |doc.kids[i]| ensures Matches(order[i].children[j], doc.kids[i][j], i, j) {
          if j < |d.kids[i]| {
            assert old(Matches(order[i].children[j], doc.kids[i][j], i, j));
          }
        }
      }
    }

    twostate lemma ReprMayGrow()
      requires old(MemoryOk()) && old(repr) <= repr && dict == old(dict) && texts == old(texts)
      requires forall u :: u in texts ==> u.content == old(u.content) && Holds(u.content, u.text)
      ensures MemoryOk()
    {
      forall u | u in texts ensures NodeOk(u) {
        assert old(NodeOk(u));
      }
      forall u, v | u in texts && v in texts && u != v ensures Apart(u, v) {
        assert old(Apart(u, v));
      }
    }

    /** The end of xmlSAX2StartElementNs: nodePush and xmlAddChild. */
    method PushElement(ret: Element)
      requires Core() && ret !in repr && ret.number == |order| && ret.children == []
      modifies this`nodeTab, this`order, this`doc, this`repr, nodeTab
      ensures Core() && old(OpenOk(doc)) && doc == Step(old(doc), huge, Start)
      ensures nodeTab == old(nodeTab) + [ret] && ret.children == []
      ensures repr == old(repr) + {ret}
    {
      hide ChildrenOk, Nested, NoAdjacentText, MemoryOk, Matches, KidsOk, Holds, Step;
      AllHold();
      StepKeepsWellFormed(doc, huge, Start);
      TreeBasics();
      nodeTab := nodeTab + [ret];
      if |nodeTab| > 1 {
        var parent := nodeTab[|nodeTab| - 2];
        parent.children := parent.children + [ElementChild(ret)];
      }
      order := order + [ret];
      repr := repr + {ret};
      doc := Step(doc, huge, Start);
      ElementAdded(old(doc), ret);
      ReprMayGrow();
    }

    method StartElement() returns (ghost added: set<object>)
      requires Valid()
      modifies this`nodemem, this`nodeTab, this`order, this`doc, this`repr, nodeTab
      ensures Valid() && old(OpenOk(doc)) && doc == Step(old(doc), huge, Start)
      ensures repr == old(repr) + added && fresh(added)
    {
      hide ChildrenOk, Nested, NoAdjacentText, MemoryOk, TreeOk, DictOk;
      var ret := new Element(|order|);
      added := {ret};
      nodemem := -1;
      PushElement(ret);
    }
 
    /** The children did not change. */
    twostate lemma KidsKept()
      requires old(TreeOk()) && doc.kids == old(doc).kids && order == old(order) && texts == old(texts)
      requires forall i :: 0 <= i < |order| ==> order[i].children == old(order[i].children)
      requires forall t :: t in texts ==> t.text == old(t.text)
      ensures |order| == |doc.kids| && forall i :: 0 <= i < |order| ==> KidsOk(i)
    {
      forall i | 0 <= i < |order| ensures KidsOk(i) {
        assert old(KidsOk(i));
        forall j | 0 <= j < |doc.kids[i]| ensures Matches(order[i].children[j], doc.kids[i][j], i, j) {
          assert old(Matches(order[i].children[j], doc.kids[i][j], i, j));
        }
      }
    }

    /** The last child of an element is no text while a child is open. */
    lemma ParentEndsInElement()
      requires TreeOk() && |nodeTab| > 1
      ensures nodeTab[|nodeTab| - 2].children != []
      ensures var l := nodeTab[|nodeTab| - 2].children; !l[|l| - 1].TextChild?
    {
      var k := |nodeTab| - 2;
      assert Nested(doc, k) && KidsOk(doc.open[k]);
      var j := |doc.kids[doc.open[k]]| - 1;
      assert Matches(nodeTab[k].children[j], doc.kids[doc.open[k]][j], doc.open[k], j);
    }

    /** nodePop. */
    method PopElement()
      requires Core()
      modifies this`nodeTab, this`doc
      ensures Core() && old(OpenOk(doc)) && doc == Step(old(doc), huge, End)
      ensures forall t :: !IsLast(t)
    {
      hide ChildrenOk, Nested, NoAdjacentText, MemoryOk, DictOk, KidsOk, Matches;
      StepKeepsWellFormed(doc, huge, End);
      if |nodeTab| > 1 {
        ParentEndsInElement();
      }
      if nodeTab != [] {
        nodeTab := nodeTab[..|nodeTab| - 1];
      }
      doc := Step(doc, huge, End);
      KidsKept();
    }

    /** The end of xmlSAX2EndElementNs. */
    method EndElement()
      requires Valid()
      modifies this`nodemem, this`nodeTab, this`doc
      ensures Valid() && old(OpenOk(doc)) && doc == Step(old(doc), huge, End)
    {
      hide ChildrenOk, Nested, NoAdjacentText, MemoryOk, DictOk, TreeOk, CacheOk, IsLast;
      nodemem := -1;
      PopElement();
    }

    /** xmlSAX2Comment, xmlSAX2ProcessingInstruction and xmlSAX2Reference inside an element. */
    method AddOther()
      requires Valid()
      modifies this`doc, nodeTab
      ensures Valid() && old(OpenOk(doc)) && doc == Step(old(doc), huge, OtherNode)
    {
      hide ChildrenOk, Nested, NoAdjacentText, MemoryOk, DictOk, TreeOk;
      TreeBasics();
      if nodeTab != [] {
        LinkOther(doc.cached);
      }
    }

    /** xmlAddChild of a text node copied from an entity: it is merged into a text node that is last. */
    method AddCopiedText(s: seq<byte>) returns (ghost added: set<object>)
      requires Core() && nodeTab != [] && NoZero(s)
      modifies this`repr, this`doc, this`texts, repr
      ensures Core() && old(OpenOk(doc)) && doc == old(WithTop(AddText(doc.kids[Top(doc)], s), doc.cached))
      ensures repr == old(repr) + added && fresh(added)
    {
      hide ChildrenOk, Nested, NoAdjacentText, MemoryOk, DictOk, TreeOk, AddText;
      TreeBasics();
      LastChild();
      var kids := Node().children;
      if kids != [] && kids[|kids| - 1].TextChild? {
        added := ConcatToLast(kids[|kids| - 1].node, s, doc.cached);
      } else {
        var t := CopyText(s, Top(doc), |doc.kids[Top(doc)]|);
        added := LinkText(t, doc.cached);
      }
    }

    method CopyText(s: seq<byte>, ghost owner: nat, ghost place: nat) returns (t: TextNode)
      requires Core() && NoZero(s)
      ensures fresh(t) && fresh(t.inlineArea) && fresh(t.content) && t.text == s && Holds(t.content, s)
      ensures t.inlineArea.Length == 16 && t.owner == owner && t.place == place
      ensures !DictOwns(t.inlineArea) && Private(t) == {t.content}
    {
      t := new TextNode(owner, place);
      t.content := Strndup(s);
      t.text := s;
    }

    /** xmlAddChild of an entity's own text node, which keeps the storage it got when the entity was parsed. */
    method AddMovedText(s: seq<byte>, la0: byte, la1: byte) returns (ghost added: set<object>)
      requires Core() && nodeTab != [] && NoZero(s)
      modifies this`dict, this`repr, this`doc, this`texts, repr
      ensures Core() && DictGrew() && old(OpenOk(doc)) && doc == old(WithTop(AddText(doc.kids[Top(doc)], s), doc.cached))
      ensures repr == old(repr) + added && fresh(added)
    {
      hide ChildrenOk, Nested, NoAdjacentText, MemoryOk, DictOk, TreeOk, AddText, Holds;
      TreeBasics();
      LastChild();
      var kids := Node().children;
      if kids != [] && kids[|kids| - 1].TextChild? {
        added := ConcatToLast(kids[|kids| - 1].node, s, doc.cached);
      } else {
        var t := NewTextNode(s, la0, la1, Top(doc), |doc.kids[Top(doc)]|);
        added := LinkText(t, doc.cached);
      }
    }

    ghost method SwitchOff()
      requires Core() && nodemem == 0
      modifies this`doc
      ensures Valid() && doc == old(doc).(cached := false)
    {
      hide ChildrenOk, Nested, NoAdjacentText, MemoryOk, DictOk, KidsOk, Matches;
      CachedIsFree(doc, false);
      doc := doc.(cached := false);
      KidsKept();
    }

    method CopyItem(item: Item) returns (ghost added: set<object>)
      requires Core() && nodeTab != [] && (item.NodeItem? || NoZero(item.s))
      modifies this`dict, this`repr, this`doc, this`texts, repr
      ensures Core() && DictGrew() && old(OpenOk(doc)) && doc == old(WithTop(AddItem(doc.kids[Top(doc)], item), doc.cached))
      ensures repr == old(repr) + added && fresh(added)
    {
      hide ChildrenOk, Nested, NoAdjacentText, MemoryOk, DictOk, TreeOk, AddText;
      TreeBasics();
      LastChild();
      if item.TextItem? {
        added := AddCopiedText(item.s);
      } else if item.MovedText? {
        added := AddMovedText(item.s, item.la0, item.la1);
      } else {
        LinkOther(doc.cached);
        added := {};
      }
    }

    /** The content of an entity is copied or moved into the open element, and the cache is switched off. */
    method CopyEntity(items: seq<Item>) returns (ghost added: set<object>)
      requires Valid() && forall i :: 0 <= i < |items| && !items[i].NodeItem? ==> NoZero(items[i].s)
      modifies this`dict, this`repr, this`doc, this`texts, this`nodelen, this`nodemem, repr
      ensures Valid() && DictGrew() && old(OpenOk(doc)) && doc == Step(old(doc), huge, Entity(items))
      ensures repr == old(repr) + added && fresh(added)
    {
      hide ChildrenOk, Nested, NoAdjacentText, MemoryOk, DictOk, TreeOk, AddItem, CacheOk;
      TreeBasics();
      added := {};
      if nodeTab == [] || items == [] {
        return;
      }
      ghost var d := doc;
      var i := 0;
      while i < |items|
        invariant 0 <= i <= |items| && Core() && OpenOk(doc) && doc.open == d.open && |doc.kids| == |d.kids|
        invariant doc == d.(kids := d.kids[Top(d) := doc.kids[Top(d)]])
        invariant AddItems(doc.kids[Top(d)], items[i..]) == AddItems(d.kids[Top(d)], items)
        invariant DictGrew()
        invariant repr == old(repr) + added && fresh(added)
      {
        assert items[i..][1..] == items[i + 1..];
        ghost var more := CopyItem(items[i]);
        added := added + more;
        i := i + 1;
      }
      nodemem := 0;
      nodelen := 0;
      SwitchOff();
    }
 
    // ----- runs -----

    /** The text of an event holds no zero byte, and no text node gets longer than an int can count. */
    predicate AcceptableIn(d: Doc, ev: Event)
      requires OpenOk(d)
    {
      && Fits(d, ev)
      && (ev.Characters? ==> NoZero(ev.ch))
      && (ev.Entity? ==> forall i :: 0 <= i < |ev.items| && !ev.items[i].NodeItem? ==> NoZero(ev.items[i].s))
    }

    method Receive(ev: Event) returns (ghost added: set<object>)
      requires Valid() && AcceptableIn(doc, ev)
      modifies this, repr
      ensures Valid() && DictGrew() && old(OpenOk(doc)) && doc == Step(old(doc), huge, ev)
      ensures repr == old(repr) + added && fresh(added)
    {
      hide ChildrenOk, Nested, NoAdjacentText, MemoryOk, DictOk, CacheOk, KidsOk, IsLast, Step, Fits;
      added := {};
      match ev
      case Start => added := StartElement();
      case End => EndElement();
      case Characters(ch, la0, la1) => added := Characters(ch, la0, la1);
      case OtherNode => AddOther();
      case Entity(items) => added := CopyEntity(items);
    }
 
    predicate AllAcceptable(d: Doc, evs: seq<Event>)
      requires WellFormed(d)
      decreases |evs|
    {
      evs == [] || (
        StepKeepsWellFormed(d, huge, evs[0]);
        AcceptableIn(d, evs[0]) && AllAcceptable(Step(d, huge, evs[0]), evs[1..]))
    }

    /** Any run of callbacks leaves in memory the document that it describes, and never changes an interned string. */
    method Parse(evs: seq<Event>) returns (ghost added: set<object>)
      requires Valid() && WellFormed(doc) && AllAcceptable(doc, evs)
      modifies this, repr
      ensures Valid() && old(WellFormed(doc)) && doc == SaxDocument.Run(old(doc), huge, evs)
      ensures old(doc) == Empty ==> Told(doc, huge, evs)
      ensures forall s :: s in old(dict) ==> s in dict && dict[s] == old(dict[s]) && Holds(dict[s], s)
      ensures repr == old(repr) + added && fresh(added)
    {
      hide ChildrenOk, Nested, NoAdjacentText, MemoryOk, CacheOk, TreeOk, IsLast, Step, AcceptableIn, Told;
      added := {};
      ghost var d := doc;
      var i := 0;
      while i < |evs|
        invariant 0 <= i <= |evs| && Valid() && WellFormed(doc)
        invariant AllAcceptable(doc, evs[i..])
        invariant SaxDocument.Run(doc, huge, evs[i..]) == SaxDocument.Run(d, huge, evs)
        invariant forall s :: s in old(dict) ==> s in dict && dict[s] == old(dict[s])
        invariant repr == old(repr) + added && fresh(added)
      {
        assert evs[i..][1..] == evs[i + 1..];
        StepKeepsWellFormed(doc, huge, evs[i]);
        ghost var more := Receive(evs[i]);
        added := added + more;
        i := i + 1;
      }
      ChildrenAsTold(huge, evs);
    }

    /** After a run the children of element e in memory are those that the events describe, and every text is spelled
        out in memory. */
    lemma InMemory(evs: seq<Event>, e: nat)
      requires Valid() && Told(doc, huge, evs) && e < |order|
      ensures var kids := SaxChildren.Children(Marks(evs, huge, e));
        && |order[e].children| == |kids|
        && forall j :: 0 <= j < |kids| ==>
             match order[e].children[j]
             case TextChild(t) => kids[j].Text? && Holds(t.content, kids[j].s)
             case ElementChild(c) => kids[j].Elem? && kids[j].number < |order| && c == order[kids[j].number]
             case OtherChild => kids[j].Other?
    {
      hide SaxChildren.Children;
      assert KidsOk(e);
      var kids := SaxChildren.Children(Marks(evs, huge, e));
      forall j | 0 <= j < |kids|
        ensures match order[e].children[j]
             case TextChild(t) => kids[j].Text? && Holds(t.content, kids[j].s)
             case ElementChild(c) => kids[j].Elem? && kids[j].number < |order| && c == order[kids[j].number]
             case OtherChild => kids[j].Other?
      {
        assert Matches(order[e].children[j], doc.kids[e][j], e, j);
        if order[e].children[j].TextChild? {
          assert NodeOk(order[e].children[j].node);
        }
      }
    }
  }
}
