/** The document that a run of parser events describes, independent of how its text is stored. */
module SaxDocument {
  import opened Octets
  import opened Common

  datatype Shape = Text(s: seq<byte>) | Elem(number: nat) | Other

  /** The elements in the order of their start tags: their children and parents, and which ones are open.
      `cached` is false after the content of an entity was copied into the open element. */
  datatype Doc = Doc(kids: seq<seq<Shape>>, parent: seq<int>, open: seq<nat>, cached: bool)

  /** A top-level node of an entity's content: a text that is copied, a text node that is moved into the document,
      or another node. */
  datatype Item = TextItem(s: seq<byte>) | MovedText(s: seq<byte>, la0: byte, la1: byte) | NodeItem

  /** `la0` and `la1` are the two bytes of input that follow the chunk. */
  datatype Event =
    | Start
    | End
    | Characters(ch: seq<byte>, la0: byte, la1: byte)
    | OtherNode
    | Entity(items: seq<Item>)

  const Empty := Doc([], [], [], true)

  predicate OpenOk(d: Doc)
  {
    |d.parent| == |d.kids| && forall k :: 0 <= k < |d.open| ==> d.open[k] < |d.kids|
  }

  function Top(d: Doc): nat
    requires OpenOk(d) && d.open != []
  {
    d.open[|d.open| - 1]
  }

  function EndsInText(l: seq<Shape>): bool
  {
    l != [] && l[|l| - 1].Text?
  }

  /** Text joins a text node that is last. */
  function AddText(l: seq<Shape>, s: seq<byte>): seq<Shape>
  {
    if EndsInText(l) then l[|l| - 1 := Text(l[|l| - 1].s + s)] else l + [Text(s)]
  }

  function AddItem(l: seq<Shape>, item: Item): seq<Shape>
  {
    if item.NodeItem? then l + [Other] else AddText(l, item.s)
  }

  function AddItems(l: seq<Shape>, items: seq<Item>): seq<Shape>
    decreases |items|
  {
    if items == [] then l else AddItems(AddItem(l, items[0]), items[1..])
  }

  /** A text node grows past the size limit only in huge documents, or right after an entity was copied. */
  predicate Refused(d: Doc, huge: bool, l: seq<Shape>, ch: seq<byte>)
  {
    d.cached && EndsInText(l) && !huge && |l[|l| - 1].s| + |ch| > XML_MAX_TEXT_LENGTH
  }

  function Step(d: Doc, huge: bool, ev: Event): (r: Doc)
    requires OpenOk(d)
  {
    match ev
    case Start =>
      var n := |d.kids|;
      if d.open == [] then
        Doc(d.kids + [[]], d.parent + [-1], d.open + [n], true)
      else
        Doc(d.kids[Top(d) := d.kids[Top(d)] + [Elem(n)]] + [[]], d.parent + [Top(d)], d.open + [n], true)
    case End => d.(open := if d.open == [] then [] else d.open[..|d.open| - 1], cached := true)
    case Characters(ch, _, _) =>
      if d.open == [] || Refused(d, huge, d.kids[Top(d)], ch) then d
      else d.(kids := d.kids[Top(d) := AddText(d.kids[Top(d)], ch)], cached := true)
    case OtherNode =>
      if d.open == [] then d else d.(kids := d.kids[Top(d) := d.kids[Top(d)] + [Other]])
    case Entity(items) =>
      if d.open == [] || items == [] then d
      else d.(kids := d.kids[Top(d) := AddItems(d.kids[Top(d)], items)], cached := false)
  }

  /** Text nodes whose lengths, four times over, fit the C type int. */
  const FITTING := 0x1FFF_FFFF

  predicate Fits(d: Doc, ev: Event)
    requires OpenOk(d)
  {
    var there := if d.open != [] && EndsInText(d.kids[Top(d)]) then |d.kids[Top(d)][|d.kids[Top(d)]| - 1].s| else 0;
    match ev
    case Characters(ch, _, _) => there + |ch| <= FITTING
    case Entity(items) => there + |ItemsText(items)| <= FITTING
    case _ => true
  }

  function Run(d: Doc, huge: bool, evs: seq<Event>): (r: Doc)
    requires WellFormed(d)
    ensures WellFormed(r)
    decreases |evs|
  {
    if evs == [] then d
    else
      StepKeepsWellFormed(d, huge, evs[0]);
      Run(Step(d, huge, evs[0]), huge, evs[1..])
  }

  // ---------- what every run keeps ----------

  predicate NoAdjacentText(l: seq<Shape>)
  {
    forall i :: 0 <= i < |l| - 1 ==> !(l[i].Text? && l[i + 1].Text?)
  }

  /** The element children of element i are later elements that name i as their parent. */
  predicate ChildrenOk(d: Doc, i: nat)
    requires i < |d.kids| == |d.parent|
  {
    forall j :: 0 <= j < |d.kids[i]| && d.kids[i][j].Elem? ==>
      i < d.kids[i][j].number < |d.kids| && d.parent[d.kids[i][j].number] == i
  }

  /** Of the last child only: the open element one level deeper. */
  predicate Nested(d: Doc, k: nat)
    requires OpenOk(d) && k + 1 < |d.open|
  {
    var l := d.kids[d.open[k]];
    l != [] && l[|l| - 1] == Elem(d.open[k + 1]) && d.parent[d.open[k + 1]] == d.open[k]
    && forall j :: 0 <= j < |l| - 1 ==> l[j] != l[|l| - 1]
  }

  predicate WellFormed(d: Doc)
  {
    && OpenOk(d)
    && (forall i :: 0 <= i < |d.kids| ==> ChildrenOk(d, i) && NoAdjacentText(d.kids[i]))
    && (forall k :: 0 <= k < |d.open| - 1 ==> d.open[k] < d.open[k + 1] && Nested(d, k))
    && (d.open != [] ==> d.parent[d.open[0]] == -1)
  }

  lemma OpenIncreasing(d: Doc, k: nat, m: nat)
    requires WellFormed(d) && k < m < |d.open|
    ensures d.open[k] < d.open[m]
    decreases m - k
  {
    if k + 1 < m {
      OpenIncreasing(d, k + 1, m);
    }
  }

  /** Only the innermost open element may get new children. */
  lemma TopIsNotNested(d: Doc, k: nat)
    requires WellFormed(d) && k < |d.open| - 1
    ensures d.open[k] != Top(d)
  {
    OpenIncreasing(d, k, |d.open| - 1);
  }

  /** Replacing the children of the innermost open element by a list with the same elements in it. */
  lemma TopReplaced(d: Doc, l: seq<Shape>, e: Doc)
    requires WellFormed(d) && d.open != [] && NoAdjacentText(l)
    requires forall j :: 0 <= j < |l| && l[j].Elem? ==> l[j] in d.kids[Top(d)]
    requires e.kids == d.kids[Top(d) := l] && e.parent == d.parent && e.open == d.open
    ensures WellFormed(e)
  {
    forall i | 0 <= i < |e.kids| ensures ChildrenOk(e, i) && NoAdjacentText(e.kids[i]) {
      assert ChildrenOk(d, i);
    }
    forall k | 0 <= k < |e.open| - 1 ensures Nested(e, k) {
      assert Nested(d, k);
      TopIsNotNested(d, k);
    }
  }

  lemma AddItemsKeeps(l: seq<Shape>, items: seq<Item>)
    requires NoAdjacentText(l)
    ensures var r := AddItems(l, items);
            NoAdjacentText(r) && forall j :: 0 <= j < |r| && r[j].Elem? ==> r[j] in l
    decreases |items|
  {
    if items != [] {
      AddItemsKeeps(AddItem(l, items[0]), items[1..]);
    }
  }

  lemma StartKeepsWellFormed(d: Doc, huge: bool)
    requires WellFormed(d)
    ensures WellFormed(Step(d, huge, Start))
  {
    var e := Step(d, huge, Start);
    var n := |d.kids|;
    forall i | 0 <= i < |e.kids| ensures ChildrenOk(e, i) && NoAdjacentText(e.kids[i]) {
      if i < n {
        assert ChildrenOk(d, i) && NoAdjacentText(d.kids[i]);
      }
    }
    forall k | 0 <= k < |e.open| - 1 ensures Nested(e, k) {
      if k < |d.open| - 1 {
        assert Nested(d, k);
        TopIsNotNested(d, k);
      } else {
        assert ChildrenOk(d, Top(d));
      }
    }
  }

  lemma StepKeepsWellFormed(d: Doc, huge: bool, ev: Event)
    requires WellFormed(d)
    ensures WellFormed(Step(d, huge, ev))
  {
    var e := Step(d, huge, ev);
    match ev
    case Start => StartKeepsWellFormed(d, huge);
    case End =>
      forall i | 0 <= i < |e.kids| ensures ChildrenOk(e, i) {
        assert ChildrenOk(d, i);
      }
      forall k | 0 <= k < |e.open| - 1 ensures Nested(e, k) {
        assert Nested(d, k);
      }
    case Characters(ch, _, _) =>
      if e != d {
        TopReplaced(d, AddText(d.kids[Top(d)], ch), e);
      }
    case OtherNode =>
      if d.open != [] {
        TopReplaced(d, d.kids[Top(d)] + [Other], e);
      }
    case Entity(items) =>
      if d.open != [] && items != [] {
        AddItemsKeeps(d.kids[Top(d)], items);
        TopReplaced(d, AddItems(d.kids[Top(d)], items), e);
      }
  }

  // ---------- the text of an element ----------

  /** The character data of a list of children of element i, in document order. */
  function TextOf(d: Doc, i: nat, l: seq<Shape>): seq<byte>
    requires |d.parent| == |d.kids| && (forall m :: 0 <= m < |d.kids| ==> ChildrenOk(d, m))
    requires i < |d.kids| && ElementsAfter(d, i, l)
    decreases |d.kids| - i, |l|
  {
    if l == [] then []
    else
      var init, last := l[..|l| - 1], l[|l| - 1];
      TextOf(d, i, init) + match last
      case Text(s) => s
      case Elem(n) => (assert ChildrenOk(d, n); TextOf(d, n, d.kids[n]))
      case Other => []
  }

  /** The string value of element i. */
  function TextIn(d: Doc, i: nat): seq<byte>
    requires WellFormed(d) && i < |d.kids|
  {
    assert ChildrenOk(d, i);
    TextOf(d, i, d.kids[i])
  }

  function ItemsText(items: seq<Item>): seq<byte>
  {
    if items == [] then []
    else (if items[0].NodeItem? then [] else items[0].s) + ItemsText(items[1..])
  }

  /** What an event says: the character data that it adds to the open elements. */
  function Said(d: Doc, huge: bool, ev: Event): seq<byte>
    requires OpenOk(d)
  {
    if d.open == [] then []
    else match ev
      case Characters(ch, _, _) => if Refused(d, huge, d.kids[Top(d)], ch) then [] else ch
      case Entity(items) => ItemsText(items)
      case _ => []
  }

  predicate ElementsAfter(d: Doc, i: nat, l: seq<Shape>)
  {
    forall j :: 0 <= j < |l| && l[j].Elem? ==> i < l[j].number < |d.kids|
  }

  lemma AddItemText(d: Doc, i: nat, l: seq<Shape>, item: Item)
    requires WellFormed(d) && i < |d.kids| && ElementsAfter(d, i, l)
    ensures ElementsAfter(d, i, AddItem(l, item))
    ensures TextOf(d, i, AddItem(l, item)) == TextOf(d, i, l) + if item.NodeItem? then [] else item.s
  {
    hide ChildrenOk, Nested, NoAdjacentText, ElementsAfter;
    ItemAfter(d, i, l, item);
    var m := AddItem(l, item);
    if EndsInText(l) && !item.NodeItem? {
      var init := l[..|l| - 1];
      assert m[..|m| - 1] == init;
      assert TextOf(d, i, init) + (l[|l| - 1].s + item.s) == TextOf(d, i, init) + l[|l| - 1].s + item.s;
    } else {
      assert m[..|m| - 1] == l;
    }
  }

  lemma ItemAfter(d: Doc, i: nat, l: seq<Shape>, item: Item)
    requires ElementsAfter(d, i, l)
    ensures ElementsAfter(d, i, AddItem(l, item)) && (l != [] ==> ElementsAfter(d, i, l[..|l| - 1]))
  {}

  lemma {:induction false} AddItemsText(d: Doc, i: nat, l: seq<Shape>, items: seq<Item>)
    requires WellFormed(d) && i < |d.kids| && ElementsAfter(d, i, l)
    ensures ElementsAfter(d, i, AddItems(l, items))
    ensures TextOf(d, i, AddItems(l, items)) == TextOf(d, i, l) + ItemsText(items)
    decreases |items|
  {
    hide AddItem, ElementsAfter, TextOf;
    if items != [] {
      AddItemText(d, i, l, items[0]);
      AddItemsText(d, i, AddItem(l, items[0]), items[1..]);
    }
  }

  /** Documents that agree on a list's elements, all outside the changed one. */
  lemma {:induction false} TextOfFrame(d: Doc, e: Doc, i: nat, l: seq<Shape>)
    requires WellFormed(d) && WellFormed(e) && |d.kids| <= |e.kids| && i < |d.kids|
    requires forall m :: 0 <= m < |d.kids| && m !in d.open ==> e.kids[m] == d.kids[m]
    requires forall j :: 0 <= j < |l| && l[j].Elem? ==> i < l[j].number < |d.kids| && l[j].number !in d.open
    ensures TextOf(e, i, l) == TextOf(d, i, l)
    decreases |d.kids| - i, |l|
  {
    if l != [] {
      TextOfFrame(d, e, i, l[..|l| - 1]);
      var last := l[|l| - 1];
      if last.Elem? {
        ClosedChildren(d, last.number);
        TextOfFrame(d, e, last.number, d.kids[last.number]);
      }
    }
  }

  /** A closed element has no open child. */
  lemma ClosedChildren(d: Doc, i: nat)
    requires WellFormed(d) && i < |d.kids| && i !in d.open
    ensures forall j :: 0 <= j < |d.kids[i]| && d.kids[i][j].Elem? ==>
              i < d.kids[i][j].number < |d.kids| && d.kids[i][j].number !in d.open
  {
    assert ChildrenOk(d, i);
    forall k | 0 <= k < |d.open| ensures d.parent[d.open[k]] != i {
      if k > 0 {
        assert Nested(d, k - 1);
        assert d.open[k - 1] != i;
      }
    }
  }

  /** Of an open element all children but the last are closed. */
  lemma OpenChildren(d: Doc, k: nat)
    requires WellFormed(d) && k < |d.open| - 1
    ensures var l := d.kids[d.open[k]];
            forall j :: 0 <= j < |l| - 1 && l[j].Elem? ==>
              d.open[k] < l[j].number < |d.kids| && l[j].number !in d.open
  {
    assert ChildrenOk(d, d.open[k]) && Nested(d, k);
    forall m | 0 <= m < |d.open| && m != k + 1 ensures d.parent[d.open[m]] != d.open[k] {
      if m > 0 {
        assert Nested(d, m - 1);
        if m - 1 < k {
          OpenIncreasing(d, m - 1, k);
        } else {
          OpenIncreasing(d, k, m - 1);
        }
      }
    }
  }

  /** No child of the innermost open element is open. */
  lemma TopChildren(d: Doc)
    requires WellFormed(d) && d.open != []
    ensures var l := d.kids[Top(d)];
            forall j :: 0 <= j < |l| && l[j].Elem? ==> Top(d) < l[j].number < |d.kids| && l[j].number !in d.open
  {
    assert ChildrenOk(d, Top(d));
    forall m | 0 <= m < |d.open| ensures d.parent[d.open[m]] != Top(d) {
      if m > 0 {
        assert Nested(d, m - 1);
        TopIsNotNested(d, m - 1);
      }
    }
  }

  lemma {:induction false} TextOfSame(d: Doc, e: Doc, i: nat, l: seq<Shape>)
    requires WellFormed(d) && WellFormed(e) && e.kids == d.kids && i < |d.kids|
    requires forall j :: 0 <= j < |l| && l[j].Elem? ==> i < l[j].number < |d.kids|
    ensures TextOf(e, i, l) == TextOf(d, i, l)
    decreases |d.kids| - i, |l|
  {
    if l != [] {
      TextOfSame(d, e, i, l[..|l| - 1]);
      var last := l[|l| - 1];
      if last.Elem? {
        assert ChildrenOk(d, last.number);
        TextOfSame(d, e, last.number, d.kids[last.number]);
      }
    }
  }

  /** A step adds to the text of the innermost open element what it says. */
  lemma TopText(d: Doc, huge: bool, ev: Event)
    requires WellFormed(d) && d.open != [] && !ev.End? && WellFormed(Step(d, huge, ev))
    ensures TextIn(Step(d, huge, ev), Top(d)) == TextIn(d, Top(d)) + Said(d, huge, ev)
  {
    var e, i := Step(d, huge, ev), Top(d);
    var l := d.kids[i];
    TopChildren(d);
    TextOfFrame(d, e, i, l);
    match ev
    case Start => StartText(d, e);
    case Characters(ch, _, _) =>
      if e != d {
        var items := [TextItem(ch)];
        assert items[1..] == [] && AddItems(AddItem(l, items[0]), items[1..]) == AddText(l, ch);
        assert ItemsText(items[1..]) == [];
        AddItemsText(e, i, l, items);
      }
    case OtherNode =>
      assert e.kids[i][..|l|] == l;
    case Entity(items) => AddItemsText(e, i, l, items);
  }

  lemma StartText(d: Doc, e: Doc)
    requires WellFormed(d) && d.open != [] && e == Step(d, false, Start) && WellFormed(e)
    requires forall j :: 0 <= j < |d.kids[Top(d)]| && d.kids[Top(d)][j].Elem? ==> Top(d) < d.kids[Top(d)][j].number < |d.kids|
    ensures TextIn(e, Top(d)) == TextOf(e, Top(d), d.kids[Top(d)])
  {
    var l, n := d.kids[Top(d)], |d.kids|;
    assert e.kids[Top(d)][..|l|] == l;
    assert TextOf(e, n, e.kids[n]) == [];
  }

  lemma OtherKids(d: Doc, huge: bool, ev: Event, i: nat)
    requires WellFormed(d) && d.open != [] && i < |d.kids| && i != Top(d) && !ev.End?
    ensures var e := Step(d, huge, ev);
            i < |e.kids| && |d.kids| <= |e.kids| && e.kids[i] == d.kids[i]
  {}

  /** An element whose last child gained some text. */
  lemma LastChildText(d: Doc, e: Doc, i: nat, more: seq<byte>)
    requires WellFormed(d) && WellFormed(e) && i < |d.kids| <= |e.kids| && e.kids[i] == d.kids[i]
    requires var l := d.kids[i];
             && l != [] && l[|l| - 1].Elem?
             && var n := l[|l| - 1].number;
                i < n < |d.kids| && TextIn(e, n) == TextIn(d, n) + more
                && (assert ChildrenOk(d, i) && ChildrenOk(e, i);
                    TextOf(e, i, l[..|l| - 1]) == TextOf(d, i, l[..|l| - 1]))
    ensures TextIn(e, i) == TextIn(d, i) + more
  {}

  /** The same for every open element, from the innermost outwards. */
  lemma {:induction false} OpenText(d: Doc, huge: bool, ev: Event, k: nat)
    requires WellFormed(d) && k < |d.open| && !ev.End? && WellFormed(Step(d, huge, ev))
    ensures TextIn(Step(d, huge, ev), d.open[k]) == TextIn(d, d.open[k]) + Said(d, huge, ev)
    decreases |d.open| - k
  {
    if k == |d.open| - 1 {
      TopText(d, huge, ev);
    } else {
      OpenText(d, huge, ev, k + 1);
      OuterText(d, huge, ev, k);
    }
  }

  lemma OuterText(d: Doc, huge: bool, ev: Event, k: nat)
    requires WellFormed(d) && k < |d.open| - 1 && !ev.End? && WellFormed(Step(d, huge, ev))
    requires TextIn(Step(d, huge, ev), d.open[k + 1]) == TextIn(d, d.open[k + 1]) + Said(d, huge, ev)
    ensures TextIn(Step(d, huge, ev), d.open[k]) == TextIn(d, d.open[k]) + Said(d, huge, ev)
  {
    hide Step, Said, TextIn, TextOf;
    var e := Step(d, huge, ev);
    var l := d.kids[d.open[k]];
    OpenChildren(d, k);
    TopIsNotNested(d, k);
    assert Nested(d, k);
    forall m | 0 <= m < |d.kids| && m !in d.open ensures m < |e.kids| && e.kids[m] == d.kids[m] {
      OtherKids(d, huge, ev, m);
    }
    OtherKids(d, huge, ev, d.open[k]);
    assert ChildrenOk(d, d.open[k]) && ChildrenOk(e, d.open[k]);
    TextOfFrame(d, e, d.open[k], l[..|l| - 1]);
    LastChildText(d, e, d.open[k], Said(d, huge, ev));
  }

  /** An element that is not open never changes again. */
  lemma ClosedText(d: Doc, huge: bool, ev: Event, i: nat)
    requires WellFormed(d) && i < |d.kids| && i !in d.open && !ev.End? && WellFormed(Step(d, huge, ev))
    ensures TextIn(Step(d, huge, ev), i) == TextIn(d, i)
  {
    ClosedChildren(d, i);
    TextOfFrame(d, Step(d, huge, ev), i, d.kids[i]);
  }

  /** What a run says while element i is open. */
  function SaidIn(d: Doc, huge: bool, evs: seq<Event>, i: nat): seq<byte>
    requires WellFormed(d)
    decreases |evs|
  {
    if evs == [] then []
    else
      StepKeepsWellFormed(d, huge, evs[0]);
      (if i in d.open then Said(d, huge, evs[0]) else []) + SaidIn(Step(d, huge, evs[0]), huge, evs[1..], i)
  }

  lemma StepText(d: Doc, huge: bool, ev: Event, i: nat)
    requires WellFormed(d) && i < |d.kids|
    ensures WellFormed(Step(d, huge, ev)) && i < |Step(d, huge, ev).kids|
    ensures TextIn(Step(d, huge, ev), i) == TextIn(d, i) + if i in d.open then Said(d, huge, ev) else []
  {
    StepKeepsWellFormed(d, huge, ev);
    if ev.End? {
      assert ChildrenOk(d, i);
      TextOfSame(d, Step(d, huge, ev), i, d.kids[i]);
    } else if i in d.open {
      var k :| 0 <= k < |d.open| && d.open[k] == i;
      OpenText(d, huge, ev, k);
    } else {
      ClosedText(d, huge, ev, i);
    }
  }

  /** The string value of every element is what the run said while it was open, whatever else happened. */
  lemma {:induction false} RunText(d: Doc, huge: bool, evs: seq<Event>, i: nat)
    requires WellFormed(d) && i < |d.kids|
    ensures i < |Run(d, huge, evs).kids|
    ensures TextIn(Run(d, huge, evs), i) == TextIn(d, i) + SaidIn(d, huge, evs, i)
    decreases |evs|
  {
    hide Step, TextIn, Said;
    if evs != [] {
      StepText(d, huge, evs[0], i);
      RunText(Step(d, huge, evs[0]), huge, evs[1..], i);
    }
  }

  /** A chunk is lost exactly when text that is being collected would pass the size limit. */
  lemma ChunkLost(d: Doc, ch: seq<byte>, la0: byte, la1: byte, huge: bool)
    requires WellFormed(d) && d.open != [] && ch != []
    ensures TextIn(d, Top(d)) == (StepKeepsWellFormed(d, huge, Characters(ch, la0, la1));
                                  TextIn(Step(d, huge, Characters(ch, la0, la1)), Top(d)))
            <==> d.cached && EndsInText(d.kids[Top(d)]) && !huge
                 && |d.kids[Top(d)][|d.kids[Top(d)]| - 1].s| + |ch| > XML_MAX_TEXT_LENGTH
  {
    StepText(d, huge, Characters(ch, la0, la1), Top(d));
  }

  /** Of a chunk that is refused nothing is kept. */
  lemma CharactersStep(d: Doc, huge: bool, ev: Event)
    requires WellFormed(d) && d.open != [] && ev.Characters?
    ensures var e := Step(d, huge, ev);
            var l := d.kids[Top(d)];
            && WellFormed(e) && e.open == d.open && e.parent == d.parent && (d.cached ==> e.cached)
            && e.kids == d.kids[Top(d) := if Refused(d, huge, l, ev.ch) then AddText(l, []) else AddText(l, ev.ch)]
  {
    StepKeepsWellFormed(d, huge, ev);
    var l := d.kids[Top(d)];
    if Refused(d, huge, l, ev.ch) {
      assert l[|l| - 1].s + [] == l[|l| - 1].s;
      assert AddText(l, []) == l;
    }
  }

  lemma RefusedWhen(d: Doc, huge: bool, ch: seq<byte>)
    requires WellFormed(d) && d.open != [] && d.cached && EndsInText(d.kids[Top(d)])
    ensures var l := d.kids[Top(d)];
            Refused(d, huge, l, ch) <==> !huge && |l[|l| - 1].s| + |ch| > XML_MAX_TEXT_LENGTH
  {}

  lemma AddItemKeeps(l: seq<Shape>, item: Item, d: Doc)
    requires WellFormed(d) && d.open != [] && l == d.kids[Top(d)]
    ensures NoAdjacentText(l) && NoAdjacentText(AddItem(l, item))
    ensures forall j :: 0 <= j < |AddItem(l, item)| && AddItem(l, item)[j].Elem? ==> AddItem(l, item)[j] in l
  {}

  lemma CachedIsFree(d: Doc, cached: bool)
    requires WellFormed(d)
    ensures WellFormed(d.(cached := cached))
  {
    var e := d.(cached := cached);
    assert forall i :: 0 <= i < |d.kids| ==> ChildrenOk(d, i) ==> ChildrenOk(e, i);
    assert forall k :: 0 <= k < |d.open| - 1 ==> Nested(d, k) ==> Nested(e, k);
  }
}
