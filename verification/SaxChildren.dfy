/** The children of every element after a run of parser events, told from the events alone. */
module SaxChildren {
  import opened Octets
  import opened SaxDocument

  // ---------- what the events say ----------

  function Starts(evs: seq<Event>): nat
  {
    if evs == [] then 0 else Starts(evs[..|evs| - 1]) + if evs[|evs| - 1].Start? then 1 else 0
  }

  /** The numbers of the start tags that no end tag has closed yet, outermost first. */
  function Unclosed(evs: seq<Event>): seq<nat>
  {
    if evs == [] then []
    else
      var front, ev := evs[..|evs| - 1], evs[|evs| - 1];
      var open := Unclosed(front);
      if ev.Start? then open + [Starts(front)]
      else if ev.End? && open != [] then open[..|open| - 1]
      else open
  }

  /** Element e is the innermost open one. */
  predicate Inside(evs: seq<Event>, e: nat)
  {
    var open := Unclosed(evs);
    open != [] && open[|open| - 1] == e
  }

  /** Of the events that concern the collecting of text, the last one is not the content of an entity. */
  predicate Collecting(evs: seq<Event>)
  {
    if evs == [] then true
    else
      var front, ev := evs[..|evs| - 1], evs[|evs| - 1];
      match ev
      case Start => true
      case End => true
      case Characters(_, _, _) => Unclosed(front) != [] || Collecting(front)
      case OtherNode => Collecting(front)
      case Entity(items) => (Unclosed(front) == [] || items == []) && Collecting(front)
  }

  /** Something that is said of an element: a chunk of text, a child element, or another node. */
  datatype Mark = Chunk(s: seq<byte>) | Child(number: nat) | Node

  function ItemMarks(items: seq<Item>): (r: seq<Mark>)
    ensures |r| == |items|
  {
    seq(|items|, i requires 0 <= i < |items| => if items[i].NodeItem? then Node else Chunk(items[i].s))
  }

  /** The length of the chunks at the end. */
  function TailLength(marks: seq<Mark>): nat
  {
    if marks == [] || !marks[|marks| - 1].Chunk? then 0
    else TailLength(marks[..|marks| - 1]) + |marks[|marks| - 1].s|
  }

  /** A chunk that would take collected text past ten million bytes is dropped. */
  predicate Dropped(marks: seq<Mark>, collecting: bool, huge: bool, ch: seq<byte>)
  {
    !huge && collecting && marks != [] && marks[|marks| - 1].Chunk? && TailLength(marks) + |ch| > 10000000
  }

  /** Everything said while element e was the innermost open one, in the order of the events. */
  function Marks(evs: seq<Event>, huge: bool, e: nat): seq<Mark>
  {
    if evs == [] then []
    else
      var front, ev := evs[..|evs| - 1], evs[|evs| - 1];
      var before := Marks(front, huge, e);
      if !Inside(front, e) then before
      else match ev
        case Start => before + [Child(Starts(front))]
        case End => before
        case Characters(ch, _, _) => if Dropped(before, Collecting(front), huge, ch) then before else before + [Chunk(ch)]
        case OtherNode => before + [Node]
        case Entity(items) => before + ItemMarks(items)
  }

  // ---------- the children they make ----------

  /** The number of chunks in front. */
  function ChunkRun(marks: seq<Mark>): (k: nat)
    ensures k <= |marks| && (forall i :: 0 <= i < k ==> marks[i].Chunk?)
    ensures k < |marks| ==> !marks[k].Chunk?
  {
    if marks == [] || !marks[0].Chunk? then 0 else 1 + ChunkRun(marks[1..])
  }

  function Joined(chunks: seq<Mark>): seq<byte>
    requires forall i :: 0 <= i < |chunks| ==> chunks[i].Chunk?
  {
    if chunks == [] then [] else chunks[0].s + Joined(chunks[1..])
  }

  /** How many marks the first child takes: a whole run of chunks, or any other mark alone. */
  function FirstLength(marks: seq<Mark>): (n: nat)
    requires marks != []
    ensures 0 < n <= |marks|
  {
    if marks[0].Chunk? then ChunkRun(marks) else 1
  }

  function FirstChild(marks: seq<Mark>): Shape
    requires marks != []
  {
    match marks[0]
    case Chunk(_) => Text(Joined(marks[..ChunkRun(marks)]))
    case Child(n) => Elem(n)
    case Node => Other
  }

  /** One text for each run of chunks, one child for every other mark. */
  function Children(marks: seq<Mark>): seq<Shape>
    decreases |marks|
  {
    if marks == [] then [] else [FirstChild(marks)] + Children(marks[FirstLength(marks)..])
  }

  // ---------- one mark more ----------

  lemma {:induction false} JoinedSnoc(chunks: seq<Mark>, s: seq<byte>)
    requires forall i :: 0 <= i < |chunks| ==> chunks[i].Chunk?
    ensures Joined(chunks + [Chunk(s)]) == Joined(chunks) + s
  {
    if chunks == [] {
      assert Joined([Chunk(s)]) == s + Joined([Chunk(s)][1..]);
    } else {
      assert (chunks + [Chunk(s)])[1..] == chunks[1..] + [Chunk(s)];
      JoinedSnoc(chunks[1..], s);
      assert chunks[0].s + (Joined(chunks[1..]) + s) == chunks[0].s + Joined(chunks[1..]) + s;
    }
  }

  lemma {:induction false} RunSplit(marks: seq<Mark>, more: seq<Mark>)
    requires ChunkRun(marks) < |marks|
    ensures ChunkRun(marks + more) == ChunkRun(marks)
  {
    if marks[0].Chunk? {
      assert (marks + more)[1..] == marks[1..] + more;
      RunSplit(marks[1..], more);
    }
  }

  lemma {:induction false} AllChunks(marks: seq<Mark>)
    requires forall i :: 0 <= i < |marks| ==> marks[i].Chunk?
    ensures ChunkRun(marks) == |marks|
  {
    if marks != [] {
      AllChunks(marks[1..]);
    }
  }

  /** The last child is text exactly when the last mark is a chunk. */
  lemma {:induction false} LastIsText(marks: seq<Mark>)
    ensures EndsInText(Children(marks)) <==> marks != [] && marks[|marks| - 1].Chunk?
    ensures marks != [] ==> Children(marks) != []
    decreases |marks|
  {
    hide FirstChild, FirstLength;
    if marks != [] {
      var n := FirstLength(marks);
      LastIsText(marks[n..]);
      FirstKind(marks);
      assert n < |marks| ==> marks[n..][|marks| - n - 1] == marks[|marks| - 1];
    }
  }

  lemma FirstKind(marks: seq<Mark>)
    requires marks != []
    ensures FirstChild(marks).Text? <==> marks[0].Chunk?
    ensures FirstLength(marks) == |marks| ==> (marks[|marks| - 1].Chunk? <==> marks[0].Chunk?)
  {
    hide Joined, ChunkRun;
  }

  /** A chunk more joins the text that is last, or begins one; any other mark is a child of its own. */
  lemma {:induction false} ChildrenSnoc(marks: seq<Mark>, m: Mark)
    ensures Children(marks + [m])
            == if m.Chunk? then AddText(Children(marks), m.s)
               else Children(marks) + [if m.Child? then Elem(m.number) else Other]
    decreases |marks|
  {
    hide Joined, AddText, FirstChild, FirstLength;
    if marks == [] {
      FirstMark(m);
    } else if ChunkRun(marks) == |marks| {
      ChunksThen(marks, m);
      JoinsText(Joined(marks), m);
    } else {
      var rest := marks[FirstLength(marks)..];
      AfterFirst(marks, m);
      ChildrenSnoc(rest, m);
      LastIsText(rest);
      Prepended(FirstChild(marks), Children(rest), m);
    }
  }

  /** What comes first is the same with one mark more behind it. */
  lemma AfterFirst(marks: seq<Mark>, m: Mark)
    requires marks != [] && ChunkRun(marks) < |marks|
    ensures FirstChild(marks + [m]) == FirstChild(marks) && FirstLength(marks + [m]) == FirstLength(marks)
    ensures (marks + [m])[FirstLength(marks)..] == marks[FirstLength(marks)..] + [m]
    ensures marks[FirstLength(marks)..] != [] || !FirstChild(marks).Text?
  {
    hide FirstChild, FirstLength, ChunkRun;
    SameFirst(marks, m);
    SplitSnoc(marks, m, FirstLength(marks));
    FirstKind(marks);
  }

  lemma SameFirst(marks: seq<Mark>, m: Mark)
    requires marks != [] && ChunkRun(marks) < |marks|
    ensures FirstChild(marks + [m]) == FirstChild(marks) && FirstLength(marks + [m]) == FirstLength(marks)
    ensures FirstLength(marks) == |marks| ==> !marks[0].Chunk?
  {
    hide ChunkRun, Joined;
    RunSplit(marks, [m]);
    SplitSnoc(marks, m, ChunkRun(marks));
  }

  lemma SplitSnoc(marks: seq<Mark>, m: Mark, n: nat)
    requires n <= |marks|
    ensures (marks + [m])[..n] == marks[..n] && (marks + [m])[n..] == marks[n..] + [m]
  {
  }

  lemma FirstMark(m: Mark)
    ensures Children([] + [m]) == if m.Chunk? then AddText(Children([]), m.s)
                                  else Children([]) + [if m.Child? then Elem(m.number) else Other]
  {
    OneMark(m);
  }

  lemma JoinsText(s: seq<byte>, m: Mark)
    ensures m.Chunk? ==> AddText([Text(s)], m.s) == [Text(s + m.s)]
  {
  }

  lemma OneMark(m: Mark)
    ensures Children([m]) == [if m.Chunk? then Text(m.s) else if m.Child? then Elem(m.number) else Other]
    ensures [] + [m] == [m]
  {
    var l := [m];
    if m.Chunk? {
      AllChunks(l);
      assert l[..1] == l && l[1..] == [] && Joined(l) == m.s + Joined(l[1..]) == m.s;
    } else {
      assert l[1..] == [];
    }
  }

  lemma OnlyChunks(marks: seq<Mark>)
    requires marks != [] && forall i :: 0 <= i < |marks| ==> marks[i].Chunk?
    ensures Children(marks) == [Text(Joined(marks))]
  {
    AllChunks(marks);
    assert marks[..|marks|] == marks && marks[|marks|..] == [];
  }

  lemma ChunksThen(marks: seq<Mark>, m: Mark)
    requires marks != [] && ChunkRun(marks) == |marks|
    ensures Children(marks) == [Text(Joined(marks))]
    ensures Children(marks + [m])
            == if m.Chunk? then [Text(Joined(marks) + m.s)]
               else [Text(Joined(marks)), if m.Child? then Elem(m.number) else Other]
  {
    hide Joined, Children;
    OnlyChunks(marks);
    if m.Chunk? {
      OnlyChunks(marks + [m]);
      JoinedSnoc(marks, m.s);
    } else {
      ChunksThenOther(marks, m);
    }
  }

  lemma ChunksThenOther(marks: seq<Mark>, m: Mark)
    requires marks != [] && (forall i :: 0 <= i < |marks| ==> marks[i].Chunk?) && !m.Chunk?
    ensures Children(marks + [m]) == [Text(Joined(marks)), if m.Child? then Elem(m.number) else Other]
  {
    hide Joined;
    var all, k := marks + [m], |marks|;
    ChunksInFront(marks, m);
    OneMark(m);
    assert all[..k] == marks && all[k..] == [m];
  }

  lemma {:induction false} ChunksInFront(marks: seq<Mark>, m: Mark)
    requires (forall i :: 0 <= i < |marks| ==> marks[i].Chunk?) && !m.Chunk?
    ensures ChunkRun(marks + [m]) == |marks|
  {
    if marks != [] {
      assert (marks + [m])[1..] == marks[1..] + [m];
      ChunksInFront(marks[1..], m);
    }
  }

  /** Adding at the end of a list does not see a child in front, unless the list is empty and that child is text. */
  lemma Prepended(c: Shape, l: seq<Shape>, m: Mark)
    requires l != [] || !c.Text?
    ensures m.Chunk? ==> [c] + AddText(l, m.s) == AddText([c] + l, m.s)
  {
  }

  lemma {:induction false} ChildrenItems(marks: seq<Mark>, items: seq<Item>)
    ensures Children(marks + ItemMarks(items)) == AddItems(Children(marks), items)
    decreases |items|
  {
    if items == [] {
      assert marks + ItemMarks(items) == marks;
    } else {
      var m := ItemMarks(items)[0];
      assert marks + ItemMarks(items) == (marks + [m]) + ItemMarks(items[1..]);
      ChildrenSnoc(marks, m);
      ChildrenItems(marks + [m], items[1..]);
    }
  }

  // ---------- the run ----------

  lemma {:induction false} RunSnoc(d: Doc, huge: bool, evs: seq<Event>, ev: Event)
    requires WellFormed(d)
    ensures Run(d, huge, evs + [ev]) == Step(Run(d, huge, evs), huge, ev)
    decreases |evs|
  {
    if evs == [] {
      assert [ev][1..] == [] && [] + [ev] == [ev];
      StepKeepsWellFormed(d, huge, ev);
    } else {
      assert (evs + [ev])[0] == evs[0] && (evs + [ev])[1..] == evs[1..] + [ev];
      StepKeepsWellFormed(d, huge, evs[0]);
      RunSnoc(Step(d, huge, evs[0]), huge, evs[1..], ev);
    }
  }

  lemma {:induction false} TailIsLast(marks: seq<Mark>)
    ensures var l := Children(marks); EndsInText(l) ==> |l[|l| - 1].s| == TailLength(marks)
    ensures !EndsInText(Children(marks)) ==> TailLength(marks) == 0
  {
    LastIsText(marks);
    if marks != [] {
      var front, m := marks[..|marks| - 1], marks[|marks| - 1];
      assert marks == front + [m];
      TailIsLast(front);
      ChildrenSnoc(front, m);
    }
  }

  /** The document is the one that the events describe. */
  ghost predicate Told(d: Doc, huge: bool, evs: seq<Event>)
  {
    && |d.kids| == Starts(evs) && d.open == Unclosed(evs) && d.cached == Collecting(evs)
    && (forall k :: 0 <= k < |d.open| ==> d.open[k] < |d.kids|)
    && (forall e: nat :: e < |d.kids| ==> d.kids[e] == Children(Marks(evs, huge, e)))
    && forall e: nat :: e >= |d.kids| ==> Marks(evs, huge, e) == []
  }

  /** Element e, when it is the innermost open one. */
  lemma ToldInside(d: Doc, huge: bool, evs: seq<Event>, ev: Event, e: nat)
    requires WellFormed(d) && Told(d, huge, evs) && Inside(evs, e)
    ensures var r := Step(d, huge, ev); e < |d.kids| <= |r.kids| && r.kids[e] == Children(Marks(evs + [ev], huge, e))
  {
    hide Children, ChildrenOk, Nested, NoAdjacentText;
    var all, before := evs + [ev], Marks(evs, huge, e);
    assert all[..|all| - 1] == evs && all[|all| - 1] == ev;
    match ev
    case Start => ChildrenSnoc(before, Child(Starts(evs)));
    case End =>
    case Characters(ch, _, _) =>
      ChildrenSnoc(before, Chunk(ch));
      LastIsText(before);
      TailIsLast(before);
    case OtherNode => ChildrenSnoc(before, Node);
    case Entity(items) => ChildrenItems(before, items);
  }

  /** How many elements there are, which of them are open, and whether text is being collected. */
  lemma ToldShape(d: Doc, huge: bool, evs: seq<Event>, ev: Event)
    requires WellFormed(d) && Told(d, huge, evs)
    ensures var all, r := evs + [ev], Step(d, huge, ev);
      && |r.kids| == Starts(all) && r.open == Unclosed(all) && r.cached == Collecting(all)
      && forall k :: 0 <= k < |r.open| ==> r.open[k] < |r.kids|
  {
    hide Children, ChildrenOk, Nested, NoAdjacentText, Dropped, ItemMarks, AddText, AddItems, EndsInText, Marks;
    var all := evs + [ev];
    assert all[..|all| - 1] == evs && all[|all| - 1] == ev;
  }

  lemma ToldStep(d: Doc, huge: bool, evs: seq<Event>, ev: Event)
    requires WellFormed(d) && Told(d, huge, evs)
    ensures Told(Step(d, huge, ev), huge, evs + [ev])
  {
    hide Children, ChildrenOk, Nested, NoAdjacentText, Dropped, ItemMarks, AddText, AddItems, EndsInText, Unclosed,
         Collecting;
    var all, r := evs + [ev], Step(d, huge, ev);
    assert all[..|all| - 1] == evs && all[|all| - 1] == ev;
    ToldShape(d, huge, evs, ev);
    NothingYet();
    forall e: nat ensures if e < |r.kids| then r.kids[e] == Children(Marks(all, huge, e)) else Marks(all, huge, e) == [] {
      if Inside(evs, e) {
        ToldInside(d, huge, evs, ev, e);
      }
    }
  }

  lemma NothingYet()
    ensures Children([]) == []
  {
  }

  /** After any run the children of every element are those that the events describe, one text for each run of
      chunks, one child for every other thing said. */
  lemma {:induction false} ChildrenAsTold(huge: bool, evs: seq<Event>)
    ensures Told(Run(Empty, huge, evs), huge, evs)
  {
    if evs != [] {
      var front, ev := evs[..|evs| - 1], evs[|evs| - 1];
      assert evs == front + [ev];
      ChildrenAsTold(huge, front);
      RunSnoc(Empty, huge, front, ev);
      ToldStep(Run(Empty, huge, front), huge, front, ev);
    }
  }
}
