/** Document trees in memory, as debugXML.c walks over them. */
module DocTrees {

  datatype Kind = Document | Element | EntityRef | OtherNode

  const NULL := -1

  /** A node in memory; its links are positions in the memory, or NULL. */
  datatype Rec = Rec(kind: Kind, prefix: string, name: string, children: int, next: int, parent: int)

  // ---------- trees ----------

  datatype Tree = Tree(id: nat, kids: seq<Tree>)

  function FirstOf(l: seq<Tree>): int
  {
    if l == [] then NULL else l[0].id
  }

  /** The links of the nodes below t. What stands behind an entity reference is not part of the tree, and where the
      links of t itself lead is left open: it may be inside a larger document. */
  ghost predicate Holds(mem: seq<Rec>, t: Tree)
    decreases t
  {
    && t.id < |mem|
    && (if mem[t.id].kind.EntityRef? then t.kids == [] else mem[t.id].children == FirstOf(t.kids))
    && forall j :: 0 <= j < |t.kids| ==>
         && Holds(mem, t.kids[j])
         && mem[t.kids[j].id].parent == t.id
         && mem[t.kids[j].id].next == FirstOf(t.kids[j + 1..])
         && !mem[t.kids[j].id].kind.Document?
  }

  /** No node of t has the number id. */
  ghost predicate Without(t: Tree, id: nat)
    decreases t
  {
    t.id != id && forall j :: 0 <= j < |t.kids| ==> Without(t.kids[j], id)
  }

  ghost predicate RootOnce(t: Tree)
  {
    forall j :: 0 <= j < |t.kids| ==> Without(t.kids[j], t.id)
  }

  // ---------- document order ----------

  datatype Visit = Visit(id: nat, depth: int)

  /** The depth of the children: those of a document stand as far left as the document itself. */
  function Below(mem: seq<Rec>, id: nat, depth: int): int
  {
    if id < |mem| && mem[id].kind.Document? then depth else depth + 1
  }

  function Preorder(mem: seq<Rec>, t: Tree, depth: int): seq<Visit>
    decreases t
  {
    [Visit(t.id, depth)] + PreorderAll(mem, t.kids, Below(mem, t.id, depth))
  }

  function PreorderAll(mem: seq<Rec>, l: seq<Tree>, depth: int): seq<Visit>
    decreases l
  {
    if l == [] then [] else Preorder(mem, l[0], depth) + PreorderAll(mem, l[1..], depth)
  }

  // ---------- a tree holds no node twice ----------

  /** The links of a node determine the tree below it. */
  lemma {:induction false} SameTree(mem: seq<Rec>, a: Tree, b: Tree)
    requires Holds(mem, a) && Holds(mem, b) && a.id == b.id
    ensures a == b
    decreases a
  {
    if !mem[a.id].kind.EntityRef? {
      SameKids(mem, a, b, 0, 0);
    }
    assert a.kids == b.kids;
  }

  lemma FirstIsNull(l: seq<Tree>)
    ensures FirstOf(l) == NULL <==> l == []
  {}

  /** So do the links of a child determine the rest of its siblings. */
  lemma {:induction false} SameKids(mem: seq<Rec>, a: Tree, b: Tree, i: nat, j: nat)
    requires Holds(mem, a) && Holds(mem, b) && i <= |a.kids| && j <= |b.kids|
    requires FirstOf(a.kids[i..]) == FirstOf(b.kids[j..])
    ensures a.kids[i..] == b.kids[j..]
    decreases a, |a.kids| - i
  {
    hide FirstOf;
    FirstIsNull(a.kids[i..]);
    FirstIsNull(b.kids[j..]);
    if i < |a.kids| && j < |b.kids| {
      FirstIs(a.kids[i..]);
      FirstIs(b.kids[j..]);
      SameTree(mem, a.kids[i], b.kids[j]);
      SameKids(mem, a, b, i + 1, j + 1);
      assert a.kids[i..] == [a.kids[i]] + a.kids[i + 1..] && b.kids[j..] == [b.kids[j]] + b.kids[j + 1..];
    }
  }

  lemma FirstIs(l: seq<Tree>)
    requires l != []
    ensures FirstOf(l) == l[0].id
  {}

  function Size(t: Tree): nat
    decreases t
  {
    1 + SizeAll(t.kids)
  }

  function SizeAll(l: seq<Tree>): nat
    decreases l
  {
    if l == [] then 0 else Size(l[0]) + SizeAll(l[1..])
  }

  lemma {:induction false} KidIsSmaller(l: seq<Tree>, j: nat)
    requires j < |l|
    ensures Size(l[j]) <= SizeAll(l)
  {
    if j > 0 {
      KidIsSmaller(l[1..], j - 1);
    }
  }

  /** A larger tree does not occur inside a smaller one. */
  lemma {:induction false} NotInside(mem: seq<Rec>, t: Tree, s: Tree)
    requires Holds(mem, t) && Holds(mem, s) && Size(s) < Size(t)
    ensures Without(s, t.id)
    decreases s
  {
    if s.id == t.id {
      SameTree(mem, s, t);
      assert false;
    }
    forall j | 0 <= j < |s.kids| ensures Without(s.kids[j], t.id) {
      KidIsSmaller(s.kids, j);
      NotInside(mem, t, s.kids[j]);
    }
  }

  /** The root does not occur below itself. */
  lemma RootIsOnce(mem: seq<Rec>, t: Tree)
    requires Holds(mem, t)
    ensures RootOnce(t)
  {
    forall j | 0 <= j < |t.kids| ensures Without(t.kids[j], t.id) {
      KidIsSmaller(t.kids, j);
      NotInside(mem, t, t.kids[j]);
    }
  }

  // ---------- every node once ----------

  /** Some node d steps below the root of a has the number x. */
  ghost predicate AtDepth(a: Tree, x: int, d: nat)
    decreases d
  {
    if d == 0 then a.id == x else exists k :: 0 <= k < |a.kids| && AtDepth(a.kids[k], x, d - 1)
  }

  lemma KidHeld(mem: seq<Rec>, t: Tree, k: nat)
    requires Holds(mem, t) && k < |t.kids|
    ensures Holds(mem, t.kids[k]) && t.kids[k].id < |mem| && mem[t.kids[k].id].parent == t.id
  {}

  lemma AtTop(a: Tree, x: int)
    ensures AtDepth(a, x, 0) <==> a.id == x
  {}

  /** Its parent is one step above. */
  lemma {:induction false} Climb(mem: seq<Rec>, a: Tree, x: int, d: nat)
    requires Holds(mem, a) && AtDepth(a, x, d) && d > 0
    ensures 0 <= x < |mem| && AtDepth(a, mem[x].parent, d - 1)
    decreases d
  {
    hide Holds;
    var k :| 0 <= k < |a.kids| && AtDepth(a.kids[k], x, d - 1);
    KidHeld(mem, a, k);
    if d > 1 {
      Climb(mem, a.kids[k], x, d - 1);
      assert AtDepth(a.kids[k], mem[x].parent, d - 2);
    }
  }

  lemma {:induction false} WithoutAtDepth(a: Tree, x: nat, d: nat)
    requires Without(a, x)
    ensures !AtDepth(a, x, d)
    decreases d
  {
    if d > 0 {
      forall k | 0 <= k < |a.kids| ensures !AtDepth(a.kids[k], x, d - 1) {
        WithoutAtDepth(a.kids[k], x, d - 1);
      }
    }
  }

  lemma SiblingsDiffer(mem: seq<Rec>, t: Tree, i: nat, j: nat)
    requires Holds(mem, t) && i < j < |t.kids|
    ensures t.kids[i].id != t.kids[j].id
  {
    if t.kids[i].id == t.kids[j].id {
      assert FirstOf(t.kids[i + 1..]) == FirstOf(t.kids[j + 1..]);
      SameKids(mem, t, t, i + 1, j + 1);
      assert false;
    }
  }

  /** Two children of a node share nothing. */
  lemma {:induction false} Disjoint(mem: seq<Rec>, t: Tree, i: nat, j: nat, x: int, d: nat, e: nat)
    requires Holds(mem, t) && i < j < |t.kids|
    ensures !(AtDepth(t.kids[i], x, d) && AtDepth(t.kids[j], x, e))
    decreases d
  {
    hide Holds, AtDepth;
    if AtDepth(t.kids[i], x, d) && AtDepth(t.kids[j], x, e) {
      RootIsOnce(mem, t);
      KidHeld(mem, t, i);
      KidHeld(mem, t, j);
      AtTop(t.kids[i], x);
      AtTop(t.kids[j], x);
      if d > 0 {
        Climb(mem, t.kids[i], x, d);
        WithoutAtDepth(t.kids[i], t.id, d - 1);
      }
      if e > 0 {
        Climb(mem, t.kids[j], x, e);
        WithoutAtDepth(t.kids[j], t.id, e - 1);
      }
      if d == 0 && e == 0 {
        SiblingsDiffer(mem, t, i, j);
      } else if d > 0 && e > 0 {
        Disjoint(mem, t, i, j, mem[x].parent, d - 1, e - 1);
      }
    }
  }

  /** Every visit is to a node of the tree. */
  lemma {:induction false} VisitInTree(mem: seq<Rec>, t: Tree, depth: int, i: nat) returns (d: nat)
    requires i < |Preorder(mem, t, depth)|
    ensures AtDepth(t, Preorder(mem, t, depth)[i].id, d)
    ensures i > 0 ==> d > 0
    decreases t, 0
  {
    if i == 0 {
      d := 0;
    } else {
      var k, e := VisitInKids(mem, t.kids, Below(mem, t.id, depth), i - 1);
      d := e + 1;
    }
  }

  lemma {:induction false} VisitInKids(mem: seq<Rec>, l: seq<Tree>, depth: int, i: nat) returns (k: nat, d: nat)
    requires i < |PreorderAll(mem, l, depth)|
    ensures k < |l| && AtDepth(l[k], PreorderAll(mem, l, depth)[i].id, d)
    decreases l, 1
  {
    var first := Preorder(mem, l[0], depth);
    if i < |first| {
      k := 0;
      d := VisitInTree(mem, l[0], depth, i);
    } else {
      k, d := VisitInKids(mem, l[1..], depth, i - |first|);
      k := k + 1;
    }
  }

  predicate NoRepeat(v: seq<Visit>)
  {
    forall i, j :: 0 <= i < j < |v| ==> v[i].id != v[j].id
  }

  /** The walk visits no node twice. */
  lemma {:induction false} VisitedOnce(mem: seq<Rec>, t: Tree, depth: int)
    requires Holds(mem, t)
    ensures NoRepeat(Preorder(mem, t, depth))
    decreases t, |t.kids| + 1
  {
    var v, below := Preorder(mem, t, depth), Below(mem, t.id, depth);
    KidsOnce(mem, t, 0, below);
    assert t.kids[0..] == t.kids;
    forall j | 0 < j < |v| ensures v[j].id != v[0].id {
      var k, d := VisitInKids(mem, t.kids, below, j - 1);
      RootIsOnce(mem, t);
      WithoutAtDepth(t.kids[k], t.id, d);
    }
  }

  lemma {:induction false} KidsOnce(mem: seq<Rec>, t: Tree, n: nat, depth: int)
    requires Holds(mem, t) && n <= |t.kids|
    ensures NoRepeat(PreorderAll(mem, t.kids[n..], depth))
    decreases t, |t.kids| - n
  {
    if n < |t.kids| {
      var first, rest := Preorder(mem, t.kids[n], depth), PreorderAll(mem, t.kids[n + 1..], depth);
      VisitedOnce(mem, t.kids[n], depth);
      KidsOnce(mem, t, n + 1, depth);
      assert t.kids[n..][1..] == t.kids[n + 1..];
      forall i, j | 0 <= i < |first| && 0 <= j < |rest| ensures first[i].id != rest[j].id {
        var d := VisitInTree(mem, t.kids[n], depth, i);
        var k, e := VisitInKids(mem, t.kids[n + 1..], depth, j);
        Disjoint(mem, t, n, n + 1 + k, first[i].id, d, e);
      }
    }
  }
}
