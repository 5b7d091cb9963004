/** The walk over a document tree in xmlShellDu of debugXML.c. */
module ShellDu {
  import opened DocTrees
  import opened DocOrder

  // ---------- printing ----------

  /** What is printed for a node: a line for the document and for every element, indented by its depth. */
  function Line(r: Rec, depth: int): seq<string>
  {
    match r.kind
    case Document => ["/"]
    case Element => [Spaces(depth) + (if r.prefix != "" then r.prefix + ":" else "") + r.name]
    case _ => []
  }

  function Spaces(depth: int): string
  {
    if depth <= 0 then "" else "  " + Spaces(depth - 1)
  }

  function Lines(mem: seq<Rec>, visits: seq<Visit>): seq<string>
    requires forall i :: 0 <= i < |visits| ==> visits[i].id < |mem|
  {
    if visits == [] then []
    else Lines(mem, visits[..|visits| - 1]) + Line(mem[visits[|visits| - 1].id], visits[|visits| - 1].depth)
  }

  lemma {:induction false} SpacesAre(depth: nat)
    ensures |Spaces(depth)| == 2 * depth && forall i :: 0 <= i < 2 * depth ==> Spaces(depth)[i] == ' '
    ensures Spaces(depth + 1) == Spaces(depth) + "  "
  {
    if depth > 0 {
      SpacesAre(depth - 1);
    }
  }

  /** The line of an element: two blanks for each level, then its name with the prefix in front. */
  lemma LineSpelledOut(r: Rec, depth: nat)
    ensures r.kind.Document? ==> Line(r, depth) == ["/"]
    ensures r.kind.Element? ==>
              && |Line(r, depth)| == 1
              && var s := Line(r, depth)[0];
                 && |s| >= 2 * depth && (forall i :: 0 <= i < 2 * depth ==> s[i] == ' ')
                 && s[2 * depth..] == if r.prefix == "" then r.name else r.prefix + ":" + r.name
    ensures !r.kind.Document? && !r.kind.Element? ==> Line(r, depth) == []
  {
    SpacesAre(depth);
  }

  /** Visits are printed one after the other. */
  lemma {:induction false} LinesInOrder(mem: seq<Rec>, a: seq<Visit>, b: seq<Visit>)
    requires forall i :: 0 <= i < |a| ==> a[i].id < |mem|
    requires forall i :: 0 <= i < |b| ==> b[i].id < |mem|
    ensures Lines(mem, a + b) == Lines(mem, a) + Lines(mem, b)
    ensures |a| == 1 ==> Lines(mem, a) == Line(mem[a[0].id], a[0].depth)
  {
    hide Line, Lines;
    if b == [] {
      assert a + b == a;
      NoLines(mem);
    } else {
      var front, v := b[..|b| - 1], b[|b| - 1];
      assert b == front + [v] && a + b == (a + front) + [v];
      LinesInOrder(mem, a, front);
      LinesSnoc(mem, front, v);
      LinesSnoc(mem, a + front, v);
    }
    if |a| == 1 {
      assert a == [] + [a[0]];
      LinesSnoc(mem, [], a[0]);
      NoLines(mem);
    }
  }

  lemma NoLines(mem: seq<Rec>)
    ensures Lines(mem, []) == []
  {
  }

  lemma LinesSnoc(mem: seq<Rec>, a: seq<Visit>, v: Visit)
    requires (forall i :: 0 <= i < |a| ==> a[i].id < |mem|) && v.id < |mem|
    ensures Lines(mem, a + [v]) == Lines(mem, a) + Line(mem[v.id], v.depth)
  {
    hide Line;
    assert (a + [v])[..|a|] == a;
  }

  /** The printing of one node. */
  method PrintNode(r: Rec, indent: int) returns (lines: seq<string>)
    ensures lines == Line(r, indent)
  {
    if r.kind.Document? {
      lines := ["/"];
    } else if r.kind.Element? {
      var line := "";
      var i := 0;
      while i < indent
        invariant (0 <= i <= indent || (i == 0 && indent < 0)) && line == Spaces(i)
      {
        SpacesAre(i);
        line := line + "  ";
        i := i + 1;
      }
      assert line == Spaces(indent) && line + "" == line;
      if r.prefix != "" {
        line := line + (r.prefix + ":");
      }
      line := line + r.name;
      lines := [line];
    } else {
      lines := [];
    }
  }

  // ---------- where the walk is ----------

  /** A node on the way down from the root, and which of its children the way takes. */
  datatype Frame = Frame(t: Tree, i: nat)

  ghost predicate PathOk(root: Tree, path: seq<Frame>)
  {
    && (path != [] ==> path[0].t == root)
    && (forall k :: 0 <= k < |path| ==> path[k].i < |path[k].t.kids|)
    && forall k :: 0 <= k < |path| - 1 ==> path[k + 1].t == path[k].t.kids[path[k].i]
  }

  ghost function Current(root: Tree, path: seq<Frame>): Tree
    requires PathOk(root, path)
  {
    if path == [] then root else path[|path| - 1].t.kids[path[|path| - 1].i]
  }

  ghost function DepthOf(mem: seq<Rec>, root: Tree, path: seq<Frame>): int
  {
    if path == [] then 0 else Below(mem, root.id, 0) + |path| - 1
  }

  /** What is left to visit after the subtree of the current node. */
  ghost function After(mem: seq<Rec>, root: Tree, path: seq<Frame>): seq<Visit>
    requires PathOk(root, path)
    decreases |path|
  {
    if path == [] then []
    else
      var f := path[|path| - 1];
      PreorderAll(mem, f.t.kids[f.i + 1..], DepthOf(mem, root, path)) + After(mem, root, path[..|path| - 1])
  }

  /** Everything on the way is held in memory, and below the first step the root does not occur again. */
  lemma {:induction false} OnTheWay(mem: seq<Rec>, root: Tree, path: seq<Frame>)
    requires Holds(mem, root) && RootOnce(root) && PathOk(root, path)
    ensures Holds(mem, Current(root, path))
    ensures path != [] ==>
              var f, c := path[|path| - 1], Current(root, path);
              && Without(c, root.id) && !mem[c.id].kind.Document?
              && f.t == Current(root, path[..|path| - 1])
              && mem[c.id].parent == f.t.id && mem[c.id].next == FirstOf(f.t.kids[f.i + 1..])
    decreases |path|
  {
    if path != [] {
      var init := path[..|path| - 1];
      assert PathOk(root, init);
      OnTheWay(mem, root, init);
      if init != [] {
        assert path[|path| - 1].t == path[|path| - 2].t.kids[path[|path| - 2].i];
      }
    }
  }

  /** One step deeper, to the first child. */
  lemma Descend(mem: seq<Rec>, root: Tree, path: seq<Frame>)
    requires PathOk(root, path) && Holds(mem, root) && RootOnce(root) && Current(root, path).kids != []
    ensures var next := path + [Frame(Current(root, path), 0)];
            && PathOk(root, next) && Current(root, next) == Current(root, path).kids[0]
            && DepthOf(mem, root, next) == Below(mem, Current(root, path).id, DepthOf(mem, root, path))
            && Preorder(mem, Current(root, path), DepthOf(mem, root, path)) + After(mem, root, path)
               == [Visit(Current(root, path).id, DepthOf(mem, root, path))]
                  + (Preorder(mem, Current(root, next), DepthOf(mem, root, next)) + After(mem, root, next))
  {
    OnTheWay(mem, root, path);
    var next := path + [Frame(Current(root, path), 0)];
    assert next[..|next| - 1] == path;
  }

  /** To the next sibling. */
  lemma Sibling(mem: seq<Rec>, root: Tree, path: seq<Frame>)
    requires PathOk(root, path) && path != []
    requires path[|path| - 1].i + 1 < |path[|path| - 1].t.kids|
    ensures var f := path[|path| - 1];
            var next := path[..|path| - 1] + [Frame(f.t, f.i + 1)];
            && PathOk(root, next) && Current(root, next) == f.t.kids[f.i + 1]
            && DepthOf(mem, root, next) == DepthOf(mem, root, path)
            && After(mem, root, path) == Preorder(mem, Current(root, next), DepthOf(mem, root, next)) + After(mem, root, next)
  {
    hide Preorder, PreorderAll, Below;
    var f := path[|path| - 1];
    var init := path[..|path| - 1];
    var next := init + [Frame(f.t, f.i + 1)];
    assert next[..|next| - 1] == init;
    FirstThenRest(mem, f.t.kids, f.i + 1, DepthOf(mem, root, path));
    var first, rest := Preorder(mem, f.t.kids[f.i + 1], DepthOf(mem, root, path)), PreorderAll(mem, f.t.kids[f.i + 2..], DepthOf(mem, root, path));
    assert first + rest + After(mem, root, init) == first + (rest + After(mem, root, init));
  }

  lemma FirstThenRest(mem: seq<Rec>, l: seq<Tree>, i: nat, depth: int)
    requires i < |l|
    ensures PreorderAll(mem, l[i..], depth) == Preorder(mem, l[i], depth) + PreorderAll(mem, l[i + 1..], depth)
  {
    assert l[i..][1..] == l[i + 1..];
  }

  /** Up from a last child. */
  lemma Up(mem: seq<Rec>, root: Tree, path: seq<Frame>)
    requires PathOk(root, path) && path != []
    requires path[|path| - 1].i + 1 == |path[|path| - 1].t.kids|
    ensures PathOk(root, path[..|path| - 1]) && After(mem, root, path) == After(mem, root, path[..|path| - 1])
    ensures |path| > 1 ==> DepthOf(mem, root, path[..|path| - 1]) == DepthOf(mem, root, path) - 1
  {
    var f := path[|path| - 1];
    assert f.t.kids[f.i + 1..] == [];
  }

  // ---------- the walk ----------

  /** The state of the walk in front of a node: what has been visited and what is left make up the whole tree. */
  ghost predicate At(mem: seq<Rec>, root: Tree, path: seq<Frame>, node: int, indent: int, visited: seq<Visit>)
  {
    && PathOk(root, path) && node == Current(root, path).id && indent == DepthOf(mem, root, path)
    && visited + (Preorder(mem, Current(root, path), indent) + After(mem, root, path)) == Preorder(mem, root, 0)
  }

  /** The same after the subtree of the node was visited. */
  ghost predicate Done(mem: seq<Rec>, root: Tree, path: seq<Frame>, node: int, indent: int, visited: seq<Visit>)
  {
    && PathOk(root, path) && node == Current(root, path).id && (path != [] ==> indent == DepthOf(mem, root, path))
    && visited + After(mem, root, path) == Preorder(mem, root, 0)
  }

  /** Visiting a node without children, or behind an entity reference. */
  lemma VisitLeaf(mem: seq<Rec>, root: Tree, path: seq<Frame>, node: int, indent: int, visited: seq<Visit>)
    requires At(mem, root, path, node, indent, visited) && Current(root, path).kids == [] && node >= 0
    ensures Done(mem, root, path, node, indent, visited + [Visit(node, indent)])
    ensures |visited| < |Preorder(mem, root, 0)|
  {
    var c := Current(root, path);
    assert Preorder(mem, c, indent) == [Visit(c.id, indent)];
    assert visited + ([Visit(c.id, indent)] + After(mem, root, path)) == visited + [Visit(c.id, indent)] + After(mem, root, path);
  }

  lemma VisitInner(mem: seq<Rec>, root: Tree, path: seq<Frame>, node: int, indent: int, visited: seq<Visit>)
    requires Holds(mem, root) && RootOnce(root)
    requires At(mem, root, path, node, indent, visited) && Current(root, path).kids != [] && node >= 0
    ensures At(mem, root, path + [Frame(Current(root, path), 0)], Current(root, path).kids[0].id, Below(mem, node, indent),
               visited + [Visit(node, indent)])
    ensures |visited| < |Preorder(mem, root, 0)|
  {
    hide Holds, RootOnce, Preorder, After, PathOk, Below;
    Descend(mem, root, path);
  }

  lemma NextSibling(mem: seq<Rec>, root: Tree, path: seq<Frame>, node: int, indent: int, visited: seq<Visit>)
    requires Done(mem, root, path, node, indent, visited) && path != []
    requires path[|path| - 1].i + 1 < |path[|path| - 1].t.kids|
    ensures var f := path[|path| - 1];
            At(mem, root, path[..|path| - 1] + [Frame(f.t, f.i + 1)], f.t.kids[f.i + 1].id, indent, visited)
  {
    hide Preorder, After, PathOk, Below;
    Sibling(mem, root, path);
  }

  lemma Parent(mem: seq<Rec>, root: Tree, path: seq<Frame>, node: int, indent: int, visited: seq<Visit>)
    requires Holds(mem, root) && RootOnce(root)
    requires Done(mem, root, path, node, indent, visited) && path != []
    requires path[|path| - 1].i + 1 == |path[|path| - 1].t.kids|
    ensures Done(mem, root, path[..|path| - 1], path[|path| - 1].t.id, indent - 1, visited)
  {
    hide Holds, RootOnce, Preorder, After, Below;
    OnTheWay(mem, root, path);
    Up(mem, root, path);
  }

  /** What the links of a node say about its place. */
  lemma Links(mem: seq<Rec>, root: Tree, path: seq<Frame>, node: int)
    requires Holds(mem, root) && RootOnce(root) && PathOk(root, path) && node == Current(root, path).id
    ensures 0 <= node < |mem|
    ensures path == [] ==> node == root.id
    ensures path != [] ==>
              var f := path[|path| - 1];
              && node != root.id && mem[node].parent == f.t.id
              && mem[node].next == (if f.i + 1 < |f.t.kids| then f.t.kids[f.i + 1].id else NULL)
    ensures Current(root, path).kids == [] <==> mem[node].kind.EntityRef? || mem[node].children == NULL
    ensures Current(root, path).kids != [] ==> mem[node].children == Current(root, path).kids[0].id
    ensures path != [] ==> !mem[node].kind.Document?
  {
    OnTheWay(mem, root, path);
    if path != [] {
      var f := path[|path| - 1];
      assert f.t.kids[f.i + 1..] == [] <==> f.i + 1 == |f.t.kids|;
    }
  }

  /** Climbs from a finished node to the sibling of the nearest ancestor-or-self that has one. */
  method GoUp(mem: seq<Rec>, tree: int, start: int, startIndent: int, ghost root: Tree, ghost from: seq<Frame>, ghost visited: seq<Visit>)
    returns (node: int, indent: int, ghost path: seq<Frame>)
    requires Holds(mem, root) && RootOnce(root) && tree == root.id
    requires Done(mem, root, from, start, startIndent, visited) && from != []
    requires from[|from| - 1].i + 1 == |from[|from| - 1].t.kids|
    ensures node == NULL ==> visited == Preorder(mem, root, 0)
    ensures node != NULL ==> At(mem, root, path, node, indent, visited)
  {
    hide Holds, RootOnce, Preorder, After;
    node, indent, path := start, startIndent, from;
    Links(mem, root, path, node);
    while node != tree
      invariant Done(mem, root, path, node, indent, visited) && (node == tree ==> path == [])
      invariant path != [] ==> path[|path| - 1].i + 1 == |path[|path| - 1].t.kids|
      decreases |path|
    {
      Links(mem, root, path, node);
      Parent(mem, root, path, node, indent, visited);
      if mem[node].parent != NULL {
        node := mem[node].parent;
        indent := indent - 1;
        path := path[..|path| - 1];
      }
      Links(mem, root, path, node);
      if node != tree && mem[node].next != NULL {
        NextSibling(mem, root, path, node, indent, visited);
        node := mem[node].next;
        path := path[..|path| - 1] + [Frame(path[|path| - 1].t, path[|path| - 1].i + 1)];
        Links(mem, root, path, node);
        break;
      }
      if mem[node].parent == NULL || node == tree {
        AllVisited(mem, root, path, node, indent, visited);
        node := NULL;
        break;
      }
    }
    if node == tree {
      AllVisited(mem, root, path, node, indent, visited);
      node := NULL;
    }
  }

  lemma AllVisited(mem: seq<Rec>, root: Tree, path: seq<Frame>, node: int, indent: int, visited: seq<Visit>)
    requires Done(mem, root, path, node, indent, visited)
    ensures path == [] ==> visited == Preorder(mem, root, 0)
  {
    assert visited + [] == visited;
  }

  /** xmlShellDu: the nodes of the subtree in document order, each printed at its depth below the start. */
  method Du(mem: seq<Rec>, tree: int, ghost root: Tree)
    returns (r: int, output: seq<string>, ghost visited: seq<Visit>, ghost paths: seq<seq<nat>>)
    requires tree != NULL ==> tree == root.id && Holds(mem, root)
    ensures tree == NULL ==> r == -1 && output == []
    ensures tree != NULL ==>
              && r == 0 && visited == Preorder(mem, root, 0) && NoRepeat(visited)
              && (forall i :: 0 <= i < |visited| ==> visited[i].id < |mem|) && output == Lines(mem, visited)
              && Follows(mem, root, 0, visited, paths) && DocOrder.InOrder(paths) && forall p :: p in paths <==> PathIn(root, p)
  {
    hide Follows, DocOrder.InOrder, PathIn, Holds, RootOnce, Preorder, After, Line;
    output, visited, paths := [], [], [];
    if tree == NULL {
      return -1, output, visited, paths;
    }
    var node, indent := tree, 0;
    ghost var path: seq<Frame> := [];
    Begin(mem, root);
    RootIsOnce(mem, root);
    VisitedOnce(mem, root, 0);
    paths := VisitsAllPaths(mem, root, 0);
    while node != NULL
      invariant node == NULL ==> visited == Preorder(mem, root, 0)
      invariant node != NULL ==> At(mem, root, path, node, indent, visited)
      invariant (forall i :: 0 <= i < |visited| ==> visited[i].id < |mem|) && output == Lines(mem, visited)
      decreases if node == NULL then 0 else 1, |Preorder(mem, root, 0)| - |visited|
    {
      Links(mem, root, path, node);
      ghost var here := Visit(node, indent);
      assert (visited + [here])[..|visited|] == visited;
      var lines := PrintNode(mem[node], indent);
      output := output + lines;
      if mem[node].kind.Document? {
        if mem[node].children != NULL {
          VisitInner(mem, root, path, node, indent, visited);
          path := path + [Frame(Current(root, path), 0)];
        } else {
          VisitLeaf(mem, root, path, node, indent, visited);
          AllVisited(mem, root, path, node, indent, visited + [here]);
        }
        node := mem[node].children;
      } else if mem[node].children != NULL && !mem[node].kind.EntityRef? {
        VisitInner(mem, root, path, node, indent, visited);
        path := path + [Frame(Current(root, path), 0)];
        node := mem[node].children;
        indent := indent + 1;
      } else {
        VisitLeaf(mem, root, path, node, indent, visited);
        if node != tree && mem[node].next != NULL {
          NextSibling(mem, root, path, node, indent, visited + [here]);
          path := path[..|path| - 1] + [Frame(path[|path| - 1].t, path[|path| - 1].i + 1)];
          node := mem[node].next;
        } else if node != tree {
          node, indent, path := GoUp(mem, tree, node, indent, root, path, visited + [here]);
        } else {
          AllVisited(mem, root, path, node, indent, visited + [here]);
          node := NULL;
        }
      }
      visited := visited + [here];
    }
    r := 0;
  }

  lemma Begin(mem: seq<Rec>, root: Tree)
    ensures At(mem, root, [], root.id, 0, [])
  {
    assert [] + (Preorder(mem, root, 0) + []) == Preorder(mem, root, 0);
  }
}
