/** The walk over a tree in terms of paths: which nodes it visits, at what depth, and in what order. */
module DocOrder {
  import opened DocTrees

  /** A path leads from the root down, by the positions of the children that it takes. */
  ghost predicate PathIn(t: Tree, p: seq<nat>)
    decreases |p|
  {
    p == [] || (p[0] < |t.kids| && PathIn(t.kids[p[0]], p[1..]))
  }

  ghost function NodeOn(t: Tree, p: seq<nat>): Tree
    requires PathIn(t, p)
    decreases |p|
  {
    if p == [] then t else NodeOn(t.kids[p[0]], p[1..])
  }

  /** Document order: a node comes before those below it, and before those that branch off to the right. */
  ghost predicate PathBefore(p: seq<nat>, q: seq<nat>)
  {
    exists k: nat :: ForksAt(p, q, k)
  }

  predicate ForksAt(p: seq<nat>, q: seq<nat>, k: nat)
  {
    k <= |p| && k < |q| && p[..k] == q[..k] && (k == |p| || p[k] < q[k])
  }

  /** The number of indentations of a node on a path; the root does not count when it is the document. */
  function PathDepth(mem: seq<Rec>, t: Tree, depth: int, p: seq<nat>): int
  {
    if t.id < |mem| && mem[t.id].kind.Document? && p != [] then depth + |p| - 1 else depth + |p|
  }

  /** The visits are those to the nodes on these paths. */
  ghost predicate Follows(mem: seq<Rec>, t: Tree, depth: int, v: seq<Visit>, ps: seq<seq<nat>>)
  {
    && |v| == |ps|
    && forall i :: 0 <= i < |v| ==>
         PathIn(t, ps[i]) && v[i].id == NodeOn(t, ps[i]).id && v[i].depth == PathDepth(mem, t, depth, ps[i])
  }

  ghost predicate InOrder(ps: seq<seq<nat>>)
  {
    forall i, j :: 0 <= i < j < |ps| ==> PathBefore(ps[i], ps[j])
  }

  function Prefixed(k: nat, ps: seq<seq<nat>>): (r: seq<seq<nat>>)
    ensures |r| == |ps| && forall i :: 0 <= i < |ps| ==> r[i] == [k] + ps[i]
  {
    seq(|ps|, i requires 0 <= i < |ps| => [k] + ps[i])
  }

  lemma PrefixedBefore(k: nat, p: seq<nat>, q: seq<nat>)
    requires PathBefore(p, q)
    ensures PathBefore([k] + p, [k] + q)
  {
    var n: nat :| ForksAt(p, q, n);
    assert ([k] + p)[..n + 1] == [k] + p[..n] && ([k] + q)[..n + 1] == [k] + q[..n];
    assert ForksAt([k] + p, [k] + q, n + 1);
  }

  lemma PrefixedPath(t: Tree, k: nat, p: seq<nat>)
    requires k < |t.kids|
    ensures PathIn(t, [k] + p) <==> PathIn(t.kids[k], p)
    ensures PathIn(t, [k] + p) ==> NodeOn(t, [k] + p) == NodeOn(t.kids[k], p)
  {
    assert ([k] + p)[1..] == p;
  }

  /** The walk visits exactly the nodes on the paths of the tree, each at the depth of its path, in document order. */
  lemma {:induction false} VisitsAllPaths(mem: seq<Rec>, t: Tree, depth: int) returns (ps: seq<seq<nat>>)
    requires Holds(mem, t)
    ensures Follows(mem, t, depth, Preorder(mem, t, depth), ps) && InOrder(ps)
    ensures forall p :: p in ps <==> PathIn(t, p)
    decreases t, |t.kids| + 1
  {
    hide Holds, Follows, InOrder, PathIn;
    var qs := KidsOnPaths(mem, t, 0, depth);
    assert t.kids[0..] == t.kids;
    ps := [[]] + qs;
    RootFollows(mem, t, depth, qs);
    RootInOrder(qs);
    RootMembers(t, qs);
  }

  lemma RootFollows(mem: seq<Rec>, t: Tree, depth: int, qs: seq<seq<nat>>)
    requires Follows(mem, t, depth, PreorderAll(mem, t.kids, Below(mem, t.id, depth)), qs)
    ensures Follows(mem, t, depth, Preorder(mem, t, depth), [[]] + qs)
  {
    hide PreorderAll;
    var rest, v := PreorderAll(mem, t.kids, Below(mem, t.id, depth)), Preorder(mem, t, depth);
    assert v == [Visit(t.id, depth)] + rest;
    forall i | 0 <= i < |v|
      ensures var p := ([[]] + qs)[i]; PathIn(t, p) && v[i].id == NodeOn(t, p).id && v[i].depth == PathDepth(mem, t, depth, p)
    {
      if i > 0 {
        assert v[i] == rest[i - 1] && ([[]] + qs)[i] == qs[i - 1];
      }
    }
  }

  lemma RootInOrder(qs: seq<seq<nat>>)
    requires InOrder(qs) && forall i :: 0 <= i < |qs| ==> qs[i] != []
    ensures InOrder([[]] + qs)
  {
    var ps: seq<seq<nat>> := [[]] + qs;
    forall i, j | 0 <= i < j < |ps| ensures PathBefore(ps[i], ps[j]) {
      if i == 0 {
        assert ForksAt([], ps[j], 0);
      } else {
        assert PathBefore(qs[i - 1], qs[j - 1]);
      }
    }
  }

  lemma RootMembers(t: Tree, qs: seq<seq<nat>>)
    requires forall p :: p in qs <==> p != [] && p[0] >= 0 && PathIn(t, p)
    ensures forall p :: p in [[]] + qs <==> PathIn(t, p)
  {
  }

  /** The same for the children from n on. */
  lemma {:induction false} KidsOnPaths(mem: seq<Rec>, t: Tree, n: nat, depth: int) returns (qs: seq<seq<nat>>)
    requires Holds(mem, t) && n <= |t.kids|
    ensures Follows(mem, t, depth, PreorderAll(mem, t.kids[n..], Below(mem, t.id, depth)), qs) && InOrder(qs)
    ensures forall i :: 0 <= i < |qs| ==> qs[i] != [] && qs[i][0] >= n
    ensures forall p :: p in qs <==> p != [] && p[0] >= n && PathIn(t, p)
    decreases t, |t.kids| - n
  {
    if n == |t.kids| {
      qs := [];
    } else {
      var below, kid := Below(mem, t.id, depth), t.kids[n];
      var first := VisitsAllPaths(mem, kid, below);
      var rest := KidsOnPaths(mem, t, n + 1, depth);
      assert t.kids[n..][1..] == t.kids[n + 1..];
      qs := Prefixed(n, first) + rest;
      KidFollows(mem, t, n, depth, first);
      KidInOrder(n, first, rest);
      forall p ensures p in qs <==> p != [] && p[0] >= n && PathIn(t, p) {
        KidMembers(t, n, first, rest, p);
      }
    }
  }

  lemma KidFollows(mem: seq<Rec>, t: Tree, n: nat, depth: int, first: seq<seq<nat>>)
    requires Holds(mem, t) && n < |t.kids|
    requires var below := Below(mem, t.id, depth); Follows(mem, t.kids[n], below, Preorder(mem, t.kids[n], below), first)
    ensures Follows(mem, t, depth, Preorder(mem, t.kids[n], Below(mem, t.id, depth)), Prefixed(n, first))
  {
    hide Preorder;
    forall i | 0 <= i < |first| ensures PathIn(t, [n] + first[i]) && NodeOn(t, [n] + first[i]) == NodeOn(t.kids[n], first[i]) {
      PrefixedPath(t, n, first[i]);
    }
  }

  lemma KidInOrder(n: nat, first: seq<seq<nat>>, rest: seq<seq<nat>>)
    requires InOrder(first) && InOrder(rest) && forall i :: 0 <= i < |rest| ==> rest[i] != [] && rest[i][0] > n
    ensures InOrder(Prefixed(n, first) + rest)
  {
    var ps, qs := Prefixed(n, first), Prefixed(n, first) + rest;
    forall i, j | 0 <= i < j < |qs| ensures PathBefore(qs[i], qs[j]) {
      if j < |ps| {
        PrefixedBefore(n, first[i], first[j]);
      } else if i < |ps| {
        assert ForksAt(qs[i], qs[j], 0);
      } else {
        assert PathBefore(rest[i - |ps|], rest[j - |ps|]);
      }
    }
  }

  lemma KidMembers(t: Tree, n: nat, first: seq<seq<nat>>, rest: seq<seq<nat>>, p: seq<nat>)
    requires n < |t.kids| && (forall p :: p in first <==> PathIn(t.kids[n], p))
    requires forall p :: p in rest <==> p != [] && p[0] >= n + 1 && PathIn(t, p)
    ensures p in Prefixed(n, first) + rest <==> p != [] && p[0] >= n && PathIn(t, p)
  {
    if p != [] && p[0] == n {
      assert p == [n] + p[1..];
      PrefixedPath(t, n, p[1..]);
      if p[1..] in first {
        var i :| 0 <= i < |first| && first[i] == p[1..];
        assert Prefixed(n, first)[i] == p;
      }
      if i :| 0 <= i < |first| && Prefixed(n, first)[i] == p {
        assert first[i] == p[1..];
      }
    }
  }
}
