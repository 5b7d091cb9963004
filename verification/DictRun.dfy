/** Interning over whole runs of lookups on a dictionary and its sub-dictionary. */
module DictRun {
  import opened Common
  import opened Octets
  import opened Dict

  /** One call of xmlDictLookup, on the sub-dictionary or on the dictionary above it. */
  datatype Call = Call(onSub: bool, name: seq<byte>)

  /** The string a pointer denotes, for a known length. */
  ghost function TextAt(p: Ptr, len: nat): seq<byte>
    reads p.pool.data
    requires p.offset + len <= p.pool.data.Length
  {
    p.pool.data[p.offset..p.offset + len]
  }

  /** A dictionary stacked on a sub-dictionary that has none itself. */
  ghost predicate Stacked(d: Dictionary, sub: Dictionary)
    reads d, d.table, d.Storage, sub, sub.table, sub.Storage
  {
    d.subdict == sub && sub.subdict == null && d.ValidOwn() && d.SizeOk() && sub.ValidOwn() && sub.SizeOk()
    && d.Repr() !! sub.Repr() && d.seed == sub.seed
  }

  /** What the lookups made so far on one of the two still stand for. */
  ghost predicate Answered(view: map<seq<byte>, Id>, name: seq<byte>, r: Option<Ptr>)
  {
    r.Some? ==> name in view && view[name] == Id(r.value, |name|)
  }

  ghost predicate AllAnswered(calls: seq<Call>, results: seq<Option<Ptr>>, view: map<seq<byte>, Id>, subView: map<seq<byte>, Id>)
    requires |results| <= |calls|
  {
    forall i :: 0 <= i < |results| ==> Answered(if calls[i].onSub then subView else view, calls[i].name, results[i])
  }

  /** The names the dictionary and its sub-dictionary hold themselves. */
  datatype Names = Names(own: set<seq<byte>>, below: set<seq<byte>>)

  /** A name that is answered is held where it was asked for, unless the dictionary found it in the sub-dictionary. */
  function Heard(names: Names, call: Call, r: Option<Ptr>): Names
  {
    if r.None? then names
    else if call.onSub then names.(below := names.below + {call.name})
    else if call.name in names.below then names
    else names.(own := names.own + {call.name})
  }

  function HeardAll(names: Names, calls: seq<Call>, results: seq<Option<Ptr>>): Names
    requires |results| <= |calls|
  {
    if results == [] then names
    else
      var k := |results| - 1;
      Heard(HeardAll(names, calls, results[..k]), calls[k], results[k])
  }

  predicate Known(names: Names, call: Call)
  {
    call.name in names.below || (!call.onSub && call.name in names.own)
  }

  /** The lengths for which a dictionary has no room. */
  ghost function FullFor(d: Dictionary): iset<nat>
    reads d, d.strings
  {
    iset n: nat | d.Full(n)
  }

  /** A name is refused because of its length, or because it is new and there is no room. */
  ghost predicate Explained(calls: seq<Call>, results: seq<Option<Ptr>>, i: nat, names: Names, limit: nat, full: iset<nat>)
    requires i < |results| <= |calls|
  {
    var n := |calls[i].name|;
    && ((limit > 0 && n >= limit) || n > INT_MAX / 2 ==> results[i].None?)
    && (results[i].None? ==>
          (limit > 0 && n >= limit) || n > INT_MAX / 2 || (!Known(HeardAll(names, calls, results[..i]), calls[i]) && n in full))
  }

  ghost predicate AllExplained(calls: seq<Call>, results: seq<Option<Ptr>>, names: Names, limits: (nat, nat), full: (iset<nat>, iset<nat>))
    requires |results| <= |calls|
  {
    forall i :: 0 <= i < |results| ==>
      if calls[i].onSub then Explained(calls, results, i, names, limits.1, full.1)
      else Explained(calls, results, i, names, limits.0, full.0)
  }

  lemma OneMoreExplained(calls: seq<Call>, results: seq<Option<Ptr>>, r: Option<Ptr>, names: Names, limits: (nat, nat),
                         before: (iset<nat>, iset<nat>), full: (iset<nat>, iset<nat>))
    requires |results| < |calls| && AllExplained(calls, results, names, limits, before)
    requires before.0 <= full.0 && before.1 <= full.1
    requires var call := calls[|results|];
      var n, limit, room := |call.name|, if call.onSub then limits.1 else limits.0, if call.onSub then before.1 else before.0;
      r.None? <==> (limit > 0 && n >= limit) || n > INT_MAX / 2 || (!Known(HeardAll(names, calls, results), call) && n in room)
    ensures AllExplained(calls, results + [r], names, limits, full)
  {
    var k := |results|;
    assert (results + [r])[..k] == results;
    forall i | 0 <= i <= k
      ensures if calls[i].onSub then Explained(calls, results + [r], i, names, limits.1, full.1)
              else Explained(calls, results + [r], i, names, limits.0, full.0)
    {
      if i < k {
        assert (results + [r])[..i] == results[..i];
      }
    }
  }

  /** What was heard stays heard. */
  lemma {:induction false} HeardStays(names: Names, calls: seq<Call>, results: seq<Option<Ptr>>, i: nat)
    requires i <= |results| <= |calls|
    ensures var a, b := HeardAll(names, calls, results[..i]), HeardAll(names, calls, results);
      a.own <= b.own && a.below <= b.below
    decreases |results| - i
  {
    if i == |results| {
      assert results[..i] == results;
    } else {
      assert results[..i + 1][..i] == results[..i];
      HeardStays(names, calls, results, i + 1);
    }
  }

  /** A name that was answered is answered again. */
  lemma AnsweredAgain(calls: seq<Call>, results: seq<Option<Ptr>>, names: Names, limits: (nat, nat), full: (iset<nat>, iset<nat>),
                      i: nat, j: nat)
    requires |results| <= |calls| && AllExplained(calls, results, names, limits, full) && i < j < |results|
    requires calls[i].name == calls[j].name && calls[i].onSub == calls[j].onSub && results[i].Some?
    ensures results[j].Some?
  {
    assert results[..j][..i + 1] == results[..i + 1] && results[..i + 1][..i] == results[..i];
    HeardStays(names, calls, results[..j], i + 1);
  }

  ghost function NamesOf(d: Dictionary, sub: Dictionary): Names
    reads d, sub
  {
    Names(d.interned.Keys, sub.interned.Keys)
  }

  ghost predicate Extends(m: map<seq<byte>, Id>, n: map<seq<byte>, Id>)
  {
    forall s :: s in m ==> s in n && n[s] == m[s]
  }

  lemma AnswersStay(calls: seq<Call>, results: seq<Option<Ptr>>, v: map<seq<byte>, Id>, w: map<seq<byte>, Id>,
                    v': map<seq<byte>, Id>, w': map<seq<byte>, Id>)
    requires |results| <= |calls| && AllAnswered(calls, results, v, w) && Extends(v, v') && Extends(w, w')
    ensures AllAnswered(calls, results, v', w')
  {
  }

  /** A name and a string at different places are told apart by the pointer alone, and the pointer shows the name. */
  lemma ViewIsFaithful(d: Dictionary, sub: Dictionary, s: seq<byte>, t: seq<byte>)
    requires Stacked(d, sub) && s in d.View() && t in d.View()
    ensures d.View()[s].name == d.View()[t].name <==> s == t
    ensures var id := d.View()[s];
      id.len == |s| && id.name.offset + |s| <= id.name.pool.data.Length && TextAt(id.name, |s|) == s
  {
    hide Ids;
    if s in d.interned { OwnString(d, s); } else { OwnString(sub, s); }
    if t in d.interned { OwnString(d, t); } else { OwnString(sub, t); }
    if (s in d.interned) == (t in d.interned) {
      var holder := if s in d.interned then d else sub;
      SamePointer(holder, s, t);
    }
  }

  lemma OwnString(d: Dictionary, s: seq<byte>)
    requires d.ValidOwn() && s in d.interned
    ensures var id := d.interned[s];
      id.len == |s| && id.name.pool in d.Storage && id.name.offset + |s| <= id.name.pool.data.Length
      && TextAt(id.name, |s|) == s
  {
    hide Ids;
    assert d.Stored(d.interned[s]);
  }

  lemma SamePointer(d: Dictionary, s: seq<byte>, t: seq<byte>)
    requires d.ValidOwn() && s in d.interned && t in d.interned
    ensures d.interned[s].name == d.interned[t].name <==> s == t
  {
    hide Ids;
  }

  lemma SubIsFaithful(sub: Dictionary, s: seq<byte>, t: seq<byte>)
    requires sub.ValidOwn() && s in sub.interned && t in sub.interned
    ensures sub.interned[s].name == sub.interned[t].name <==> s == t
    ensures var id := sub.interned[s];
      id.len == |s| && id.name.offset + |s| <= id.name.pool.data.Length && TextAt(id.name, |s|) == s
  {
    SamePointer(sub, s, t);
    OwnString(sub, s);
  }

  /** The dictionary and its sub-dictionary show the same pointer for a name that only the latter holds, and never for
      different names. */
  lemma AcrossIsFaithful(d: Dictionary, sub: Dictionary, s: seq<byte>, t: seq<byte>)
    requires Stacked(d, sub) && s in d.View() && t in sub.interned
    ensures d.View()[s].name == sub.interned[t].name <==> s == t && s !in d.interned
  {
    hide Ids;
    OwnString(sub, t);
    if s in d.interned {
      OwnString(d, s);
    } else {
      SamePointer(sub, s, t);
    }
  }

  /** One call; the answers given before are not disturbed by it. */
  method Step(d: Dictionary, sub: Dictionary, call: Call) returns (r: Option<Ptr>)
    requires Stacked(d, sub) && call.name != []
    modifies d.Repr(), sub.Repr()
    ensures Stacked(d, sub) && fresh(d.Repr() - old(d.Repr())) && fresh(sub.Repr() - old(sub.Repr()))
    ensures Extends(old(d.View()), d.View()) && Extends(old(sub.interned), sub.interned)
    ensures Answered(if call.onSub then sub.interned else d.View(), call.name, r)
    ensures NamesOf(d, sub) == Heard(old(NamesOf(d, sub)), call, r)
    ensures var n, limit := |call.name|, if call.onSub then sub.limit else d.limit;
      r.None? <==> (limit > 0 && n >= limit) || n > INT_MAX / 2
                   || (!Known(old(NamesOf(d, sub)), call) && n in if call.onSub then old(FullFor(sub)) else old(FullFor(d)))
    ensures old(FullFor(d)) <= FullFor(d) && old(FullFor(sub)) <= FullFor(sub)
  {
    hide Dictionary.ValidOwn, FullFor;
    if call.onSub {
      r := StepOnSub(d, sub, call.name);
    } else {
      r := StepOnTop(d, sub, call.name);
    }
  }

  method StepOnTop(d: Dictionary, sub: Dictionary, name: seq<byte>) returns (r: Option<Ptr>)
    requires Stacked(d, sub) && name != []
    modifies d.Repr(), sub.Repr()
    ensures Stacked(d, sub) && fresh(d.Repr() - old(d.Repr())) && fresh(sub.Repr() - old(sub.Repr()))
    ensures Extends(old(d.View()), d.View()) && Extends(old(sub.interned), sub.interned)
    ensures Answered(d.View(), name, r) && NamesOf(d, sub) == Heard(old(NamesOf(d, sub)), Call(false, name), r)
    ensures r.None? <==> (d.limit > 0 && |name| >= d.limit) || |name| > INT_MAX / 2
                         || (!Known(old(NamesOf(d, sub)), Call(false, name)) && |name| in old(FullFor(d)))
    ensures old(FullFor(d)) <= FullFor(d) && old(FullFor(sub)) <= FullFor(sub)
  {
    hide Ids, Dictionary.IdsOk, Dictionary.PoolsOk, Dictionary.Keyed;
    assert name[..|name|] == name;
    d.ViewCovers();
    sub.ViewCovers();
    d.PoolsAreStorage();
    sub.PoolsAreStorage();
    ghost var added: set<object>;
    r, added := d.Lookup(name, |name|);
  }

  method StepOnSub(d: Dictionary, sub: Dictionary, name: seq<byte>) returns (r: Option<Ptr>)
    requires Stacked(d, sub) && name != []
    modifies d.Repr(), sub.Repr()
    ensures Stacked(d, sub) && fresh(d.Repr() - old(d.Repr())) && fresh(sub.Repr() - old(sub.Repr()))
    ensures Extends(old(d.View()), d.View()) && Extends(old(sub.interned), sub.interned)
    ensures Answered(sub.interned, name, r) && NamesOf(d, sub) == Heard(old(NamesOf(d, sub)), Call(true, name), r)
    ensures r.None? <==> (sub.limit > 0 && |name| >= sub.limit) || |name| > INT_MAX / 2
                         || (!Known(old(NamesOf(d, sub)), Call(true, name)) && |name| in old(FullFor(sub)))
    ensures old(FullFor(d)) <= FullFor(d) && old(FullFor(sub)) <= FullFor(sub)
  {
    hide Ids, Dictionary.IdsOk, Dictionary.PoolsOk, Dictionary.Keyed;
    assert name[..|name|] == name;
    d.ViewCovers();
    sub.ViewCovers();
    d.PoolsAreStorage();
    sub.PoolsAreStorage();
    ghost var added: set<object>;
    r, added := sub.Lookup(name, |name|);
  }

  /** Any run of lookups of non-empty names, in any mixture: on either dictionary equal names get the same pointer
      and different names different pointers, and at the end every pointer handed out still shows its name. Between the
      two, the pointers agree exactly for the equal names that the dictionary does not hold itself. A name is refused
      only for its length, or because it was not known and its dictionary is full; a name that was answered once is
      answered again. */
  method Run(d: Dictionary, sub: Dictionary, calls: seq<Call>) returns (results: seq<Option<Ptr>>)
    requires Stacked(d, sub) && forall i :: 0 <= i < |calls| ==> calls[i].name != []
    modifies d.Repr(), sub.Repr()
    ensures Stacked(d, sub) && |results| == |calls|
    ensures forall i, j :: 0 <= i < |calls| && 0 <= j < |calls| && calls[i].onSub == calls[j].onSub
                           && results[i].Some? && results[j].Some? ==>
                           (results[i] == results[j] <==> calls[i].name == calls[j].name)
    ensures forall i, j :: 0 <= i < |calls| && 0 <= j < |calls| && !calls[i].onSub && calls[j].onSub
                           && results[i].Some? && results[j].Some? ==>
                           (results[i] == results[j] <==> calls[i].name == calls[j].name && calls[i].name !in HeardAll(old(NamesOf(d, sub)), calls, results).own)
    ensures forall i :: 0 <= i < |calls| && results[i].Some? ==>
                        var p, n := results[i].value, |calls[i].name|;
                        p.offset + n <= p.pool.data.Length && TextAt(p, n) == calls[i].name
    ensures forall i :: 0 <= i < |calls| ==>
                        var e, n := if calls[i].onSub then sub else d, |calls[i].name|;
                        && ((e.limit > 0 && n >= e.limit) || n > INT_MAX / 2 ==> results[i].None?)
                        && (results[i].None? ==>
                              (e.limit > 0 && n >= e.limit) || n > INT_MAX / 2
                              || (!Known(HeardAll(old(NamesOf(d, sub)), calls, results[..i]), calls[i]) && e.Full(n)))
    ensures forall i, j :: 0 <= i < j < |calls| && calls[i] == calls[j] && results[i].Some? ==> results[j].Some?
  {
    hide Dictionary.ValidOwn, Dictionary.Full, FullFor, AllExplained;
    results := [];
    var k := 0;
    ghost var limits := (d.limit, sub.limit);
    NoneYet(calls, NamesOf(d, sub), limits, (FullFor(d), FullFor(sub)));
    while k < |calls|
      invariant 0 <= k <= |calls| && |results| == k
      invariant Stacked(d, sub) && fresh(d.Repr() - old(d.Repr())) && fresh(sub.Repr() - old(sub.Repr()))
      invariant AllAnswered(calls, results, d.View(), sub.interned)
      invariant NamesOf(d, sub) == HeardAll(old(NamesOf(d, sub)), calls, results)
      invariant AllExplained(calls, results, old(NamesOf(d, sub)), limits, (FullFor(d), FullFor(sub)))
    {
      ghost var v, w, full := d.View(), sub.interned, (FullFor(d), FullFor(sub));
      var r := Step(d, sub, calls[k]);
      AnswersStay(calls, results, v, w, d.View(), sub.interned);
      OneMoreExplained(calls, results, r, old(NamesOf(d, sub)), limits, full, (FullFor(d), FullFor(sub)));
      assert (results + [r])[..k] == results;
      results := results + [r];
      k := k + 1;
    }
    AnswersAreFaithful(d, sub, calls, results);
    AllAreExplained(d, sub, calls, results, old(NamesOf(d, sub)));
  }

  lemma NoneYet(calls: seq<Call>, names: Names, limits: (nat, nat), full: (iset<nat>, iset<nat>))
    ensures AllExplained(calls, [], names, limits, full)
  {}

  lemma AllAreExplained(d: Dictionary, sub: Dictionary, calls: seq<Call>, results: seq<Option<Ptr>>, names: Names)
    requires |results| == |calls| && AllExplained(calls, results, names, (d.limit, sub.limit), (FullFor(d), FullFor(sub)))
    ensures forall i :: 0 <= i < |calls| ==>
                        var e, n := if calls[i].onSub then sub else d, |calls[i].name|;
                        && ((e.limit > 0 && n >= e.limit) || n > INT_MAX / 2 ==> results[i].None?)
                        && (results[i].None? ==>
                              (e.limit > 0 && n >= e.limit) || n > INT_MAX / 2
                              || (!Known(HeardAll(names, calls, results[..i]), calls[i]) && e.Full(n)))
    ensures forall i, j :: 0 <= i < j < |calls| && calls[i] == calls[j] && results[i].Some? ==> results[j].Some?
  {
    hide Dictionary.Full;
    forall i, j | 0 <= i < j < |calls| && calls[i] == calls[j] && results[i].Some?
      ensures results[j].Some?
    {
      AnsweredAgain(calls, results, names, (d.limit, sub.limit), (FullFor(d), FullFor(sub)), i, j);
    }
  }

  lemma AnswersAreFaithful(d: Dictionary, sub: Dictionary, calls: seq<Call>, results: seq<Option<Ptr>>)
    requires Stacked(d, sub) && |results| == |calls| && AllAnswered(calls, results, d.View(), sub.interned)
    ensures forall i, j :: 0 <= i < |calls| && 0 <= j < |calls| && calls[i].onSub == calls[j].onSub
                           && results[i].Some? && results[j].Some? ==>
                           (results[i] == results[j] <==> calls[i].name == calls[j].name)
    ensures forall i, j :: 0 <= i < |calls| && 0 <= j < |calls| && !calls[i].onSub && calls[j].onSub
                           && results[i].Some? && results[j].Some? ==>
                           (results[i] == results[j] <==> calls[i].name == calls[j].name && calls[i].name !in d.interned)
    ensures forall i :: 0 <= i < |calls| && results[i].Some? ==>
                        var p, n := results[i].value, |calls[i].name|;
                        p.offset + n <= p.pool.data.Length && TextAt(p, n) == calls[i].name
  {
    hide Dictionary.ValidOwn, Dictionary.View;
    forall i, j | 0 <= i < |calls| && 0 <= j < |calls| && calls[i].onSub == calls[j].onSub
                  && results[i].Some? && results[j].Some?
      ensures results[i] == results[j] <==> calls[i].name == calls[j].name
    {
      if calls[i].onSub {
        SubIsFaithful(sub, calls[i].name, calls[j].name);
      } else {
        ViewIsFaithful(d, sub, calls[i].name, calls[j].name);
      }
    }
    forall i, j | 0 <= i < |calls| && 0 <= j < |calls| && !calls[i].onSub && calls[j].onSub
                  && results[i].Some? && results[j].Some?
      ensures results[i] == results[j] <==> calls[i].name == calls[j].name && calls[i].name !in d.interned
    {
      AcrossIsFaithful(d, sub, calls[i].name, calls[j].name);
    }
    forall i | 0 <= i < |calls| && results[i].Some?
      ensures var p, n := results[i].value, |calls[i].name|;
        p.offset + n <= p.pool.data.Length && TextAt(p, n) == calls[i].name
    {
      if calls[i].onSub {
        SubIsFaithful(sub, calls[i].name, calls[i].name);
      } else {
        ViewIsFaithful(d, sub, calls[i].name, calls[i].name);
      }
    }
  }
}
