/** What the operations of a buffer do to its bytes, position by position, and the buffer as a queue. */
module BufLaws {
  import opened Octets
  import opened Buf

  /** Before and after hold what an operation moves, byte by byte; `full` when a bounded buffer refused it. */
  ghost predicate Moves(before: State, op: Op, full: bool, after: State)
  {
    var b, a := before.bytes, after.bytes;
    if before.failed || full then after == State(b, true)
    else
      && !after.failed
      && match op
         case Append(s) =>
           |a| == |b| + |s| && (forall i :: 0 <= i < |b| ==> a[i] == b[i]) && forall j :: 0 <= j < |s| ==> a[|b| + j] == s[j]
         case AppendString(s) =>
           && |b| <= |a| <= |b| + |s| && (forall i :: 0 <= i < |b| ==> a[i] == b[i])
           && (forall j :: 0 <= j < |a| - |b| ==> a[|b| + j] == s[j] && s[j] != 0)
           && (|a| < |b| + |s| ==> s[|a| - |b|] == 0)
         case Prepend(s) =>
           |a| == |s| + |b| && (forall j :: 0 <= j < |s| ==> a[j] == s[j]) && forall i :: 0 <= i < |b| ==> a[|s| + i] == b[i]
         case DropFront(n) =>
           if n > |b| then a == b else |a| == |b| - n && forall i :: 0 <= i < |a| ==> a[i] == b[n + i]
         case DropBack(n) =>
           if n > |b| then a == b else |a| == |b| - n && forall i :: 0 <= i < |a| ==> a[i] == b[i]
         case Clear => a == []
         case _ => a == b
  }

  lemma StepMoves(st: State, op: Op, full: bool)
    ensures Moves(st, op, full, Step(st, op, full))
  {
    if op.AppendString? {
      StringEnds(op.s);
    }
  }

  lemma {:induction false} StringEnds(s: seq<byte>)
    ensures Strlen(s) <= |s| && (forall j :: 0 <= j < Strlen(s) ==> s[j] != 0) && (Strlen(s) < |s| ==> s[Strlen(s)] == 0)
  {
    if s != [] && s[0] != 0 {
      StringEnds(s[1..]);
    }
  }

  // ---------- a queue ----------

  predicate QueueOps(ops: seq<Op>)
  {
    forall i :: 0 <= i < |ops| ==> ops[i].Append? || ops[i].DropFront?
  }

  /** Everything that was put in, the bytes of the beginning included. */
  function Stream(b: seq<byte>, ops: seq<Op>): seq<byte>
  {
    if ops == [] then b
    else
      var op := ops[|ops| - 1];
      Stream(b, ops[..|ops| - 1]) + if op.Append? then op.s else []
  }

  /** How many bytes were taken out: a request for more than there are takes none. */
  function TakenOut(b: seq<byte>, ops: seq<Op>): (t: nat)
    ensures t <= |Stream(b, ops)|
  {
    if ops == [] then 0
    else
      var front, op := ops[..|ops| - 1], ops[|ops| - 1];
      var t := TakenOut(b, front);
      if op.DropFront? && op.n <= |Stream(b, front)| - t then t + op.n else t
  }

  /** Bytes leave in the order in which they came: what is held is the stream without the bytes taken out. */
  lemma {:induction false} FirstInFirstOut(b: seq<byte>, ops: seq<Op>, full: seq<bool>)
    requires QueueOps(ops) && |full| == |ops| && forall i :: 0 <= i < |ops| ==> !full[i]
    ensures Steps(State(b, false), ops, full) == State(Stream(b, ops)[TakenOut(b, ops)..], false)
  {
    if ops != [] {
      var front, op := ops[..|ops| - 1], ops[|ops| - 1];
      FirstInFirstOut(b, front, full[..|ops| - 1]);
      QueueStep(Stream(b, front), TakenOut(b, front), op);
    }
  }

  lemma QueueStep(stream: seq<byte>, t: nat, op: Op)
    requires t <= |stream| && (op.Append? || op.DropFront?)
    ensures Step(State(stream[t..], false), op, false)
            == if op.Append? then State((stream + op.s)[t..], false)
               else State(stream[if op.n <= |stream| - t then t + op.n else t..], false)
  {
  }

  // ---------- the sizes ----------

  function Pow2(k: nat): nat
  {
    if k == 0 then 1 else 2 * Pow2(k - 1)
  }

  /** Doubling stops at the first of the sizes start, 2 * start, 4 * start, ... with room for the request. */
  lemma {:induction false} DoublingStops(start: nat, request: nat) returns (k: nat)
    requires start > 0
    ensures DoubledTo(start, request) == start * Pow2(k) >= request
    ensures k > 0 ==> start * Pow2(k - 1) < request
    decreases request - start
  {
    if start >= request {
      k := 0;
    } else {
      var j := DoublingStops(2 * start, request);
      k := j + 1;
      Twice(start, Pow2(j));
      if j > 0 {
        Twice(start, Pow2(j - 1));
      }
    }
  }

  lemma Twice(a: nat, p: nat)
    ensures 2 * a * p == a * (2 * p)
  {
  }
}
