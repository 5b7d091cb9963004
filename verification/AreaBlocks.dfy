/** Mixed-radix counting: a list of blocks, each a number of equal copies of a unit with numbered slots.
    Both levels of the device numbering (cells within a building, buildings within a community) are of this form. */
module AreaBlocks {
  datatype Block = Block(count: int, size: int)

  /** A position: which block, which copy of its unit (from 0), which slot of the unit (from 1). */
  datatype Slot = Slot(block: nat, copy: int, offset: int)

  function Total(bs: seq<Block>): int
  {
    if bs == [] then 0
    else Total(bs[..|bs| - 1]) + bs[|bs| - 1].count * bs[|bs| - 1].size
  }

  ghost predicate Countable(bs: seq<Block>)
  {
    forall i :: 0 <= i < |bs| ==> 0 <= bs[i].count && 0 <= bs[i].size
  }

  ghost predicate HasSlot(bs: seq<Block>, s: Slot)
  {
    s.block < |bs| && 0 <= s.copy < bs[s.block].count && 1 <= s.offset <= bs[s.block].size
  }

  function Rank(bs: seq<Block>, s: Slot): int
    requires s.block < |bs|
  {
    Total(bs[..s.block]) + s.copy * bs[s.block].size + s.offset
  }

  function Unrank(bs: seq<Block>, n: int): (s: Slot)
    requires Countable(bs) && 1 <= n <= Total(bs)
    ensures HasSlot(bs, s)
  {
    var last := |bs| - 1;
    var before := Total(bs[..last]);
    if n <= before then Unrank(bs[..last], n)
    else
      var b := bs[last];
      var m := n - before - 1;
      DivisionBounds(m, b.size, b.count);
      Slot(last, m / b.size, m % b.size + 1)
  }

  lemma DivisionBounds(m: int, size: int, count: int)
    requires 0 <= m < count * size && 0 <= size && 0 <= count
    ensures 0 < size && 0 <= m / size < count && 0 <= m % size < size
  {
    assert size > 0;
    var q := m / size;
    assert m == q * size + m % size;
    if q >= count {
      ProductMonotone(count, q, size);
      assert false;
    }
  }

  lemma ProductMonotone(a: int, b: int, c: int)
    requires a <= b && 0 <= c
    ensures a * c <= b * c
  {
    assert 0 <= (b - a) * c;
  }

  lemma {:induction false} TotalSplit(bs: seq<Block>, i: nat)
    requires Countable(bs) && i < |bs|
    ensures 0 <= Total(bs[..i])
    ensures Total(bs[..i + 1]) == Total(bs[..i]) + bs[i].count * bs[i].size <= Total(bs)
    decreases |bs|
  {
    assert bs[..i + 1][..i] == bs[..i];
    if i == |bs| - 1 {
      assert bs[..i + 1] == bs;
      TotalNonNegative(bs[..i]);
    } else {
      var front := bs[..|bs| - 1];
      assert front[..i] == bs[..i] && front[..i + 1] == bs[..i + 1];
      TotalSplit(front, i);
      assert 0 <= bs[|bs| - 1].count * bs[|bs| - 1].size;
    }
  }

  lemma {:induction false} TotalNonNegative(bs: seq<Block>)
    requires Countable(bs)
    ensures 0 <= Total(bs)
  {
    if bs != [] {
      TotalNonNegative(bs[..|bs| - 1]);
      assert 0 <= bs[|bs| - 1].count * bs[|bs| - 1].size;
    }
  }

  /** Every slot gets a number in 1..Total, past all earlier blocks and within its own. */
  lemma RankInRange(bs: seq<Block>, s: Slot)
    requires Countable(bs) && HasSlot(bs, s)
    ensures Total(bs[..s.block]) < Rank(bs, s) <= Total(bs[..s.block + 1])
    ensures 1 <= Rank(bs, s) <= Total(bs)
  {
    hide Total;
    TotalSplit(bs, s.block);
    var b := bs[s.block];
    ProductMonotone(0, s.copy, b.size);
    ProductMonotone(s.copy + 1, b.count, b.size);
    assert (s.copy + 1) * b.size == s.copy * b.size + b.size;
  }

  /** Unrank undoes Rank ... */
  lemma {:induction false} UnrankRank(bs: seq<Block>, s: Slot)
    requires Countable(bs) && HasSlot(bs, s)
    ensures 1 <= Rank(bs, s) <= Total(bs)
    ensures Unrank(bs, Rank(bs, s)) == s
    decreases |bs|
  {
    RankInRange(bs, s);
    var last := |bs| - 1;
    if s.block == last {
      assert bs[..last + 1] == bs;
      var size := bs[last].size;
      var m := s.copy * size + (s.offset - 1);
      DivisionUnique(m, size, s.copy, s.offset - 1);
    } else {
      var front := bs[..last];
      assert front[..s.block] == bs[..s.block] && front[..s.block + 1] == bs[..s.block + 1];
      TotalSplit(front, s.block);
      UnrankRank(front, s);
      TotalSplit(bs, s.block);
    }
  }

  /** ... and Rank undoes Unrank, so the two are inverse bijections between slots and 1..Total. */
  lemma {:induction false} RankUnrank(bs: seq<Block>, n: int)
    requires Countable(bs) && 1 <= n <= Total(bs)
    ensures Rank(bs, Unrank(bs, n)) == n
    decreases |bs|
  {
    var last := |bs| - 1;
    var front := bs[..last];
    if n <= Total(front) {
      RankUnrank(front, n);
      var s := Unrank(front, n);
      assert front[..s.block] == bs[..s.block];
    } else {
      var m := n - Total(front) - 1;
      DivisionBounds(m, bs[last].size, bs[last].count);
      assert m == (m / bs[last].size) * bs[last].size + m % bs[last].size;
    }
  }

  lemma DivisionUnique(m: int, size: int, q: int, r: int)
    requires 0 < size && m == q * size + r && 0 <= r < size
    ensures m / size == q && m % size == r
  {
    var q' := m / size;
    assert m == q' * size + m % size;
    if q + 1 <= q' {
      ProductMonotone(q + 1, q', size);
      assert false;
    }
    if q' + 1 <= q {
      ProductMonotone(q' + 1, q, size);
      assert false;
    }
  }
}
