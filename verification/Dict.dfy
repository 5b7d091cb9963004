/** The string-interning dictionary of dict.c. */
module Dict {
  import opened Octets
  import opened Common
  import opened DictKeys

  const MAX_HASH_LEN := 3
  const MAX_DICT_HASH := 16384

  /** A block of string storage; `free` is the first unused byte. */
  class Pool {
    const size: nat
    const data: array<byte>
    var free: nat

    constructor (size: nat)
      ensures this.size == size && data.Length == size && free == 0 && fresh(data)
    {
      this.size := size;
      data := new byte[size];
      free := 0;
    }
  }

  /** The bytes that pools have taken, free or not. */
  function Sizes(pools: seq<Pool>): nat
  {
    if pools == [] then 0 else Sizes(pools[..|pools| - 1]) + pools[|pools| - 1].size
  }

  lemma {:induction false} SizesOfMore(p: Pool, pools: seq<Pool>)
    ensures Sizes([p] + pools) == p.size + Sizes(pools)
  {
    if pools == [] {
      assert Sizes([p]) == Sizes([p][..0]) + p.size;
      assert [p] + pools == [p];
    } else {
      var last := |pools| - 1;
      assert ([p] + pools)[..|pools|] == [p] + pools[..last];
      SizesOfMore(p, pools[..last]);
    }
  }

  /** The size of the largest pool. */
  function Largest(pools: seq<Pool>): (r: nat)
    ensures forall i :: 0 <= i < |pools| ==> pools[i].size <= r
    ensures pools != [] ==> exists i :: 0 <= i < |pools| && pools[i].size == r
    ensures pools == [] ==> r == 0
  {
    if pools == [] then 0
    else
      var p, r := pools[|pools| - 1], Largest(pools[..|pools| - 1]);
      if p.size > r then p.size else r
  }

  /** A pointer into string storage. */
  datatype Ptr = Ptr(pool: Pool, offset: nat)

  /** A table entry. A bucket is the inline head entry followed by its chain, as a sequence. */
  datatype Entry = Entry(name: Ptr, len: nat, okey: nat)

  /** The part of an entry that identifies the string: where it is and how long it is. */
  datatype Id = Id(name: Ptr, len: nat)

  type Table = seq<seq<Entry>>

  function IdOf(e: Entry): Id
  {
    Id(e.name, e.len)
  }

  // ---------- the entries of a table as a multiset ----------

  ghost function ChainIds(c: seq<Entry>): multiset<Id>
  {
    if c == [] then multiset{} else ChainIds(c[..|c| - 1]) + multiset{IdOf(c[|c| - 1])}
  }

  ghost function Ids(t: Table): multiset<Id>
  {
    if t == [] then multiset{} else Ids(t[..|t| - 1]) + ChainIds(t[|t| - 1])
  }

  lemma {:induction false} ChainAppend(a: seq<Entry>, b: seq<Entry>)
    ensures ChainIds(a + b) == ChainIds(a) + ChainIds(b)
  {
    if b == [] {
      assert a + b == a;
    } else {
      var last := |b| - 1;
      assert (a + b)[..|a + b| - 1] == a + b[..last];
      ChainAppend(a, b[..last]);
    }
  }

  lemma {:induction false} ChainMember(c: seq<Entry>, j: nat)
    requires j < |c|
    ensures IdOf(c[j]) in ChainIds(c)
  {
    if j < |c| - 1 {
      ChainMember(c[..|c| - 1], j);
    }
  }

  lemma {:induction false} ChainFind(c: seq<Entry>, id: Id) returns (j: nat)
    requires id in ChainIds(c)
    ensures j < |c| && IdOf(c[j]) == id
  {
    if IdOf(c[|c| - 1]) == id {
      j := |c| - 1;
    } else {
      j := ChainFind(c[..|c| - 1], id);
    }
  }

  lemma {:induction false} TableMember(t: Table, k: nat, j: nat)
    requires k < |t| && j < |t[k]|
    ensures IdOf(t[k][j]) in Ids(t)
  {
    if k < |t| - 1 {
      TableMember(t[..|t| - 1], k, j);
    } else {
      ChainMember(t[k], j);
    }
  }

  lemma {:induction false} TableFind(t: Table, id: Id) returns (k: nat, j: nat)
    requires id in Ids(t)
    ensures k < |t| && j < |t[k]| && IdOf(t[k][j]) == id
  {
    var last := |t| - 1;
    if id in ChainIds(t[last]) {
      k := last;
      j := ChainFind(t[last], id);
    } else {
      k, j := TableFind(t[..last], id);
    }
  }

  /** Replacing a bucket by one with one more entry adds that entry. */
  lemma {:induction false} TableUpdate(t: Table, k: nat, c: seq<Entry>, more: multiset<Id>)
    requires k < |t| && ChainIds(c) == ChainIds(t[k]) + more
    ensures Ids(t[k := c]) == Ids(t) + more
  {
    var last := |t| - 1;
    var t' := t[k := c];
    if k == last {
      assert t'[..last] == t[..last];
    } else {
      assert t'[..last] == t[..last][k := c];
      TableUpdate(t[..last], k, c, more);
    }
  }

  lemma TableAppend(t: Table, k: nat, e: Entry)
    requires k < |t|
    ensures Ids(t[k := t[k] + [e]]) == Ids(t) + multiset{IdOf(e)}
  {
    ChainAppend(t[k], [e]);
    assert ChainIds([e]) == ChainIds([]) + multiset{IdOf(e)};
    TableUpdate(t, k, t[k] + [e], multiset{IdOf(e)});
  }

  /** Putting an entry back during a rehash: into the empty head, or right behind the head. */
  function Placed(c: seq<Entry>, e: Entry): seq<Entry>
  {
    if c == [] then [e] else [c[0], e] + c[1..]
  }

  lemma TablePlace(t: Table, k: nat, e: Entry)
    requires k < |t|
    ensures Ids(t[k := Placed(t[k], e)]) == Ids(t) + multiset{IdOf(e)}
  {
    var c := t[k];
    if c == [] {
      assert Placed(c, e) == c + [e];
      TableAppend(t, k, e);
    } else {
      assert Placed(c, e) == ([c[0]] + [e]) + c[1..] && c == [c[0]] + c[1..];
      ChainAppend([c[0]] + [e], c[1..]);
      ChainAppend([c[0]], [e]);
      ChainAppend([c[0]], c[1..]);
      assert ChainIds([e]) == ChainIds([]) + multiset{IdOf(e)};
      TableUpdate(t, k, Placed(c, e), multiset{IdOf(e)});
    }
  }

  /** The head entries of the buckets, and the chained ones: what the two passes of a rehash move. */
  ghost function HeadIds(t: Table): multiset<Id>
  {
    if t == [] then multiset{}
    else HeadIds(t[..|t| - 1]) + (if t[|t| - 1] == [] then multiset{} else multiset{IdOf(t[|t| - 1][0])})
  }

  lemma HeadsStep(t: Table, i: nat)
    requires i < |t|
    ensures HeadIds(t[..i + 1]) == HeadIds(t[..i]) + (if t[i] == [] then multiset{} else multiset{IdOf(t[i][0])})
  {
    assert t[..i + 1][..i] == t[..i];
  }

  lemma NoHeads()
    ensures HeadIds([]) == multiset{}
  {}

  ghost function TailIds(t: Table): multiset<Id>
  {
    if t == [] then multiset{}
    else TailIds(t[..|t| - 1]) + ChainIds(Dictionary.Chained(t[|t| - 1]))
  }

  lemma ChainSplit(c: seq<Entry>)
    requires c != []
    ensures ChainIds(c) == multiset{IdOf(c[0])} + ChainIds(c[1..])
  {
    assert c == [c[0]] + c[1..];
    ChainAppend([c[0]], c[1..]);
    assert ChainIds([c[0]]) == ChainIds([]) + multiset{IdOf(c[0])};
  }

  lemma ChainSnoc(c: seq<Entry>, i: nat)
    requires i < |c|
    ensures ChainIds(c[..i + 1]) == ChainIds(c[..i]) + multiset{IdOf(c[i])}
  {
    assert c[..i + 1][..i] == c[..i];
  }

  lemma Regroup(a: multiset<Id>, x: multiset<Id>, b: multiset<Id>, y: multiset<Id>)
    ensures (a + x) + (b + y) == (a + b) + (x + y)
  {
  }

  lemma {:induction false} HeadsAndTails(t: Table)
    ensures HeadIds(t) + TailIds(t) == Ids(t)
  {
    hide ChainIds;
    if t != [] {
      var front, c := t[..|t| - 1], t[|t| - 1];
      HeadsAndTails(front);
      if c == [] {
        assert ChainIds(c) == multiset{} by {
          EmptyChain();
        }
      } else {
        ChainSplit(c);
        Regroup(HeadIds(front), multiset{IdOf(c[0])}, TailIds(front), ChainIds(c[1..]));
      }
    }
  }

  lemma EmptyChain()
    ensures ChainIds([]) == multiset{}
  {
  }

  lemma {:induction false} EmptyTable(t: Table)
    requires forall k :: 0 <= k < |t| ==> t[k] == []
    ensures Ids(t) == multiset{}
  {
    if t != [] {
      EmptyTable(t[..|t| - 1]);
    }
  }

  // ---------- the dictionary ----------

  class Dictionary {
    var table: array<seq<Entry>>
    var nbElems: nat
    var strings: seq<Pool>
    const subdict: Dictionary?
    const seed: bv32
    const limit: nat
    /** The pools and their arrays. */
    ghost var Storage: set<object>
    /** The non-empty strings held, and the entry of each. */
    ghost var interned: map<seq<byte>, Id>

    // ----- invariant -----

    ghost function Repr(): set<object>
      reads this
    {
      {this, table} + Storage
    }

    ghost predicate PoolsOk()
      reads this`strings, this`Storage, Storage
    {
      && (forall i :: 0 <= i < |strings| ==>
            strings[i] in Storage && strings[i].data in Storage && strings[i].free <= strings[i].data.Length == strings[i].size)
      && forall i, j :: 0 <= i < j < |strings| ==> strings[i] != strings[j] && strings[i].data != strings[j].data
    }

    /** A string lies in the used part of a pool and is zero-terminated. */
    ghost predicate Stored(id: Id)
      reads this`strings, this`Storage, Storage
    {
      var p := id.name.pool;
      p in strings && p in Storage && p.data in Storage && id.name.offset + id.len < p.free <= p.data.Length
      && p.data[id.name.offset + id.len] == 0
    }

    ghost function Bytes(id: Id): seq<byte>
      reads this`strings, this`Storage, Storage
      requires Stored(id)
    {
      id.name.pool.data[id.name.offset..id.name.offset + id.len]
    }

    ghost predicate IdsOk(ids: multiset<Id>, interned: map<seq<byte>, Id>)
      reads this`strings, this`Storage, Storage
    {
      && (forall id :: id in ids ==> Stored(id) && ids[id] == 1)
      && (forall id, id' :: id in ids && id' in ids && id.name == id'.name ==> id == id')
      && (forall id :: id in ids && id.len > 0 ==> Bytes(id) in interned && interned[Bytes(id)] == id)
      && forall s :: s in interned ==> interned[s] in ids && interned[s].len > 0 && Bytes(interned[s]) == s
    }

    /** An entry of bucket k: its string is stored, and its key is the one of the present table size. */
    ghost predicate EntryOk(e: Entry, size: nat, k: nat)
      reads this`strings, this`Storage, Storage
    {
      Stored(IdOf(e)) && size > 0 && e.okey % size == k
      && (e.len > 0 ==> e.okey == Key(size, Bytes(IdOf(e)), e.len, seed))
    }

    ghost predicate Keyed(t: Table, size: nat)
      reads this`strings, this`Storage, Storage
    {
      forall k, j :: 0 <= k < |t| && 0 <= j < |t[k]| ==> EntryOk(t[k][j], size, k)
    }

    ghost predicate ValidOwn()
      reads this, table, Storage
    {
      && table.Length > 0 && this !in Storage && table !in Storage
      && PoolsOk() && IdsOk(Ids(table[..]), interned) && Keyed(table[..], table.Length)
      && nbElems == |Ids(table[..])|
    }

    /** The sizes a table ever has. */
    ghost predicate SizeOk()
      reads this
    {
      table.Length == 128 || table.Length == 768 || table.Length == 4608
    }

    ghost predicate Valid()
      reads this, table, Storage, subdict, if subdict != null then subdict.Repr() else {}
    {
      ValidOwn() && SizeOk()
      && (subdict != null ==> subdict.ValidOwn() && subdict.SizeOk() && Repr() !! subdict.Repr() && seed == subdict.seed)
    }

    /** xmlDictCreate (sub == null) and xmlDictCreateSub; the seed of a sub-dictionary is inherited. */
    constructor (sub: Dictionary?, seed: bv32, limit: nat)
      requires sub != null ==> sub.ValidOwn() && sub.SizeOk()
      ensures Valid() && fresh(Repr()) && subdict == sub && this.limit == limit
      ensures interned == map[] && table.Length == MIN_DICT_SIZE && nbElems == 0
    {
      hide ValidOwn;
      table := new seq<Entry>[MIN_DICT_SIZE](_ => []);
      nbElems := 0;
      strings := [];
      subdict := sub;
      this.seed := if sub != null then sub.seed else seed;
      this.limit := limit;
      interned := map[];
      new;
      Storage := {};
      EmptyIsValid();
    }

    lemma EmptyIsValid()
      requires strings == [] && interned == map[] && Storage == {} && nbElems == 0 && table.Length == MIN_DICT_SIZE
      requires forall k :: 0 <= k < table.Length ==> table[k] == []
      ensures ValidOwn()
    {
      EmptyTable(table[..]);
      hide Ids, Key;
    }

    // ----- string storage -----

    /** A stored string survives writes above the old end of its pool. */
    twostate lemma StoredStays(id: Id)
      requires old(Stored(id))
      requires id.name.pool in strings && old(Storage) <= Storage && old(id.name.pool.free) <= id.name.pool.free <= id.name.pool.data.Length
      requires forall i :: 0 <= i < old(id.name.pool.free) ==> id.name.pool.data[i] == old(id.name.pool.data[i])
      ensures Stored(id) && Bytes(id) == old(Bytes(id))
    {
    }

    /** No pool has more than len bytes free, and the pools have taken more than the limit. */
    ghost predicate Full(len: nat)
      reads this`strings, strings
    {
      limit > 0 && Sizes(strings) > limit && forall i :: 0 <= i < |strings| ==> strings[i].size - strings[i].free <= len
    }

    /** xmlDictAddString: the first pool with room, else a new pool in front of the list. A dictionary that is full for
        some length stays so. */
    method AddString(name: seq<byte>) returns (ret: Option<Ptr>, ghost added: set<object>)
      requires PoolsOk()
      modifies this`strings, this`Storage, strings, set p | p in strings :: p.data
      ensures PoolsOk() && Storage == old(Storage) + added && fresh(added)
      ensures StorageKept()
      ensures ret.None? <==> old(Full(|name|))
      ensures forall n: nat :: old(Full(n)) ==> Full(n)
      ensures ret.Some? ==> Stored(Id(ret.value, |name|)) && Bytes(Id(ret.value, |name|)) == name
      ensures ret.Some? ==> ret.value.pool in old(strings) ==> ret.value.offset == old(ret.value.pool.free)
    {
      hide Stored, Bytes, Full, Sizes, Largest;
      var i, size, total := FindPool(|name|);
      ret, added := StoreAt(i, size, total, name);
    }

    /** What follows the search for room. */
    method StoreAt(i: nat, size: nat, total: nat, name: seq<byte>) returns (ret: Option<Ptr>, ghost added: set<object>)
      requires PoolsOk() && i <= |strings| && total == Sizes(strings[..i])
      requires i < |strings| ==> strings[i].size - strings[i].free > |name|
      requires forall j :: 0 <= j < i ==> strings[j].size - strings[j].free <= |name|
      modifies this`strings, this`Storage, strings, set p | p in strings :: p.data
      ensures PoolsOk() && Storage == old(Storage) + added && fresh(added)
      ensures StorageKept()
      ensures ret.None? <==> old(Full(|name|))
      ensures forall n: nat :: old(Full(n)) ==> Full(n)
      ensures ret.Some? ==> Stored(Id(ret.value, |name|)) && Bytes(Id(ret.value, |name|)) == name
      ensures ret.Some? ==> ret.value.pool in old(strings) ==> ret.value.offset == old(ret.value.pool.free)
      ensures i < |old(strings)| ==> ret.Some? && strings == old(strings) && ret.value.pool == strings[i]
      ensures i == |old(strings)| && ret.Some? ==> |strings| == i + 1 && strings[1..] == old(strings) && ret.value == Ptr(strings[0], 0)
    {
      hide Stored, Bytes, Sizes, Largest, StorageKept;
      added := {};
      FullMeans(|name|, i, total);
      if i == |strings| {
        if limit > 0 && total > limit {
          NothingStored();
          return None, {};
        }
        var p;
        p, added := StoreInNew(size, name);
        ret := Some(p);
      } else {
        var p := StoreInOld(strings[i], name);
        ret := Some(p);
      }
    }

    twostate lemma NothingStored()
      requires strings == old(strings) && forall p :: p in strings ==> p.free == old(p.free) && p.data[..] == old(p.data[..])
      ensures StorageKept()
    {
      forall p | p in old(strings) ensures forall i :: 0 <= i < old(p.free) && i < p.data.Length ==> p.data[i] == old(p.data[i]) {
        assert forall i :: 0 <= i < p.data.Length ==> p.data[i] == p.data[..][i] && old(p.data[i]) == old(p.data[..])[i];
      }
    }

    /** What a search for room has found out. */
    lemma FullMeans(len: nat, i: nat, total: nat)
      requires i <= |strings| && total == Sizes(strings[..i])
      requires i < |strings| ==> strings[i].size - strings[i].free > len
      requires forall j :: 0 <= j < i ==> strings[j].size - strings[j].free <= len
      ensures Full(len) <==> i == |strings| && limit > 0 && total > limit
      ensures i == |strings| && (limit == 0 || total <= limit) ==> !Full(0) && forall n: nat :: !Full(n)
    {
      assert i == |strings| ==> strings[..i] == strings;
    }

    method StoreInNew(largest: nat, name: seq<byte>) returns (p: Ptr, ghost added: set<object>)
      requires PoolsOk()
      modifies this`strings, this`Storage
      ensures PoolsOk() && Storage == old(Storage) + added && fresh(added)
      ensures StorageKept() && Stored(Id(p, |name|)) && Bytes(Id(p, |name|)) == name && p.pool !in old(strings)
      ensures |strings| == |old(strings)| + 1 && strings[1..] == old(strings) && p == Ptr(strings[0], 0)
      ensures var size := if largest == 0 then 1000 else 4 * largest;
              p.pool.size == if size < 4 * |name| then 4 * |name| else size
    {
      hide Stored, Bytes;
      NewPool(largest, |name|);
      added := {strings[0], strings[0].data};
      p := Store(strings[0], name);
      assert forall i :: 0 <= i < |old(strings)| ==> strings[i + 1] == old(strings)[i];
    }

    method StoreInOld(pool: Pool, name: seq<byte>) returns (p: Ptr)
      requires PoolsOk() && pool in strings && pool.size - pool.free > |name|
      modifies pool`free, pool.data
      ensures PoolsOk() && StorageKept() && Stored(Id(p, |name|)) && Bytes(Id(p, |name|)) == name
      ensures p.pool == pool && p.offset == old(pool.free)
      ensures forall n: nat :: old(Full(n)) ==> Full(n)
    {
      hide Stored, Bytes;
      p := Store(pool, name);
    }

    /** The first pool with room, the largest pool size seen before it and the sum of those sizes. */
    method FindPool(len: nat) returns (i: nat, size: nat, total: nat)
      ensures i <= |strings| && (i < |strings| ==> strings[i].size - strings[i].free > len)
      ensures forall j :: 0 <= j < i ==> strings[j].size - strings[j].free <= len
      ensures size == Largest(strings[..i]) && total == Sizes(strings[..i])
    {
      i, size, total := 0, 0, 0;
      while i < |strings| && !(strings[i].size - strings[i].free > len)
        invariant i <= |strings| && forall j :: 0 <= j < i ==> strings[j].size - strings[j].free <= len
        invariant size == Largest(strings[..i]) && total == Sizes(strings[..i])
      {
        assert strings[..i + 1][..i] == strings[..i];
        if strings[i].size > size {
          size := strings[i].size;
        }
        total := total + strings[i].size;
        i := i + 1;
      }
    }

    /** A new pool in front of the others, four times as large as the largest or as the string. */
    method NewPool(largest: nat, len: nat)
      requires PoolsOk()
      modifies this`strings, this`Storage
      ensures PoolsOk() && |strings| == |old(strings)| + 1 && strings[1..] == old(strings) && fresh(strings[0])
      ensures Storage == old(Storage) + {strings[0], strings[0].data} && fresh(strings[0].data)
      ensures strings[0].free == 0 && strings[0].size > len
      ensures var size := if largest == 0 then 1000 else 4 * largest; strings[0].size == if size < 4 * len then 4 * len else size
    {
      var size := largest;
      if size == 0 {
        size := 1000;
      } else {
        size := size * 4;
      }
      if size < 4 * len {
        size := 4 * len;
      }
      var pool := new Pool(size);
      strings := [pool] + strings;
      Storage := Storage + {pool, pool.data};
    }

    /** Copies the name and a terminating zero into the free part of a pool. */
    method Store(pool: Pool, name: seq<byte>) returns (p: Ptr)
      requires PoolsOk() && pool in strings && pool.free + |name| < pool.data.Length
      modifies pool`free, pool.data
      ensures PoolsOk() && p == Ptr(pool, old(pool.free)) && pool.free == old(pool.free) + |name| + 1
      ensures Stored(Id(p, |name|)) && Bytes(Id(p, |name|)) == name
      ensures forall i :: 0 <= i < p.offset ==> pool.data[i] == old(pool.data[i])
    {
      p := Ptr(pool, pool.free);
      forall i | 0 <= i < |name| {
        pool.data[pool.free + i] := name[i];
      }
      pool.free := pool.free + |name|;
      pool.data[pool.free] := 0;
      pool.free := pool.free + 1;
    }

    /** The pools grew: none went away, and what was used in them is as before. */
    twostate predicate StorageKept()
      reads this, strings, set p | p in strings :: p.data
    {
      && (forall p :: p in old(strings) ==> p in strings && old(p.free) <= p.free)
      && forall p :: p in old(strings) ==> forall i :: 0 <= i < old(p.free) && i < p.data.Length ==> p.data[i] == old(p.data[i])
    }

    twostate lemma StringsStay()
      requires old(ValidOwn()) && PoolsOk() && old(Storage) <= Storage && StorageKept()
      requires table == old(table) && table[..] == old(table[..])
      ensures forall k, j :: 0 <= k < table.Length && 0 <= j < |table[k]| ==>
                Stored(IdOf(table[k][j])) && Bytes(IdOf(table[k][j])) == old(Bytes(IdOf(table[k][j])))
    {
      hide Key, Ids, IdsOk;
      forall k, j | 0 <= k < table.Length && 0 <= j < |table[k]|
        ensures Stored(IdOf(table[k][j])) && Bytes(IdOf(table[k][j])) == old(Bytes(IdOf(table[k][j])))
      {
        assert old(EntryOk(table[..][k][j], table.Length, k));
        StoredStays(IdOf(table[k][j]));
      }
    }

    twostate lemma IdsStay()
      requires old(ValidOwn()) && table == old(table) && table[..] == old(table[..]) && interned == old(interned)
      requires forall k, j :: 0 <= k < table.Length && 0 <= j < |table[k]| ==>
                 Stored(IdOf(table[k][j])) && Bytes(IdOf(table[k][j])) == old(Bytes(IdOf(table[k][j])))
      ensures IdsOk(Ids(table[..]), interned)
    {
      hide Key, Ids, PoolsOk, Keyed;
      var t := table[..];
      assert old(IdsOk(Ids(table[..]), interned));
      forall id | id in Ids(t)
        ensures Stored(id) && Ids(t)[id] == 1 && (id.len > 0 ==> Bytes(id) in interned && interned[Bytes(id)] == id)
      {
        var k, j := TableFind(t, id);
      }
      forall s | s in interned ensures interned[s] in Ids(t) && interned[s].len > 0 && Bytes(interned[s]) == s {
        var k, j := TableFind(t, interned[s]);
      }
    }

    twostate lemma KeysStay()
      requires old(ValidOwn()) && table == old(table) && table[..] == old(table[..])
      requires forall k, j :: 0 <= k < table.Length && 0 <= j < |table[k]| ==>
                 Stored(IdOf(table[k][j])) && Bytes(IdOf(table[k][j])) == old(Bytes(IdOf(table[k][j])))
      ensures Keyed(table[..], table.Length)
    {
      hide Key, Ids, PoolsOk, IdsOk;
      forall k, j | 0 <= k < table.Length && 0 <= j < |table[k]| ensures EntryOk(table[..][k][j], table.Length, k) {
        assert old(EntryOk(table[..][k][j], table.Length, k));
      }
    }

    /** Storing a string disturbs no entry. */
    twostate lemma StorageGrew()
      requires old(ValidOwn()) && this !in Storage && table !in Storage && PoolsOk() && old(Storage) <= Storage && StorageKept()
      requires table == old(table) && table[..] == old(table[..]) && nbElems == old(nbElems) && interned == old(interned)
      ensures ValidOwn()
    {
      StringsStay();
      IdsStay();
      KeysStay();
      hide Key, Ids, PoolsOk, IdsOk, Keyed, StorageKept;
    }

    // ----- lookup -----

    /** xmlDictComputeKey. */
    method ComputeKey(size: nat, name: seq<byte>, len: nat) returns (key: nat)
      requires len <= |name| && name != []
      ensures key == Key(size, name, len, seed)
    {
      if size == MIN_DICT_SIZE {
        key := FastKey(name, len);
      } else {
        key := ComputeBigKey(name, len, seed);
      }
    }

    predicate Matches(e: Entry, okey: nat, name: seq<byte>, len: nat)
      reads this`strings, this`Storage, Storage
      requires Stored(IdOf(e)) && len <= |name|
    {
      e.okey == okey && e.len == len
      && e.name.pool.data[e.name.offset..e.name.offset + e.len] == name[..len]
    }

    /** Follows the bucket of a key. When the name is absent `steps` is the number of links passed. */
    method SearchChain(okey: nat, name: seq<byte>, len: nat) returns (found: Option<Ptr>, steps: nat)
      requires ValidOwn() && len <= |name| && name != [] && okey == Key(table.Length, name, len, seed)
      ensures found.None? ==> steps == if table[okey % table.Length] == [] then 0 else |table[okey % table.Length]| - 1
      ensures found.Some? ==> exists id :: id in Ids(table[..]) && id == Id(found.value, len) && Bytes(id) == name[..len]
      ensures len > 0 ==> (found.Some? <==> name[..len] in interned)
      ensures len > 0 && found.Some? ==> interned[name[..len]] == Id(found.value, len)
    {
      hide Key, Ids;
      var key := okey % table.Length;
      var chain := table[key];
      assert chain == table[..][key];
      steps := 0;
      if chain == [] {
        NotInBucket(okey, name, len);
        return None, 0;
      }
      var insert := 0;
      while insert < |chain| - 1
        invariant 0 <= insert < |chain| && steps == insert
        invariant forall j :: 0 <= j < insert ==> Stored(IdOf(chain[j])) && !Matches(chain[j], okey, name, len)
      {
        assert EntryOk(table[..][key][insert], table.Length, key);
        if Matches(chain[insert], okey, name, len) {
          MatchFound(key, insert, okey, name, len);
          return Some(chain[insert].name), steps;
        }
        steps := steps + 1;
        insert := insert + 1;
      }
      assert EntryOk(table[..][key][insert], table.Length, key);
      if Matches(chain[insert], okey, name, len) {
        MatchFound(key, insert, okey, name, len);
        return Some(chain[insert].name), steps;
      }
      NotInBucket(okey, name, len);
      return None, steps;
    }

    lemma MatchFound(key: nat, j: nat, okey: nat, name: seq<byte>, len: nat)
      requires ValidOwn() && len <= |name| && key < table.Length && j < |table[key]|
      requires Stored(IdOf(table[key][j])) && Matches(table[key][j], okey, name, len)
      ensures var id := IdOf(table[key][j]);
        id in Ids(table[..]) && id == Id(id.name, len) && Bytes(id) == name[..len]
        && (len > 0 ==> name[..len] in interned && interned[name[..len]] == id)
    {
      TableMember(table[..], key, j);
    }

    /** A name without a match in its bucket is not held at all. */
    lemma NotInBucket(okey: nat, name: seq<byte>, len: nat)
      requires ValidOwn() && len <= |name| && name != [] && okey == Key(table.Length, name, len, seed)
      requires var chain := table[okey % table.Length];
        forall j :: 0 <= j < |chain| ==> Stored(IdOf(chain[j])) && !Matches(chain[j], okey, name, len)
      ensures len > 0 ==> name[..len] !in interned
    {
      hide Key, Ids;
      if len > 0 && name[..len] in interned {
        var id := interned[name[..len]];
        var k, j := TableFind(table[..], id);
        var e := table[..][k][j];
        assert EntryOk(e, table.Length, k);
        KeyOfName(table.Length, name, Bytes(id), len, seed);
        assert false;
      }
    }

    // ----- insertion -----

    /** Appends an entry for a stored string to its bucket. */
    method Insert(ret: Ptr, len: nat, okey: nat)
      requires ValidOwn() && Stored(Id(ret, len))
      requires forall id :: id in Ids(table[..]) ==> id.name != ret
      requires len > 0 ==> Bytes(Id(ret, len)) !in interned && okey == Key(table.Length, Bytes(Id(ret, len)), len, seed)
      modifies table, this`nbElems, this`interned
      ensures ValidOwn() && table[..] == old(table[..])[okey % table.Length := old(table[okey % table.Length]) + [Entry(ret, len, okey)]]
      ensures Ids(table[..]) == old(Ids(table[..])) + multiset{Id(ret, len)}
      ensures interned == if len > 0 then old(interned)[old(Bytes(Id(ret, len))) := Id(ret, len)] else old(interned)
    {
      hide Key, Ids, IdsOk, Keyed, PoolsOk;
      ghost var id, ids := Id(ret, len), Ids(table[..]);
      ghost var before := table[..];
      var key := okey % table.Length;
      var entry := Entry(ret, len, okey);
      var insert := table[key];
      TableAppend(before, key, entry);
      table[key] := insert + [entry];
      assert table[..] == before[key := insert + [entry]];
      nbElems := nbElems + 1;
      if len > 0 {
        interned := interned[Bytes(id) := id];
      }
      InsertKeepsIds(ids, id, old(interned));
      InsertKeepsKeys(before, key, entry);
    }

    lemma InsertKeepsIds(ids: multiset<Id>, id: Id, before: map<seq<byte>, Id>)
      requires IdsOk(ids, before) && Stored(id) && forall i :: i in ids ==> i.name != id.name
      requires id.len > 0 ==> Bytes(id) !in before
      ensures IdsOk(ids + multiset{id}, if id.len > 0 then before[Bytes(id) := id] else before)
    {
    }

    lemma InsertKeepsKeys(before: Table, key: nat, entry: Entry)
      requires Keyed(before, |before|) && key < |before| && EntryOk(entry, |before|, key)
      ensures Keyed(before[key := before[key] + [entry]], |before|)
    {
      hide Key;
      var t := before[key := before[key] + [entry]];
      forall k, j | 0 <= k < |t| && 0 <= j < |t[k]| ensures EntryOk(t[k][j], |t|, k) {
        if !(k == key && j == |before[key]|) {
          assert t[k][j] == before[k][j];
        }
      }
    }

    // ----- growth -----

    /** The key of an entry for the present table size: kept between the large sizes, recomputed from the stored
        string when the table leaves its initial size. */
    method Rekey(e: Entry, keepKeys: bool, ghost oldSize: nat, ghost k: nat) returns (e': Entry)
      requires table.Length > 0 && table.Length != MIN_DICT_SIZE && keepKeys == (oldSize != MIN_DICT_SIZE)
      requires EntryOk(e, oldSize, k)
      ensures IdOf(e') == IdOf(e) && EntryOk(e', table.Length, e'.okey % table.Length)
    {
      var okey;
      if keepKeys {
        okey := e.okey;
      } else {
        var buffer := e.name.pool.data[e.name.offset..e.name.offset + e.len + 1];
        okey := ComputeKey(table.Length, buffer, e.len);
        if e.len > 0 {
          assert buffer[..e.len] == Bytes(IdOf(e)) == Bytes(IdOf(e))[..e.len];
          KeyOfName(table.Length, buffer, Bytes(IdOf(e)), e.len, seed);
        }
      }
      e' := e.(okey := okey);
    }

    method PutBack(e: Entry)
      requires table.Length > 0 && table !in Storage && this !in Storage
      requires Keyed(table[..], table.Length) && EntryOk(e, table.Length, e.okey % table.Length)
      modifies table
      ensures Keyed(table[..], table.Length)
      ensures Ids(table[..]) == old(Ids(table[..])) + multiset{IdOf(e)}
    {
      hide Ids, EntryOk;
      ghost var before := table[..];
      var key := e.okey % table.Length;
      TablePlace(before, key, e);
      if table[key] == [] {
        table[key] := [e];
      } else {
        table[key] := [table[key][0], e] + table[key][1..];
      }
      assert table[..] == before[key := Placed(before[key], e)];
      PlacedKeepsKeys(before, key, e);
    }

    lemma PlacedKeepsKeys(before: Table, key: nat, e: Entry)
      requires key < |before| && Keyed(before, |before|) && EntryOk(e, |before|, key)
      ensures Keyed(before[key := Placed(before[key], e)], |before|)
    {
      hide EntryOk;
      var t := before[key := Placed(before[key], e)];
      forall k, j | 0 <= k < |t| && 0 <= j < |t[k]| ensures EntryOk(t[k][j], |t|, k) {
        if k == key {
          if j == 0 && before[key] != [] {
            assert t[k][j] == before[k][0];
          } else if j > 1 {
            assert t[k][j] == before[k][j - 1];
          }
        } else {
          assert t[k][j] == before[k][j];
        }
      }
    }

    /** xmlDictGrow: heads first, then chains, into a table of the new size. */
    method Grow(size: nat) returns (ret: int)
      requires ValidOwn() && size != MIN_DICT_SIZE
      modifies this`table
      ensures ret == if 8 <= size <= 8 * 2048 then 0 else -1
      ensures ret == -1 ==> table == old(table)
      ensures ret == 0 ==> fresh(table) && table.Length == size && ValidOwn()
      ensures ret == 0 ==> Ids(table[..]) == old(Ids(table[..]))
    {
      if size < 8 {
        return -1;
      }
      if size > 8 * 2048 {
        return -1;
      }
      Rehash(size);
      ret := 0;
    }

    method Rehash(size: nat)
      requires ValidOwn() && size != MIN_DICT_SIZE && size > 0
      modifies this`table
      ensures fresh(table) && table.Length == size && ValidOwn()
      ensures Ids(table[..]) == old(Ids(table[..]))
    {
      hide Ids, EntryOk, IdsOk, PoolsOk, HeadIds, TailIds;
      var olddict := table[..];
      var keepKeys := true;
      if table.Length == MIN_DICT_SIZE {
        keepKeys := false;
      }
      assert Keyed(olddict, |olddict|);
      table := new seq<Entry>[size](_ => []);
      EmptyTable(table[..]);
      MoveHeads(olddict, keepKeys);
      MoveChains(olddict, keepKeys);
      HeadsAndTails(olddict);
    }

    method MoveHeads(olddict: Table, keepKeys: bool)
      requires Keyed(olddict, |olddict|)
      requires table.Length > 0 && table.Length != MIN_DICT_SIZE && keepKeys == (|olddict| != MIN_DICT_SIZE)
      requires table !in Storage && this !in Storage && Keyed(table[..], table.Length) && Ids(table[..]) == multiset{}
      modifies table
      ensures Keyed(table[..], table.Length) && Ids(table[..]) == HeadIds(olddict)
    {
      hide Ids, EntryOk, HeadIds;
      NoHeads();
      var i := 0;
      while i < |olddict|
        invariant 0 <= i <= |olddict|
        invariant Keyed(table[..], table.Length) && Ids(table[..]) == HeadIds(olddict[..i])
      {
        HeadsStep(olddict, i);
        if olddict[i] != [] {
          var e := Rekey(olddict[i][0], keepKeys, |olddict|, i);
          PutBack(e);
        }
        i := i + 1;
      }
      assert olddict[..i] == olddict;
    }

    method MoveChains(olddict: Table, keepKeys: bool)
      requires Keyed(olddict, |olddict|)
      requires table.Length > 0 && table.Length != MIN_DICT_SIZE && keepKeys == (|olddict| != MIN_DICT_SIZE)
      requires table !in Storage && this !in Storage && Keyed(table[..], table.Length)
      modifies table
      ensures Keyed(table[..], table.Length) && Ids(table[..]) == old(Ids(table[..])) + TailIds(olddict)
    {
      hide Ids, EntryOk, ChainIds;
      var i := 0;
      while i < |olddict|
        invariant 0 <= i <= |olddict|
        invariant Keyed(table[..], table.Length) && Ids(table[..]) == old(Ids(table[..])) + TailIds(olddict[..i])
      {
        assert olddict[..i + 1][..i] == olddict[..i];
        MoveChain(olddict[i], keepKeys, |olddict|, i);
        i := i + 1;
      }
      assert olddict[..i] == olddict;
    }

    /** The chained entries of a bucket, those behind its head. */
    static function Chained(bucket: seq<Entry>): seq<Entry>
    {
      if bucket == [] then [] else bucket[1..]
    }

    /** The inner loop over the chained entries of one bucket. */
    method MoveChain(bucket: seq<Entry>, keepKeys: bool, ghost oldSize: nat, ghost k: nat)
      requires forall j :: 0 <= j < |bucket| ==> EntryOk(bucket[j], oldSize, k)
      requires table.Length > 0 && table.Length != MIN_DICT_SIZE && keepKeys == (oldSize != MIN_DICT_SIZE)
      requires table !in Storage && this !in Storage && Keyed(table[..], table.Length)
      modifies table
      ensures Keyed(table[..], table.Length) && Ids(table[..]) == old(Ids(table[..])) + ChainIds(Chained(bucket))
    {
      hide Ids, EntryOk, Keyed, ChainIds;
      EmptyChain();
      var chain := Chained(bucket);
      var iter := 0;
      while iter < |chain|
        invariant 0 <= iter <= |chain|
        invariant Keyed(table[..], table.Length)
        invariant Ids(table[..]) == old(Ids(table[..])) + ChainIds(chain[..iter])
      {
        var e := Rekey(chain[iter], keepKeys, oldSize, k);
        PutBack(e);
        ChainSnoc(chain, iter);
        iter := iter + 1;
      }
      assert chain[..iter] == chain;
    }

    // ----- lookup and intern -----

    /** The string a name stands for in this dictionary: its own entry first, then that of the sub-dictionary. */
    ghost function View(): map<seq<byte>, Id>
      reads this, subdict
    {
      (if subdict == null then map[] else subdict.interned) + interned
    }

    /** The strings held, empty ones included, with their multiplicity. */
    ghost function Held(): multiset<Id>
      reads this, table
    {
      Ids(table[..])
    }

    /** What a lookup of n may answer, given the view before it, and how it changes the strings held: a name in view
        gets the pointer it has, a new name is entered, and nothing is entered when there is no answer. */
    ghost predicate Answers(n: seq<byte>, ret: Option<Ptr>, view: map<seq<byte>, Id>,
                            before: map<seq<byte>, Id>, after: map<seq<byte>, Id>)
    {
      if ret.None? || n == [] then after == before
      else if n in view then view[n] == Id(ret.value, |n|) && after == before
      else after == before[n := Id(ret.value, |n|)]
    }

    /** Entries chained behind the head of the bucket of a name. */
    ghost function Behind(name: seq<byte>, len: nat): nat
      reads this, table
    {
      if table.Length == 0 || len > |name| || name == [] then 0
      else
        var bucket := table[Key(table.Length, name, len, seed) % table.Length];
        if bucket == [] then 0 else |bucket| - 1
    }

    /** The entries that a search for a name that is not there steps over, in both tables. */
    ghost function Crowd(name: seq<byte>, len: nat): nat
      reads this, table, subdict, if subdict != null then {subdict.table} else {}
    {
      Behind(name, len) + if subdict != null then subdict.Behind(name, len) else 0
    }

    /** xmlDictLookup for a name of the given length. */
    method Lookup(name: seq<byte>, len: nat) returns (ret: Option<Ptr>, ghost added: set<object>)
      requires Valid() && len <= |name| && name != []
      modifies Repr()
      ensures Valid() && Storage == old(Storage) + added && fresh(added) && (table == old(table) || fresh(table))
      ensures Answers(name[..len], ret, old(View()), old(interned), interned)
      ensures (limit > 0 && len >= limit) || len > INT_MAX / 2 ==> ret.None?
      ensures ret.None? ==> (limit > 0 && len >= limit) || len > INT_MAX / 2 || old(Full(len))
      ensures len > 0 ==>
                (ret.None? <==> (limit > 0 && len >= limit) || len > INT_MAX / 2 || (name[..len] !in old(View()) && old(Full(len))))
      ensures forall n: nat :: old(Full(n)) ==> Full(n)
      ensures Held() == old(Held()) || (ret.Some? && Held() == old(Held()) + multiset{Id(ret.value, len)})
    {
      NoAnswer(name[..len]);
      hide Held, Valid, ValidOwn, Key, View, Answers, Full;
      if (limit > 0 && len >= limit) || len > INT_MAX / 2 {
        return None, {};
      }
      added := {};
      var okey, nbi;
      ret, okey, nbi := Find(name, len);
      if ret.Some? {
        return;
      }
      ret, added := InternAndGrow(name, len, okey, nbi);
    }

    /** The duplicate check of xmlDictLookup, in this table and in the one of the sub-dictionary. */
    method Find(name: seq<byte>, len: nat) returns (ret: Option<Ptr>, okey: nat, nbi: nat)
      requires Valid() && len <= |name| && name != []
      ensures Valid() && okey == Key(table.Length, name, len, seed)
      ensures len > 0 ==> (ret.Some? <==> name[..len] in View())
      ensures ret.Some? ==> Answers(name[..len], ret, View(), interned, interned)
      ensures ret.None? ==> nbi == Crowd(name, len)
    {
      hide Ids, EntryOk, IdsOk, PoolsOk, Keyed, Key;
      okey := ComputeKey(table.Length, name, len);
      var steps;
      ret, nbi := SearchChain(okey, name, len);
      if ret.None? && subdict != null {
        var skey := okey;
        if (table.Length == MIN_DICT_SIZE && subdict.table.Length != MIN_DICT_SIZE)
           || (table.Length != MIN_DICT_SIZE && subdict.table.Length == MIN_DICT_SIZE) {
          skey := subdict.ComputeKey(subdict.table.Length, name, len);
        }
        SharedKey(okey, skey, name, len);
        ret, steps := subdict.SearchChain(skey, name, len);
        nbi := nbi + steps;
      }
    }

    method InternAndGrow(name: seq<byte>, len: nat, okey: nat, nbi: nat) returns (ret: Option<Ptr>, ghost added: set<object>)
      requires Valid() && len <= |name| && name != [] && okey == Key(table.Length, name, len, seed)
      requires len > 0 ==> name[..len] !in View()
      modifies Repr()
      ensures Valid() && Storage == old(Storage) + added && fresh(added) && (table == old(table) || fresh(table))
      ensures Answers(name[..len], ret, old(View()), old(interned), interned)
      ensures ret.None? <==> old(Full(len))
      ensures forall n: nat :: old(Full(n)) ==> Full(n)
      ensures table.Length == old(table.Length) * if ret.Some? && nbi > 3 && old(table.Length) <= 2730 then 6 else 1
      ensures if ret.None? then Held() == old(Held())
              else Held() == old(Held()) + multiset{Id(ret.value, len)}
    {
      hide Ids, EntryOk, IdsOk, PoolsOk, Keyed, Key;
      PoolsAreStorage();
      ret, added := Intern(name, len, okey);
      if ret.Some? && nbi > MAX_HASH_LEN && table.Length <= MAX_DICT_HASH / 2 / MAX_HASH_LEN {
        var r := Grow(MAX_HASH_LEN * 2 * table.Length);
        if r != 0 {
          return None, added;
        }
      }
    }

    lemma PoolsAreStorage()
      requires PoolsOk()
      ensures forall p :: p in strings ==> p in Storage && p.data in Storage
    {
    }

    lemma NoAnswer(n: seq<byte>)
      ensures Answers(n, None, View(), interned, interned)
    {
    }

    lemma ViewCovers()
      ensures forall s :: s in interned ==> s in View() && View()[s] == interned[s]
    {
    }

    /** When the key is reused for the sub-dictionary it is the sub-dictionary's own key. */
    lemma SharedKey(okey: nat, skey: nat, name: seq<byte>, len: nat)
      requires subdict != null && seed == subdict.seed && len <= |name| && name != []
      requires okey == Key(table.Length, name, len, seed)
      requires skey == if (table.Length == MIN_DICT_SIZE) != (subdict.table.Length == MIN_DICT_SIZE)
                       then Key(subdict.table.Length, name, len, subdict.seed) else okey
      ensures skey == Key(subdict.table.Length, name, len, subdict.seed)
    {
    }

    /** Stores a string that is not held yet and enters it into the table. */
    method Intern(name: seq<byte>, len: nat, okey: nat) returns (ret: Option<Ptr>, ghost added: set<object>)
      requires ValidOwn() && len <= |name| && name != [] && okey == Key(table.Length, name, len, seed)
      requires len > 0 ==> name[..len] !in interned
      modifies this`nbElems, this`strings, this`Storage, this`interned, table, strings, set p | p in strings :: p.data
      ensures ValidOwn() && Storage == old(Storage) + added && fresh(added)
      ensures ret.None? <==> old(Full(len))
      ensures forall n: nat :: old(Full(n)) ==> Full(n)
      ensures ret.None? ==> interned == old(interned) && Held() == old(Held())
      ensures ret.Some? ==> Held() == old(Held()) + multiset{Id(ret.value, len)}
      ensures ret.Some? ==> interned == if len > 0 then old(interned)[name[..len] := Id(ret.value, len)] else old(interned)
    {
      hide Ids, IdsOk, Keyed, Key;
      ret, added := AddString(name[..len]);
      StorageGrew();
      if ret.None? {
        return;
      }
      FreshPointer(ret.value);
      if len > 0 {
        KeyOfName(table.Length, name, name[..len], len, seed);
      }
      Insert(ret.value, len, okey);
    }

    /** A pointer at or above the old end of its pool belongs to no entry. */
    twostate lemma FreshPointer(new p: Ptr)
      requires old(ValidOwn()) && table == old(table) && table[..] == old(table[..])
      requires p.pool in old(strings) ==> p.offset == old(p.pool.free)
      ensures forall id :: id in Ids(table[..]) ==> id.name != p
    {
      hide Ids, Key;
      forall id | id in Ids(table[..]) ensures id.name != p {
        var k, j := TableFind(table[..], id);
        assert old(EntryOk(table[..][k][j], table.Length, k));
      }
    }
  }
}
