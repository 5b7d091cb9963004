/** The two hash functions of the string dictionary. */
module DictKeys {
  import opened Octets

  const MIN_DICT_SIZE := 128

  // ---------- the fast key, for a table of the initial size ----------

  /** name[1] + ... + name[n - 1], the fall-through cases of the switch. */
  function SumTo(name: seq<byte>, n: nat): nat
    requires n <= |name|
  {
    if n <= 1 then 0 else SumTo(name, n - 1) + name[n - 1]
  }

  /** The first byte is read whatever the length is. */
  function FastKey(name: seq<byte>, len: nat): nat
    requires len <= |name| && name != []
  {
    name[0] * 32 + (if len > 10 then name[len - 1] else 0) + SumTo(name, if len > 10 then 10 else len)
  }

  // ---------- the big key, once the table has grown ----------

  function Mix(hash: bv32, b: byte): bv32
  {
    var h := hash + b as bv32;
    var h' := h + (h << 10);
    h' ^ (h' >> 6)
  }

  function MixAll(hash: bv32, data: seq<byte>, n: nat): bv32
    requires n <= |data|
  {
    if n == 0 then hash else Mix(MixAll(hash, data, n - 1), data[n - 1])
  }

  function Avalanche(hash: bv32): bv32
  {
    var h := hash + (hash << 3);
    var h' := h ^ (h >> 11);
    h' + (h' << 15)
  }

  function BigKey(data: seq<byte>, len: nat, seed: bv32): nat
    requires len <= |data|
  {
    if len == 0 then 0 else Avalanche(MixAll(seed, data, len)) as nat
  }

  method ComputeBigKey(data: seq<byte>, len: nat, seed: bv32) returns (key: nat)
    requires len <= |data|
    ensures key == BigKey(data, len, seed)
  {
    hide Mix;
    if len == 0 {
      return 0;
    }
    var hash := seed;
    var i := 0;
    while i < len
      invariant 0 <= i <= len
      invariant hash == MixAll(seed, data, i)
    {
      hash := Mix(hash, data[i]);
      i := i + 1;
    }
    key := Avalanche(hash) as nat;
  }

  // ---------- choosing between them ----------

  function Key(size: nat, name: seq<byte>, len: nat, seed: bv32): nat
    requires len <= |name| && name != []
  {
    if size == MIN_DICT_SIZE then FastKey(name, len) else BigKey(name, len, seed)
  }

  lemma {:induction false} SumToPrefix(a: seq<byte>, b: seq<byte>, n: nat)
    requires n <= |a| && n <= |b| && a[..n] == b[..n]
    ensures SumTo(a, n) == SumTo(b, n)
  {
    if n > 1 {
      assert a[..n - 1] == a[..n][..n - 1] == b[..n - 1];
      assert a[n - 1] == a[..n][n - 1] == b[n - 1];
      SumToPrefix(a, b, n - 1);
    }
  }

  lemma {:induction false} MixAllPrefix(hash: bv32, a: seq<byte>, b: seq<byte>, n: nat)
    requires n <= |a| && n <= |b| && a[..n] == b[..n]
    ensures MixAll(hash, a, n) == MixAll(hash, b, n)
  {
    hide Mix;
    if n > 0 {
      assert a[..n - 1] == a[..n][..n - 1] == b[..n - 1];
      assert a[n - 1] == a[..n][n - 1] == b[n - 1];
      MixAllPrefix(hash, a, b, n - 1);
    }
  }

  /** Two buffers that hold the same name have the same key, unless the name is empty and the table is still of
      the initial size: then the key depends on the byte that follows the name. */
  lemma KeyOfName(size: nat, a: seq<byte>, b: seq<byte>, len: nat, seed: bv32)
    requires len <= |a| && len <= |b| && a != [] && b != [] && a[..len] == b[..len]
    ensures Key(size, a, len, seed) == Key(size, b, len, seed)
            <==> len > 0 || size != MIN_DICT_SIZE || a[0] == b[0]
  {
    hide Avalanche;
    if len > 0 {
      assert a[0] == a[..len][0] == b[0] && a[len - 1] == a[..len][len - 1] == b[len - 1];
      var n := if len > 10 then 10 else len;
      assert a[..n] == a[..len][..n] == b[..n];
      SumToPrefix(a, b, n);
      MixAllPrefix(seed, a, b, len);
    }
  }

  /** The one-at-a-time hash of "a" without a seed. */
  lemma BigKeyExample()
    ensures BigKey(BytesOf("a"), 1, 0) == 0xCA2E9442
  {
    assert MixAll(0, BytesOf("a"), 1) == Mix(MixAll(0, BytesOf("a"), 0), 97);
  }

  /** The fast key takes the first byte times 32 and the second to the tenth, and the last one of a longer name. */
  lemma FastKeyExamples()
    ensures FastKey(BytesOf("abc"), 3) == 97 * 32 + 98 + 99
    ensures FastKey(BytesOf("abcdefghijkl"), 12) == 97 * 32 + 108 + (98 + 99 + 100 + 101 + 102 + 103 + 104 + 105 + 106)
  {
    var s, t := BytesOf("abc"), BytesOf("abcdefghijkl");
    hide BytesOf;
    assert SumTo(s, 3) == SumTo(s, 2) + 99 == SumTo(s, 1) + 98 + 99;
    assert SumTo(t, 10) == SumTo(t, 9) + 106 == SumTo(t, 8) + 105 + 106 == SumTo(t, 7) + 104 + 105 + 106;
    assert SumTo(t, 7) == SumTo(t, 6) + 103 == SumTo(t, 5) + 102 + 103 == SumTo(t, 4) + 101 + 102 + 103;
    assert SumTo(t, 4) == SumTo(t, 3) + 100 == SumTo(t, 2) + 99 + 100 == SumTo(t, 1) + 98 + 99 + 100;
  }
}
