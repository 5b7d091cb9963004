/** The two UTF-16LE converters together, and in pieces. */
module Utf16Streams {
  import opened Octets
  import opened Utf8
  import opened Transcoding
  import opened Utf16

  // ---------- round trip ----------

  lemma {:induction false} UnitsLength(cs: seq<Scalar>, k: nat)
    requires k <= |cs|
    ensures |UnitsAll(cs[..k])| <= 2 * Length(cs, k) && k <= Length(cs, k)
  {
    if k > 0 {
      UnitsLength(cs, k - 1);
      UnitsNext(cs, k - 1);
      LengthNext(cs, k - 1);
    } else {
      assert cs[..0] == [];
    }
  }

  lemma {:induction false} LengthGrows(cs: seq<Scalar>, j: nat, k: nat)
    requires j <= k <= |cs|
    ensures Length(cs, j) + (k - j) <= Length(cs, k)
    ensures |UnitsAll(cs[..j])| + 2 * (k - j) <= |UnitsAll(cs[..k])|
    decreases k
  {
    if j < k {
      LengthGrows(cs, j, k - 1);
      LengthNext(cs, k - 1);
      UnitsNext(cs, k - 1);
    }
  }

  lemma AllToUnits(cs: seq<Scalar>, k: nat, inlen: nat, output: seq<byte>, outlen: nat)
    requires ToUnits(cs, k, inlen, output) && ToUnitsStopped(cs, k, EncodeAll(cs), inlen, |output|, outlen)
    requires outlen >= 2 * |EncodeAll(cs)|
    ensures k == |cs| && output == UnitsAll(cs)
  {
    hide Encode, EncodeAll, Units, UnitsAll;
    LengthOfAll(cs);
    AllUnits(cs);
    LengthGrows(cs, k, |cs|);
    if k < |cs| {
      LengthGrows(cs, k + 1, |cs|);
      LengthNext(cs, k);
      UnitsNext(cs, k);
      UnitsLength(cs, |cs|);
    }
  }

  lemma AllFromUnits(cs: seq<Scalar>, k: nat, inlen: nat, output: seq<byte>, outlen: nat)
    requires FromUnits(cs, k, inlen, output) && FromUnitsStopped(cs, k, UnitsAll(cs), inlen, |output|, outlen)
    requires outlen >= |EncodeAll(cs)| + 5
    ensures k == |cs| && output == EncodeAll(cs)
  {
    hide Encode, EncodeAll, Units, UnitsAll;
    assert cs[..|cs|] == cs;
    LengthOfAll(cs);
    AllUnits(cs);
    LengthGrows(cs, k, |cs|);
    if k < |cs| {
      LengthGrows(cs, k + 1, |cs|);
      UnitsNext(cs, k);
    }
  }

  lemma {:induction false} EvenUnits(cs: seq<Scalar>)
    ensures |UnitsAll(cs)| % 2 == 0
  {
    if cs != [] {
      EvenUnits(cs[1..]);
    }
  }

  /** UTF-8 to UTF-16LE and back gives the same bytes, surrogate pairs included, when there is enough room. */
  method RoundTrip(units: array<byte>, back: array<byte>, utf8: seq<byte>, ghost cs: seq<Scalar>) returns (n: nat, m: nat)
    requires utf8 == EncodeAll(cs) && units != back
    requires units.Length >= 2 * |utf8| && back.Length >= |utf8| + 5
    modifies units, back
    ensures n <= units.Length && units[..n] == UnitsAll(cs)
    ensures m <= back.Length && back[..m] == utf8
  {
    hide Encode, EncodeAll, Units, UnitsAll, ToUnits, ToUnitsStopped, FromUnits, FromUnitsStopped, Length;
    var ret, inlen;
    ghost var k;
    ret, n, inlen, k := FromUTF8ToUnits(units, 0, units.Length, utf8, cs);
    assert units[0..n] == units[..n];
    AllToUnits(cs, k, inlen, units[..n], units.Length);
    var inb := units[..n];
    EvenUnits(cs);
    ret, m, inlen, k := FromUnitsToUTF8(back, 0, back.Length, inb, cs);
    assert back[0..m] == back[..m] && inb[..|inb| - |inb| % 2] == inb;
    AllFromUnits(cs, k, inlen, back[..m], back.Length);
  }

  // ---------- streams in pieces ----------

  lemma RestOfStream(cs: seq<Scalar>, k: nat)
    requires k <= |cs|
    ensures EncodeAll(cs) == EncodeAll(cs[..k]) + EncodeAll(cs[k..])
    ensures UnitsAll(cs) == UnitsAll(cs[..k]) + UnitsAll(cs[k..])
  {
    assert cs == cs[..k] + cs[k..];
    EncodeAllAppend(cs[..k], cs[k..]);
    UnitsAllAppend(cs[..k], cs[k..]);
  }

  /** A conversion that goes on where an earlier one stopped. */
  lemma ToUnitsResumed(cs: seq<Scalar>, k: nat, inlen: nat, output: seq<byte>, k2: nat, inlen2: nat, output2: seq<byte>)
    requires ToUnits(cs, k, inlen, output) && ToUnits(cs[k..], k2, inlen2, output2)
    ensures ToUnits(cs, k + k2, inlen + inlen2, output + output2)
  {
    hide Encode, EncodeAll, Units, UnitsAll;
    assert cs[..k + k2] == cs[..k] + cs[k..][..k2];
    EncodeAllAppend(cs[..k], cs[k..][..k2]);
    UnitsAllAppend(cs[..k], cs[k..][..k2]);
  }

  lemma FromUnitsResumed(cs: seq<Scalar>, k: nat, inlen: nat, output: seq<byte>, k2: nat, inlen2: nat, output2: seq<byte>)
    requires FromUnits(cs, k, inlen, output) && FromUnits(cs[k..], k2, inlen2, output2)
    ensures FromUnits(cs, k + k2, inlen + inlen2, output + output2)
  {
    hide Encode, EncodeAll, Units, UnitsAll;
    assert cs[..k + k2] == cs[..k] + cs[k..][..k2];
    EncodeAllAppend(cs[..k], cs[k..][..k2]);
    UnitsAllAppend(cs[..k], cs[k..][..k2]);
  }

  /** The part of a stream that has arrived behind the first k characters. */
  lemma Pending(cs: seq<Scalar>, k: nat, stream: seq<byte>, arrived: nat)
    requires k <= |cs|
    ensures stream == EncodeAll(cs) && Length(cs, k) <= arrived <= |stream| ==>
              IsPrefix(stream[Length(cs, k)..arrived], EncodeAll(cs[k..]))
    ensures var p := |UnitsAll(cs[..k])|;
            stream == UnitsAll(cs) && p <= arrived <= |stream| ==> IsPrefix(stream[p..arrived], UnitsAll(cs[k..]))
  {
    hide Encode, EncodeAll, Units, UnitsAll;
    RestOfStream(cs, k);
  }

  /** UTF-8 that arrives in pieces of any sizes is converted into buffers of any sizes; what is not consumed is put in
      front of the next piece. The outputs together are the UTF-16LE form of the characters consumed so far. */
  method StreamToUnits(stream: seq<byte>, ghost cs: seq<Scalar>, pieces: seq<(nat, nat)>)
    returns (output: seq<byte>, rest: seq<byte>, arrived: nat, ghost k: nat)
    requires stream == EncodeAll(cs)
    ensures arrived <= |stream| && |rest| <= arrived && rest == stream[arrived - |rest|..arrived]
    ensures ToUnits(cs, k, arrived - |rest|, output)
    ensures arrived == |stream| && rest == [] ==> output == UnitsAll(cs)
  {
    hide Encode, EncodeAll, Units, UnitsAll, ToUnits, ToUnitsStopped;
    output, rest, arrived, k := [], [], 0, 0;
    NoUnits(cs);
    var i := 0;
    while i < |pieces|
      invariant 0 <= i <= |pieces| && arrived <= |stream| && |rest| <= arrived && rest == stream[arrived - |rest|..arrived]
      invariant ToUnits(cs, k, arrived - |rest|, output)
    {
      var (n, capacity) := pieces[i];
      var now := if arrived + n <= |stream| then arrived + n else |stream|;
      ghost var from := arrived - |rest|;
      rest, arrived := rest + stream[arrived..now], now;
      assert rest == stream[from..arrived];
      ToUnitsMeans(cs, k, from, output);
      Pending(cs, k, stream, arrived);
      var buffer := new byte[capacity];
      ghost var k2;
      var ret, written, inlen;
      ret, written, inlen, k2 := FromUTF8ToUnits(buffer, 0, capacity, rest, cs[k..]);
      ToUnitsResumed(cs, k, from, output, k2, inlen, buffer[0..written]);
      output, rest, k := output + buffer[0..written], rest[inlen..], k + k2;
      i := i + 1;
    }
    if arrived == |stream| && rest == [] {
      EverythingConsumed(cs, k, arrived, output);
    }
  }

  lemma ToUnitsMeans(cs: seq<Scalar>, k: nat, inlen: nat, output: seq<byte>)
    requires ToUnits(cs, k, inlen, output)
    ensures k <= |cs| && inlen == Length(cs, k)
  {}

  lemma EverythingConsumed(cs: seq<Scalar>, k: nat, inlen: nat, output: seq<byte>)
    requires ToUnits(cs, k, inlen, output) && inlen == |EncodeAll(cs)|
    ensures output == UnitsAll(cs)
  {
    LengthOfAll(cs);
    AllUnits(cs);
    LengthGrows(cs, k, |cs|);
  }

  /** The same for UTF-16LE. */
  method StreamFromUnits(stream: seq<byte>, ghost cs: seq<Scalar>, pieces: seq<(nat, nat)>)
    returns (output: seq<byte>, rest: seq<byte>, arrived: nat, ghost k: nat)
    requires stream == UnitsAll(cs)
    ensures arrived <= |stream| && |rest| <= arrived && rest == stream[arrived - |rest|..arrived]
    ensures FromUnits(cs, k, arrived - |rest|, output)
    ensures arrived == |stream| && rest == [] ==> output == EncodeAll(cs)
  {
    hide Encode, EncodeAll, Units, UnitsAll, FromUnits, FromUnitsStopped;
    output, rest, arrived, k := [], [], 0, 0;
    NothingYet(cs);
    var i := 0;
    while i < |pieces|
      invariant 0 <= i <= |pieces| && arrived <= |stream| && |rest| <= arrived && rest == stream[arrived - |rest|..arrived]
      invariant FromUnits(cs, k, arrived - |rest|, output)
    {
      var (n, capacity) := pieces[i];
      var now := if arrived + n <= |stream| then arrived + n else |stream|;
      ghost var from := arrived - |rest|;
      rest, arrived := rest + stream[arrived..now], now;
      assert rest == stream[from..arrived];
      FromUnitsMeans(cs, k, from, output);
      Pending(cs, k, stream, arrived);
      var buffer := new byte[capacity];
      ghost var k2;
      var ret, written, inlen;
      ret, written, inlen, k2 := FromUnitsToUTF8(buffer, 0, capacity, rest, cs[k..]);
      FromUnitsResumed(cs, k, from, output, k2, inlen, buffer[0..written]);
      output, rest, k := output + buffer[0..written], rest[inlen..], k + k2;
      i := i + 1;
    }
    if arrived == |stream| && rest == [] {
      EveryUnitConsumed(cs, k, arrived, output);
    }
  }

  lemma FromUnitsMeans(cs: seq<Scalar>, k: nat, inlen: nat, output: seq<byte>)
    requires FromUnits(cs, k, inlen, output)
    ensures k <= |cs| && inlen == |UnitsAll(cs[..k])|
  {}

  lemma EveryUnitConsumed(cs: seq<Scalar>, k: nat, inlen: nat, output: seq<byte>)
    requires FromUnits(cs, k, inlen, output) && inlen == |UnitsAll(cs)|
    ensures output == EncodeAll(cs)
  {
    LengthOfAll(cs);
    AllUnits(cs);
    LengthGrows(cs, k, |cs|);
    assert cs[..|cs|] == cs;
  }
}
