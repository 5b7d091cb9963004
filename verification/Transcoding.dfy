/** The converters of encoding.c between UTF-8 and ASCII, ISO Latin 1 and UTF-16LE, on a little-endian machine.
    Shifts and masks are written as arithmetic. */
module Transcoding {
  import opened Octets
  import opened Utf8

  // ---------- reading one UTF-8 character ----------

  datatype Lead = Lead(trailing: nat, bits: nat) | BadLead

  function LeadOf(d: byte): Lead
  {
    if d < 0x80 then Lead(0, d)
    else if d < 0xC0 then BadLead
    else if d < 0xE0 then Lead(1, d % 0x20)
    else if d < 0xF0 then Lead(2, d % 0x10)
    else if d < 0xF8 then Lead(3, d % 0x08)
    else BadLead
  }

  predicate IsTrail(d: byte)
  {
    0x80 <= d < 0xC0
  }

  /** c <<= 6, c |= d & 0x3F */
  function Shift(c: nat, d: byte): nat
  {
    c * 0x40 + d % 0x40
  }

  /** The value after up to t trailing bytes, how many bytes were read, and whether all of them were good. */
  function Tail(s: seq<byte>, t: nat, c: nat): (r: (nat, nat, bool))
    requires t <= |s|
    ensures r.1 <= t && (t > 0 ==> r.1 > 0) && (r.2 ==> r.1 == t)
    decreases t
  {
    if t == 0 then (c, 0, true)
    else if !IsTrail(s[0]) then (c, 1, false)
    else
      var r := Tail(s[1..], t - 1, Shift(c, s[0]));
      (r.0, r.1 + 1, r.2)
  }

  /** What stands at the beginning of s: a byte that begins no character, a character that is cut off, or a character
      of n bytes, `good` when all its trailing bytes are. */
  datatype Next = Bad | Cut | Char(c: nat, n: nat, good: bool)

  function NextOf(s: seq<byte>): (r: Next)
    requires s != []
    ensures r.Char? ==> 1 <= r.n <= |s|
  {
    match LeadOf(s[0])
    case BadLead => Bad
    case Lead(t, bits) =>
      if |s| - 1 < t then Cut
      else
        var r := Tail(s[1..], t, bits);
        Char(r.0, 1 + r.1, r.2)
  }

  /** The common part of the loops over UTF-8 input. */
  method ReadChar(inp: seq<byte>, p: nat) returns (r: Next)
    requires p < |inp|
    ensures r == NextOf(inp[p..])
  {
    var lead := LeadOf(inp[p]);
    if lead.BadLead? {
      return Bad;
    }
    var c: nat, trailing: nat, q: nat := lead.bits, lead.trailing, p + 1;
    if |inp| - q < trailing {
      return Cut;
    }
    hide Shift, LeadOf;
    ghost var all := Tail(inp[q..], trailing, c);
    assert inp[p..][1..] == inp[q..];
    while trailing > 0
      invariant p < q <= |inp| && trailing <= |inp| - q
      invariant var r := Tail(inp[q..], trailing, c); all == (r.0, r.1 + (q - p - 1), r.2)
    {
      var d := inp[q];
      assert inp[q..][1..] == inp[q + 1..];
      q := q + 1;
      if !IsTrail(d) {
        return Char(c, q - p, false);
      }
      c := Shift(c, d);
      trailing := trailing - 1;
    }
    return Char(c, q - p, true);
  }

  /** The trailing bytes for the lowest 6 * t bits of n, and what is left above them. */
  function Trails(n: nat, t: nat): (s: seq<byte>)
    ensures |s| == t
  {
    if t == 0 then [] else Trails(n / 0x40, t - 1) + [0x80 + n % 0x40]
  }

  function Above(n: nat, t: nat): nat
  {
    if t == 0 then n else Above(n / 0x40, t - 1)
  }

  lemma {:induction false} TailSnoc(s: seq<byte>, t: nat, c: nat)
    requires t < |s| && IsTrail(s[t]) && Tail(s, t, c).2
    ensures Tail(s, t + 1, c) == (Shift(Tail(s, t, c).0, s[t]), t + 1, true)
    decreases t
  {
    hide Shift;
    if t > 0 {
      assert IsTrail(s[0]);
      TailSnoc(s[1..], t - 1, Shift(c, s[0]));
    }
  }

  lemma {:induction false} TailOfTrails(n: nat, t: nat, rest: seq<byte>)
    ensures Tail(Trails(n, t) + rest, t, Above(n, t)) == (n, t, true)
    decreases t
  {
    if t > 0 {
      var x: byte := 0x80 + n % 0x40;
      TailOfTrails(n / 0x40, t - 1, [x] + rest);
      var s := Trails(n, t) + rest;
      assert s == Trails(n / 0x40, t - 1) + ([x] + rest);
      TailSnoc(s, t - 1, Above(n, t));
      ShiftBack(n, x);
    }
  }

  lemma ShiftBack(n: nat, x: byte)
    requires x == 0x80 + n % 0x40
    ensures Shift(n / 0x40, x) == n && IsTrail(x)
  {
    assert x % 0x40 == n % 0x40;
  }

  lemma TrailsOne(c: nat)
    ensures Trails(c, 0) == [] && Trails(c, 1) == [0x80 + c % 0x40] && Above(c, 0) == c && Above(c, 1) == c / 0x40
  {
    assert Trails(c / 0x40, 0) == [] && Above(c / 0x40, 0) == c / 0x40;
  }

  lemma TrailsTwo(c: nat)
    ensures Trails(c, 2) == [0x80 + c / 0x40 % 0x40, 0x80 + c % 0x40] && Above(c, 2) == c / 0x1000
  {
    TrailsOne(c / 0x40);
    assert c / 0x40 / 0x40 == c / 0x1000;
  }

  lemma TrailsThree(c: nat)
    ensures Trails(c, 3) == [0x80 + c / 0x1000 % 0x40, 0x80 + c / 0x40 % 0x40, 0x80 + c % 0x40]
    ensures Above(c, 3) == c / 0x4_0000
  {
    TrailsTwo(c / 0x40);
    assert c / 0x40 / 0x40 == c / 0x1000 && c / 0x40 / 0x1000 == c / 0x4_0000;
  }

  /** UTF-8 in this form. */
  lemma EncodeShape(c: Scalar) returns (lead: byte)
    ensures Encode(c) == [lead] + Trails(c, |Encode(c)| - 1)
    ensures LeadOf(lead) == Lead(|Encode(c)| - 1, Above(c, |Encode(c)| - 1))
  {
    hide Trails, Above;
    lead := Encode(c)[0];
    TrailsOne(c);
    TrailsTwo(c);
    TrailsThree(c);
  }

  lemma NextOfEncoded(c: Scalar, rest: seq<byte>)
    ensures NextOf(Encode(c) + rest) == Char(c, |Encode(c)|, true)
  {
    hide Encode, LeadOf, Trails, Above, Tail;
    var t := |Encode(c)| - 1;
    var lead := EncodeShape(c);
    var s := Encode(c) + rest;
    assert s[0] == lead && s[1..] == Trails(c, t) + rest;
    TailOfTrails(c, t, rest);
  }

  /** A proper beginning of a character. */
  lemma NextOfCut(c: Scalar, s: seq<byte>)
    requires 0 < |s| < |Encode(c)| && s == Encode(c)[..|s|]
    ensures NextOf(s) == Cut
  {
    hide Encode, LeadOf, Trails, Above;
    var lead := EncodeShape(c);
    assert s[0] == Encode(c)[0] == lead;
  }

  // ---------- streams of valid UTF-8 ----------

  predicate IsPrefix<T(==)>(a: seq<T>, b: seq<T>)
  {
    |a| <= |b| && b[..|a|] == a
  }

  /** The length of the first k characters. */
  function Length(cs: seq<Scalar>, k: nat): nat
    requires k <= |cs|
  {
    |EncodeAll(cs[..k])|
  }

  lemma LengthNext(cs: seq<Scalar>, k: nat)
    requires k < |cs|
    ensures Length(cs, k + 1) == Length(cs, k) + |Encode(cs[k])|
    ensures EncodeAll(cs[..k + 1]) == EncodeAll(cs[..k]) + Encode(cs[k])
    ensures EncodeAll(cs) == EncodeAll(cs[..k]) + (Encode(cs[k]) + EncodeAll(cs[k + 1..]))
  {
    assert cs[..k + 1] == cs[..k] + [cs[k]] && cs == cs[..k] + cs[k..] && cs[k..] == [cs[k]] + cs[k + 1..];
    EncodeAllAppend(cs[..k], [cs[k]]);
    EncodeAllAppend(cs[..k], cs[k..]);
    EncodeAllAppend([cs[k]], cs[k + 1..]);
    assert [cs[k]][1..] == [];
    assert EncodeAll([cs[k]]) == Encode(cs[k]) + EncodeAll([]);
  }

  lemma LengthOfAll(cs: seq<Scalar>)
    ensures Length(cs, |cs|) == |EncodeAll(cs)|
  {
    assert cs[..|cs|] == cs;
  }

  /** On a character boundary of a stream that may be cut off anywhere. */
  lemma AtBoundary(cs: seq<Scalar>, k: nat, inp: seq<byte>)
    requires k <= |cs| && IsPrefix(inp, EncodeAll(cs)) && Length(cs, k) < |inp|
    ensures k < |cs| && var n, p := |Encode(cs[k])|, Length(cs, k);
            NextOf(inp[p..]) == (if p + n <= |inp| then Char(cs[k], n, true) else Cut) && Length(cs, k + 1) == p + n
  {
    hide Encode, EncodeAll, NextOf;
    var p := Length(cs, k);
    LengthOfAll(cs);
    var e := Encode(cs[k]);
    var rest := e + EncodeAll(cs[k + 1..]);
    LengthNext(cs, k);
    assert inp[p..] == rest[..|inp| - p];
    if p + |e| <= |inp| {
      assert inp[p..] == e + rest[|e|..|inp| - p];
      NextOfEncoded(cs[k], rest[|e|..|inp| - p]);
    } else {
      assert inp[p..] == e[..|inp| - p];
      NextOfCut(cs[k], inp[p..]);
    }
  }

  // ---------- UTF-8 to ASCII and Latin 1 ----------

  datatype SingleByte = Ascii | Latin1

  /** The characters that an encoding has are those below its limit, and each is its own byte. */
  function Limit(enc: SingleByte): int
  {
    if enc.Ascii? then 0x80 else 0x100
  }

  /** The first k characters were converted. */
  ghost predicate Converted(enc: SingleByte, cs: seq<Scalar>, k: nat, inlen: nat, output: seq<byte>)
  {
    && k <= |cs| && inlen == Length(cs, k) && |output| == k
    && forall i :: 0 <= i < k ==> cs[i] < Limit(enc) && output[i] == cs[i]
  }

  /** Why the conversion of a stream stopped after k characters. */
  ghost predicate Stopped(enc: SingleByte, cs: seq<Scalar>, k: nat, inp: seq<byte>, inlen: nat, full: bool, failed: bool)
  {
    if failed then k < |cs| && cs[k] >= Limit(enc) && inlen + |Encode(cs[k])| <= |inp|
    else inlen == |inp| || full || (k < |cs| && inlen + |Encode(cs[k])| > |inp|)
  }

  /** UTF8Toascii and UTF8Toisolat1. They differ in their limit and in that only the second one rejects a bad trailing
      byte. `cs` is any sequence of characters that the input may be a part of, and `ascii` the length of any beginning
      of the input in ASCII. */
  method FromUTF8(enc: SingleByte, out: array<byte>, o: nat, outlen: nat, inp: seq<byte>, ghost cs: seq<Scalar>, ghost ascii: nat)
    returns (ret: int, written: nat, inlen: nat, ghost k: nat)
    requires o + outlen <= out.Length
    requires ascii <= |inp| && forall i :: 0 <= i < ascii ==> inp[i] < 0x80
    modifies out
    ensures written <= outlen && written <= inlen <= |inp| && (inlen > 0 ==> written > 0) && out[..o] == old(out[..o])
    ensures out[o + written..] == old(out[o + written..])
    ensures inlen >= ascii ==> written >= ascii
    ensures ret == written || (ret == -2 && inlen < |inp| && inp[inlen] >= 0x80)
    ensures IsPrefix(inp, EncodeAll(cs)) ==>
              && Converted(enc, cs, k, inlen, out[o..o + written])
              && Stopped(enc, cs, k, inp, inlen, written == outlen, ret == -2)
  {
    hide NextOf, Limit, Encode, EncodeAll, Length, Converted, Stopped;
    written, inlen, k := 0, 0, 0;
    ghost var valid := IsPrefix(inp, EncodeAll(cs));
    NothingConverted(enc, cs, inp);
    assert out[o..o] == [];
    while inlen < |inp|
      invariant written <= outlen && written <= inlen <= |inp| && (inlen > 0 ==> written > 0)
      invariant if inlen < ascii then written == inlen else written >= ascii
      invariant out[..o] == old(out[..o]) && out[o + written..] == old(out[o + written..])
      invariant valid ==> Converted(enc, cs, k, inlen, out[o..o + written])
    {
      if valid {
        ConvertedNext(enc, cs, k, inp, inlen, out[o..o + written], written == outlen);
      }
      var next := ReadChar(inp, inlen);
      HighStart(inp[inlen..], Limit(enc));
      if next.Bad? {
        return -2, written, inlen, k;
      }
      if next.Cut? {
        break;
      }
      if !next.good && enc.Latin1? {
        return -2, written, inlen, k;
      }
      if next.c >= Limit(enc) {
        return -2, written, inlen, k;
      }
      if written >= outlen {
        break;
      }
      ghost var before := out[o..o + written];
      out[o + written] := next.c;
      assert out[o..o + written + 1] == before + [next.c];
      written := written + 1;
      inlen := inlen + next.n;
      k := k + 1;
    }
    ret := written;
    if inlen == |inp| && valid {
      AllConverted(enc, cs, k, inp, inlen, written == outlen);
    }
  }

  lemma NothingConverted(enc: SingleByte, cs: seq<Scalar>, inp: seq<byte>)
    ensures Converted(enc, cs, 0, 0, [])
    ensures 0x80 <= Limit(enc) <= 0x100
  {
    assert cs[..0] == [];
  }

  lemma AllConverted(enc: SingleByte, cs: seq<Scalar>, k: nat, inp: seq<byte>, inlen: nat, full: bool)
    requires inlen == |inp|
    ensures Stopped(enc, cs, k, inp, inlen, full, false)
  {}

  /** A byte below 0x80 is a character by itself. */
  lemma HighStart(s: seq<byte>, limit: int)
    requires s != [] && limit >= 0x80
    ensures s[0] < 0x80 ==> NextOf(s) == Char(s[0], 1, true)
  {}

  /** The next step of a conversion, or the reason to stop. */
  lemma ConvertedNext(enc: SingleByte, cs: seq<Scalar>, k: nat, inp: seq<byte>, inlen: nat, output: seq<byte>, full: bool)
    requires IsPrefix(inp, EncodeAll(cs)) && Converted(enc, cs, k, inlen, output) && inlen < |inp|
    ensures match NextOf(inp[inlen..])
            case Bad => false
            case Cut => Stopped(enc, cs, k, inp, inlen, full, false)
            case Char(c, n, good) =>
              && good
              && (c >= Limit(enc) ==> Stopped(enc, cs, k, inp, inlen, full, true))
              && (full ==> Stopped(enc, cs, k, inp, inlen, full, false))
              && (c < Limit(enc) ==> Converted(enc, cs, k + 1, inlen + n, output + [c as byte]))
  {
    AtBoundary(cs, k, inp);
  }

  // ---------- Latin 1 to UTF-8 ----------

  /** One character more at the end. */
  lemma EncodeNext(inp: seq<byte>, i: nat)
    requires i < |inp|
    ensures EncodeAll(inp[..i + 1]) == EncodeAll(inp[..i]) + Encode(inp[i])
    ensures Encode(inp[i]) == if inp[i] < 0x80 then [inp[i]] else [0xC0 + inp[i] / 0x40, 0x80 + inp[i] % 0x40]
  {
    var cs: seq<Scalar> := inp;
    LengthNext(cs, i);
  }

  /** The next byte of the input, in UTF-8, goes to the output. */
  method PutLatin1(out: array<byte>, o: nat, outlen: nat, inp: seq<byte>, w: nat, i: nat) returns (written: nat, inlen: nat)
    requires o + outlen <= out.Length && i < |inp| && w + (if inp[i] < 0x80 then 1 else 2) <= outlen
    requires out[o..o + w] == EncodeAll(inp[..i])
    modifies out
    ensures written == w + (if inp[i] < 0x80 then 1 else 2) && inlen == i + 1
    ensures out[..o] == old(out[..o]) && out[o + outlen..] == old(out[o + outlen..])
    ensures out[o..o + written] == EncodeAll(inp[..inlen])
  {
    hide Encode, EncodeAll;
    EncodeNext(inp, i);
    var c := inp[i];
    ghost var before := out[o..o + w];
    if c >= 0x80 {
      out[o + w] := 0xC0 + c / 0x40;
      out[o + w + 1] := 0x80 + c % 0x40;
      written, inlen := w + 2, i + 1;
      assert out[o..o + written] == before + [0xC0 + c / 0x40, 0x80 + c % 0x40];
    } else {
      out[o + w] := c;
      written, inlen := w + 1, i + 1;
      assert out[o..o + written] == before + [c];
    }
  }

  /** isolat1ToUTF8: the output is the UTF-8 form of the bytes consumed, and of as many of them as fit. */
  method FromLatin1(out: array<byte>, o: nat, outlen: nat, inp: seq<byte>) returns (written: nat, inlen: nat)
    requires o + outlen <= out.Length
    modifies out
    ensures written <= outlen && inlen <= |inp| && out[..o] == old(out[..o]) && out[o + outlen..] == old(out[o + outlen..])
    ensures out[o..o + written] == EncodeAll(inp[..inlen])
    ensures inlen == |inp| || written + |Encode(inp[inlen])| > outlen
  {
    hide Encode, EncodeAll;
    written, inlen := 0, 0;
    var instop := |inp|;
    EmptyEncoding(inp);
    assert out[o..o] == [];
    while inlen < |inp| && written < outlen - 1
      invariant inlen <= |inp| && written <= outlen && instop <= |inp|
      invariant instop == |inp| || instop - inlen >= outlen - written
      invariant out[..o] == old(out[..o]) && out[o + outlen..] == old(out[o + outlen..])
      invariant out[o..o + written] == EncodeAll(inp[..inlen])
      decreases |inp| - inlen
    {
      ghost var start := inlen;
      if inp[inlen] >= 0x80 {
        written, inlen := PutLatin1(out, o, outlen, inp, written, inlen);
      }
      if instop - inlen > outlen - written {
        instop := inlen + (outlen - written);
      }
      while inlen < instop && inp[inlen] < 0x80
        invariant start <= inlen <= |inp| && written <= outlen && instop <= |inp|
        invariant inlen > start || (inlen < instop && inp[inlen] < 0x80)
        invariant instop == |inp| || instop - inlen >= outlen - written
        invariant instop - inlen <= outlen - written
        invariant out[..o] == old(out[..o]) && out[o + outlen..] == old(out[o + outlen..])
        invariant out[o..o + written] == EncodeAll(inp[..inlen])
      {
        written, inlen := PutLatin1(out, o, outlen, inp, written, inlen);
      }
    }
    if inlen < |inp| && written < outlen && inp[inlen] < 0x80 {
      written, inlen := PutLatin1(out, o, outlen, inp, written, inlen);
    }
    if inlen < |inp| {
      EncodeNext(inp, inlen);
    }
  }

  lemma EmptyEncoding(inp: seq<byte>)
    ensures inp[..0] == [] && EncodeAll([]) == []
  {}

  /** The way back: with room for every byte, UTF8Toisolat1 returns the Latin 1 text that isolat1ToUTF8 consumed. */
  method Latin1RoundTrip(utf8: array<byte>, latin1: array<byte>, inp: seq<byte>) returns (inlen: nat, written: nat)
    requires utf8 != latin1 && latin1.Length > |inp|
    modifies utf8, latin1
    ensures inlen <= |inp| && written <= latin1.Length && latin1[..written] == inp[..inlen]
    ensures utf8.Length >= 2 * |inp| ==> inlen == |inp|
  {
    hide Encode, EncodeAll, Length, Limit;
    var n;
    n, inlen := FromLatin1(utf8, 0, utf8.Length, inp);
    assert utf8[0..n] == utf8[..n];
    ghost var cs: seq<Scalar> := inp[..inlen];
    var ret, consumed;
    ghost var k;
    ret, written, consumed, k := FromUTF8(Latin1, latin1, 0, latin1.Length, utf8[..n], cs, 0);
    assert IsPrefix(utf8[..n], EncodeAll(cs));
    AllBack(cs, k, utf8[..n], consumed, latin1[0..written], written == latin1.Length, ret == -2);
    assert latin1[0..written] == latin1[..written];
    if inlen < |inp| {
      LatinLength(inp, inlen);
      EncodeNext(inp, inlen);
    }
  }

  lemma AllBack(cs: seq<Scalar>, k: nat, inp: seq<byte>, inlen: nat, output: seq<byte>, full: bool, failed: bool)
    requires (forall i :: 0 <= i < |cs| ==> cs[i] < 0x100) && inp == EncodeAll(cs)
    requires Converted(Latin1, cs, k, inlen, output) && Stopped(Latin1, cs, k, inp, inlen, full, failed)
    requires full ==> k > |cs|
    ensures output == cs
  {
    if k < |cs| {
      LengthNext(cs, k);
    } else {
      assert output == cs;
    }
  }

  lemma {:induction false} LatinLength(inp: seq<byte>, i: nat)
    requires i <= |inp|
    ensures |EncodeAll(inp[..i])| <= 2 * i
  {
    if i == 0 {
      EmptyEncoding(inp);
    } else {
      LatinLength(inp, i - 1);
      EncodeNext(inp, i - 1);
    }
  }
}
