/** The UTF-16LE converters of encoding.c, against sections 2.1 and 2.2 of RFC 2781. */
module Utf16 {
  import opened Octets
  import opened Utf8
  import opened Transcoding

  // ---------- UTF-16LE ----------

  /** One 16-bit unit, low byte first. */
  function Unit(u: int): (s: seq<byte>)
    requires 0 <= u < 0x1_0000
    ensures |s| == 2
  {
    [u % 0x100, u / 0x100]
  }

  /** The unit that two bytes stand for. */
  function Value(lo: byte, hi: byte): (u: int)
    ensures 0 <= u < 0x1_0000
  {
    hi * 0x100 + lo
  }

  function High(c: int): (u: int)
    requires 0x1_0000 <= c < 0x11_0000
    ensures 0xD800 <= u < 0xDC00
  {
    0xD800 + (c - 0x1_0000) / 0x400
  }

  function Low(c: int): (u: int)
    requires 0x1_0000 <= c < 0x11_0000
    ensures 0xDC00 <= u < 0xE000
  {
    0xDC00 + (c - 0x1_0000) % 0x400
  }

  function Units(c: Scalar): (s: seq<byte>)
    ensures |s| == 2 || |s| == 4
  {
    if c < 0x1_0000 then Unit(c) else Unit(High(c)) + Unit(Low(c))
  }

  function UnitsAll(cs: seq<Scalar>): seq<byte>
  {
    if cs == [] then [] else Units(cs[0]) + UnitsAll(cs[1..])
  }

  lemma {:induction false} UnitsAllAppend(a: seq<Scalar>, b: seq<Scalar>)
    ensures UnitsAll(a + b) == UnitsAll(a) + UnitsAll(b)
  {
    if a == [] {
      assert a + b == b;
    } else {
      assert (a + b)[1..] == a[1..] + b;
      UnitsAllAppend(a[1..], b);
    }
  }

  lemma UnitsNext(cs: seq<Scalar>, k: nat)
    requires k < |cs|
    ensures UnitsAll(cs[..k + 1]) == UnitsAll(cs[..k]) + Units(cs[k])
    ensures UnitsAll(cs) == UnitsAll(cs[..k]) + (Units(cs[k]) + UnitsAll(cs[k + 1..]))
  {
    hide UnitsAll, Units;
    assert cs[..k + 1] == cs[..k] + [cs[k]] && cs == cs[..k] + ([cs[k]] + cs[k + 1..]);
    UnitsAllAppend(cs[..k], [cs[k]]);
    UnitsAllAppend(cs[..k], [cs[k]] + cs[k + 1..]);
    UnitsAllAppend([cs[k]], cs[k + 1..]);
    UnitsOne(cs[k]);
  }

  lemma UnitsOne(c: Scalar)
    ensures UnitsAll([c]) == Units(c)
  {
    assert [c][1..] == [] && UnitsAll([]) == [];
  }

  // ---------- UTF-8 to UTF-16LE ----------

  /** The first k characters were transcoded. */
  ghost predicate ToUnits(cs: seq<Scalar>, k: nat, inlen: nat, output: seq<byte>)
  {
    k <= |cs| && inlen == Length(cs, k) && output == UnitsAll(cs[..k])
  }

  /** All input is used, or the next character is cut off or does not fit. */
  ghost predicate ToUnitsStopped(cs: seq<Scalar>, k: nat, inp: seq<byte>, inlen: nat, written: nat, outlen: nat)
  {
    inlen == |inp|
    || (k < |cs| && (inlen + |Encode(cs[k])| > |inp| || written + |Units(cs[k])| > outlen / 2 * 2))
  }

  method PutUnit(out: array<byte>, pos: nat, u: int)
    requires pos + 2 <= out.Length && 0 <= u < 0x1_0000
    modifies out
    ensures out[..pos] == old(out[..pos]) && out[pos..pos + 2] == Unit(u)
  {
    out[pos] := u % 0x100;
    out[pos + 1] := u / 0x100;
  }

  method PutPair(out: array<byte>, pos: nat, c: int)
    requires pos + 4 <= out.Length && 0x1_0000 <= c < 0x11_0000
    modifies out
    ensures out[..pos] == old(out[..pos]) && out[pos..pos + 4] == Unit(High(c)) + Unit(Low(c))
  {
    hide Unit, High, Low;
    PutUnit(out, pos, High(c));
    ghost var before := out[..pos + 2];
    assert before[..pos] == old(out[..pos]) && before[pos..] == Unit(High(c));
    PutUnit(out, pos + 2, Low(c));
    assert out[..pos + 4] == before + Unit(Low(c));
  }

  /** UTF8ToUTF16LE */
  method FromUTF8ToUnits(out: array<byte>, o: nat, outlen: nat, inp: seq<byte>, ghost cs: seq<Scalar>)
    returns (ret: int, written: nat, inlen: nat, ghost k: nat)
    requires o + outlen <= out.Length
    modifies out
    ensures written <= outlen && inlen <= |inp| && out[..o] == old(out[..o]) && (ret == written || ret == -2)
    ensures IsPrefix(inp, EncodeAll(cs)) ==>
              && ret == written && ToUnits(cs, k, inlen, out[o..o + written])
              && ToUnitsStopped(cs, k, inp, inlen, written, outlen)
  {
    hide NextOf, Encode, EncodeAll, Length, Units, UnitsAll, ToUnits, ToUnitsStopped, Unit, High, Low;
    written, inlen, k := 0, 0, 0;
    ghost var valid := IsPrefix(inp, EncodeAll(cs));
    NoUnits(cs);
    assert out[o..o] == [];
    while inlen < |inp|
      invariant written <= outlen && written % 2 == 0 && inlen <= |inp|
      invariant out[..o] == old(out[..o])
      invariant valid ==> ToUnits(cs, k, inlen, out[o..o + written])
    {
      if valid {
        ToUnitsNext(cs, k, inp, inlen, out[o..o + written], outlen);
      }
      var next := ReadChar(inp, inlen);
      if next.Bad? {
        return -2, written, inlen, k;
      }
      if next.Cut? {
        break;
      }
      ghost var before := out[o..o + written];
      if next.c < 0x1_0000 {
        if written / 2 >= outlen / 2 {
          break;
        }
        PutUnit(out, o + written, next.c);
        assert out[..o + written][o..] == before;
        assert out[o..o + written + 2] == before + Unit(next.c);
        written := written + 2;
      } else if next.c < 0x11_0000 {
        if written / 2 + 1 >= outlen / 2 {
          break;
        }
        PutPair(out, o + written, next.c);
        assert out[..o + written][o..] == before;
        assert out[o..o + written + 4] == before + (Unit(High(next.c)) + Unit(Low(next.c)));
        written := written + 4;
      } else {
        break;
      }
      inlen := inlen + next.n;
      k := k + 1;
    }
    ret := written;
    if inlen == |inp| && valid {
      AllUsed(cs, k, inp, inlen, written, outlen);
    }
  }

  lemma NoUnits(cs: seq<Scalar>)
    ensures ToUnits(cs, 0, 0, [])
  {
    assert cs[..0] == [];
  }

  lemma AllUsed(cs: seq<Scalar>, k: nat, inp: seq<byte>, inlen: nat, written: nat, outlen: nat)
    requires inlen == |inp|
    ensures ToUnitsStopped(cs, k, inp, inlen, written, outlen)
  {}

  lemma ToUnitsNext(cs: seq<Scalar>, k: nat, inp: seq<byte>, inlen: nat, output: seq<byte>, outlen: nat)
    requires IsPrefix(inp, EncodeAll(cs)) && ToUnits(cs, k, inlen, output) && inlen < |inp|
    ensures match NextOf(inp[inlen..])
            case Bad => false
            case Cut => ToUnitsStopped(cs, k, inp, inlen, |output|, outlen)
            case Char(c, n, good) =>
              && c < 0x11_0000
              && (if c < 0x1_0000 then ToUnits(cs, k + 1, inlen + n, output + Unit(c))
                  else ToUnits(cs, k + 1, inlen + n, output + (Unit(High(c)) + Unit(Low(c)))))
              && (|output| + (if c < 0x1_0000 then 2 else 4) > outlen / 2 * 2 ==>
                    ToUnitsStopped(cs, k, inp, inlen, |output|, outlen))
  {
    hide NextOf, Encode, EncodeAll, Unit;
    AtBoundary(cs, k, inp);
    UnitsNext(cs, k);
  }

  // ---------- UTF-16LE to UTF-8 ----------

  /** The first k characters were transcoded. */
  ghost predicate FromUnits(cs: seq<Scalar>, k: nat, inlen: nat, output: seq<byte>)
  {
    k <= |cs| && inlen == |UnitsAll(cs[..k])| && output == EncodeAll(cs[..k])
  }

  /** All input is used, or the next character is cut off, or fewer than six bytes are free. */
  ghost predicate FromUnitsStopped(cs: seq<Scalar>, k: nat, inp: seq<byte>, inlen: nat, written: nat, outlen: nat)
  {
    inlen == |inp| || written + 5 >= outlen || (k < |cs| && inlen + |Units(cs[k])| > |inp|)
  }

  /** The bytes of one code point. */
  method PutChar(out: array<byte>, pos: nat, c: nat) returns (n: nat)
    requires pos + 4 <= out.Length && c < 0x11_0000
    modifies out
    ensures 1 <= n <= 4 && out[..pos] == old(out[..pos])
    ensures (c < 0xD800 || c >= 0xE000) ==> out[pos..pos + n] == Encode(c)
  {
    var bits;
    if c < 0x80 {
      out[pos], bits := c, -6;
    } else if c < 0x800 {
      out[pos], bits := 0xC0 + c / 0x40, 0;
    } else if c < 0x1_0000 {
      out[pos], bits := 0xE0 + c / 0x1000, 6;
    } else {
      out[pos], bits := 0xF0 + c / 0x4_0000, 12;
    }
    n := 1;
    if bits >= 12 {
      out[pos + n] := 0x80 + c / 0x1000 % 0x40;
      n := n + 1;
    }
    if bits >= 6 {
      out[pos + n] := 0x80 + c / 0x40 % 0x40;
      n := n + 1;
    }
    if bits >= 0 {
      out[pos + n] := 0x80 + c % 0x40;
      n := n + 1;
    }
  }

  /** The condition of the loop that there are six bytes left, and the next character of a stream. */
  lemma FromUnitsNext(cs: seq<Scalar>, k: nat, inp: seq<byte>, inlen: nat, output: seq<byte>, outlen: nat)
    requires IsPrefix(inp, UnitsAll(cs)) && FromUnits(cs, k, inlen, output) && inlen + 2 <= |inp|
    ensures k < |cs| && var c, u := cs[k], Value(inp[inlen], inp[inlen + 1]);
            if 0xD800 <= u < 0xDC00 then
              if inlen + 4 > |inp| then FromUnitsStopped(cs, k, inp, inlen, |output|, outlen)
              else
                var d := Value(inp[inlen + 2], inp[inlen + 3]);
                0xDC00 <= d < 0xE000 && c == 0x1_0000 + u % 0x400 * 0x400 + d % 0x400
                && FromUnits(cs, k + 1, inlen + 4, output + Encode(c))
            else u == c && FromUnits(cs, k + 1, inlen + 2, output + Encode(c))
  {
    hide Encode, EncodeAll, Units, UnitsAll, Value, High, Low;
    UnitsBoundary(cs, k, inp);
    UnitsNext(cs, k);
    LengthNext(cs, k);
    UnitsValue(cs[k]);
  }

  lemma UnitsBoundary(cs: seq<Scalar>, k: nat, inp: seq<byte>)
    requires k <= |cs| && IsPrefix(inp, UnitsAll(cs)) && |UnitsAll(cs[..k])| < |inp|
    ensures k < |cs|
    ensures var p, u := |UnitsAll(cs[..k])|, Units(cs[k]);
            forall i :: 0 <= i < |u| && p + i < |inp| ==> inp[p + i] == u[i]
  {
    hide Units, UnitsAll;
    AllUnits(cs);
    UnitsNext(cs, k);
    var all := UnitsAll(cs);
    assert forall i :: 0 <= i < |inp| ==> inp[i] == all[i];
  }

  lemma AllUnits(cs: seq<Scalar>)
    ensures UnitsAll(cs[..|cs|]) == UnitsAll(cs)
  {
    assert cs[..|cs|] == cs;
  }

  lemma UnitsValue(c: Scalar)
    ensures var u := Units(c);
            if c < 0x1_0000 then |u| == 2 && Value(u[0], u[1]) == c && !(0xD800 <= c < 0xE000)
            else
              && |u| == 4
              && Value(u[0], u[1]) == High(c) && Value(u[2], u[3]) == Low(c)
              && c == 0x1_0000 + High(c) % 0x400 * 0x400 + Low(c) % 0x400
  {
    if c >= 0x1_0000 {
      UnitValue(High(c));
      UnitValue(Low(c));
      PairValue(c);
    } else {
      UnitValue(c);
    }
  }

  lemma UnitValue(u: int)
    requires 0 <= u < 0x1_0000
    ensures Value(Unit(u)[0], Unit(u)[1]) == u
  {}

  lemma PairValue(c: int)
    requires 0x1_0000 <= c < 0x11_0000
    ensures c == 0x1_0000 + High(c) % 0x400 * 0x400 + Low(c) % 0x400
  {
    var n := c - 0x1_0000;
    assert n == n / 0x400 * 0x400 + n % 0x400 && 0 <= n / 0x400 < 0x400;
    assert High(c) % 0x400 == n / 0x400 && Low(c) % 0x400 == n % 0x400;
  }

  /** UTF16LEToUTF8 */
  method FromUnitsToUTF8(out: array<byte>, o: nat, outlen: nat, inb: seq<byte>, ghost cs: seq<Scalar>)
    returns (ret: int, written: nat, inlen: nat, ghost k: nat)
    requires o + outlen <= out.Length
    modifies out
    ensures written <= outlen && inlen <= |inb| && inlen % 2 == 0 && out[..o] == old(out[..o]) && (ret == written || ret == -2)
    ensures IsPrefix(inb, UnitsAll(cs)) ==>
              && ret == written && FromUnits(cs, k, inlen, out[o..o + written])
              && FromUnitsStopped(cs, k, inb[..|inb| - |inb| % 2], inlen, written, outlen)
  {
    hide Encode, EncodeAll, Units, UnitsAll, FromUnits, FromUnitsStopped, Value;
    written, inlen, k := 0, 0, 0;
    var inend := |inb| - |inb| % 2;
    ghost var inp := inb[..inend];
    ghost var valid := IsPrefix(inb, UnitsAll(cs));
    NothingYet(cs);
    assert out[o..o] == [];
    while inlen < inend && written + 5 < outlen
      invariant inlen <= inend && inlen % 2 == 0 && written <= outlen
      invariant out[..o] == old(out[..o])
      invariant valid ==> FromUnits(cs, k, inlen, out[o..o + written])
    {
      if valid {
        FromUnitsNext(cs, k, inp, inlen, out[o..o + written], outlen);
      }
      var c := Value(inb[inlen], inb[inlen + 1]);
      var next := inlen + 2;
      if 0xD800 <= c < 0xDC00 {
        if next >= inend {
          break;
        }
        var d := Value(inb[next], inb[next + 1]);
        next := next + 2;
        if 0xDC00 <= d < 0xE000 {
          c := 0x1_0000 + c % 0x400 * 0x400 + d % 0x400;
        } else {
          return -2, written, inlen, k;
        }
      }
      ghost var before := out[o..o + written];
      var n := PutChar(out, o + written, c);
      assert out[o..o + written] == before;
      assert out[o..o + written + n] == before + out[o + written..o + written + n];
      written := written + n;
      inlen := next;
      k := k + 1;
    }
    ret := written;
    if valid && (inlen == inend || written + 5 >= outlen) {
      NoMoreUnits(cs, k, inp, inlen, written, outlen);
    }
  }

  lemma NothingYet(cs: seq<Scalar>)
    ensures FromUnits(cs, 0, 0, [])
  {
    assert cs[..0] == [];
  }

  lemma NoMoreUnits(cs: seq<Scalar>, k: nat, inp: seq<byte>, inlen: nat, written: nat, outlen: nat)
    requires inlen == |inp| || written + 5 >= outlen
    ensures FromUnitsStopped(cs, k, inp, inlen, written, outlen)
  {}
}
