/** Character and predefined entity references of XML 1.0 (sections 4.1 and 4.6), and their expansion. */
module References {
  import opened Octets
  import opened Common
  import opened Utf8

  const AMP: byte := 38
  const SEMI: byte := 59
  const HASH: byte := 35
  const LOWER_X: byte := 120

  const AMP_REF: seq<byte> := [38, 97, 109, 112, 59]        // &amp;
  const LT_REF: seq<byte> := [38, 108, 116, 59]             // &lt;
  const GT_REF: seq<byte> := [38, 103, 116, 59]             // &gt;
  const QUOT_REF: seq<byte> := [38, 113, 117, 111, 116, 59] // &quot;

  // ---------- numerals ----------

  type Radix = b: int | b == 10 || b == 16 witness 10

  /** A digit as printf writes it with %d or %X. */
  function Digit(d: int): byte
    requires 0 <= d < 16
  {
    if d < 10 then 48 + d else 55 + d
  }

  function Numeral(n: nat, radix: Radix): (s: seq<byte>)
    ensures s != []
  {
    if n < radix then [Digit(n)] else Numeral(n / radix, radix) + [Digit(n % radix)]
  }

  predicate IsDigit(c: byte, radix: Radix)
  {
    48 <= c <= 57 || (radix == 16 && (65 <= c <= 70 || 97 <= c <= 102))
  }

  function DigitValue(c: byte): int
    requires IsDigit(c, 16)
  {
    if c <= 57 then c - 48 else if c <= 70 then c - 55 else c - 87
  }

  /** Reads the longest run of digits: the value with `acc` in front, and the text after the run. */
  function ReadNumeral(s: seq<byte>, radix: Radix, acc: nat): (r: (nat, seq<byte>))
    ensures |r.1| <= |s|
  {
    if s == [] || !IsDigit(s[0], radix) then (acc, s)
    else ReadNumeral(s[1..], radix, acc * radix + DigitValue(s[0]))
  }

  lemma {:induction false} ReadNumeralBack(n: nat, radix: Radix, rest: seq<byte>)
    ensures ReadNumeral(Numeral(n, radix) + rest, radix, 0) == ReadNumeral(rest, radix, n)
  {
    if n < radix {
      assert ([Digit(n)] + rest)[1..] == rest;
    } else {
      var d := [Digit(n % radix)];
      assert Numeral(n, radix) + rest == Numeral(n / radix, radix) + (d + rest);
      ReadNumeralBack(n / radix, radix, d + rest);
      assert (d + rest)[1..] == rest;
      assert n == n / radix * radix + n % radix;
    }
  }

  lemma {:induction false} NumeralShape(n: nat, radix: Radix)
    ensures forall i :: 0 <= i < |Numeral(n, radix)| ==> IsDigit(Numeral(n, radix)[i], radix) && Numeral(n, radix)[i] < 0x80
  {
    if n >= radix {
      NumeralShape(n / radix, radix);
    }
  }

  lemma NumeralLength(n: nat, radix: Radix)
    ensures n < radix ==> |Numeral(n, radix)| == 1
    ensures radix <= n ==> |Numeral(n, radix)| == 1 + |Numeral(n / radix, radix)|
  {
  }

  function DecimalRef(n: nat): seq<byte>
  {
    [AMP, HASH] + Numeral(n, 10) + [SEMI]
  }

  function HexRef(n: nat): seq<byte>
  {
    [AMP, HASH, LOWER_X] + Numeral(n, 16) + [SEMI]
  }

  // ---------- expansion ----------

  predicate IsScalar(n: int)
  {
    0 <= n < 0xD800 || 0xE000 <= n < 0x11_0000
  }

  /** Replaces every well-formed reference; an ampersand that begins none is kept. */
  function Expand(s: seq<byte>): seq<byte>
    decreases |s|
  {
    if s == [] then []
    else if s[0] != AMP then [s[0]] + Expand(s[1..])
    else if StartsWith(s, LT_REF) then [60] + Expand(s[4..])
    else if StartsWith(s, GT_REF) then [62] + Expand(s[4..])
    else if StartsWith(s, AMP_REF) then [AMP] + Expand(s[5..])
    else if StartsWith(s, QUOT_REF) then [34] + Expand(s[6..])
    else if StartsWith(s, [AMP, HASH]) then
      var hex := StartsWith(s, [AMP, HASH, LOWER_X]);
      var r := if hex then ReadNumeral(s[3..], 16, 0) else ReadNumeral(s[2..], 10, 0);
      if r.1 != [] && r.1[0] == SEMI && IsScalar(r.0) then Encode(r.0) + Expand(r.1[1..])
      else [s[0]] + Expand(s[1..])
    else [s[0]] + Expand(s[1..])
  }

  lemma ExpandPlain(c: byte, rest: seq<byte>)
    requires c != AMP
    ensures Expand([c] + rest) == [c] + Expand(rest)
  {
    assert ([c] + rest)[1..] == rest;
  }

  lemma ExpandNamed(rest: seq<byte>)
    ensures Expand(LT_REF + rest) == [60] + Expand(rest)
    ensures Expand(GT_REF + rest) == [62] + Expand(rest)
    ensures Expand(AMP_REF + rest) == [AMP] + Expand(rest)
    ensures Expand(QUOT_REF + rest) == [34] + Expand(rest)
  {
    Prefix(LT_REF, rest);
    Prefix(GT_REF, rest);
    Prefix(AMP_REF, rest);
    Prefix(QUOT_REF, rest);
  }

  lemma Prefix(p: seq<byte>, rest: seq<byte>)
    ensures StartsWith(p + rest, p) && (p + rest)[|p|..] == rest
    ensures forall i :: 0 <= i < |p| ==> (p + rest)[i] == p[i]
  {
  }

  /** A numeric reference is not one of the named ones. */
  lemma HashSecond(s: seq<byte>)
    requires |s| >= 2 && s[0] == AMP && s[1] == HASH
    ensures !StartsWith(s, LT_REF) && !StartsWith(s, GT_REF) && !StartsWith(s, AMP_REF) && !StartsWith(s, QUOT_REF)
    ensures StartsWith(s, [AMP, HASH])
  {
  }

  lemma ExpandDecimal(c: Scalar, rest: seq<byte>)
    ensures Expand(DecimalRef(c) + rest) == Encode(c) + Expand(rest)
  {
    var s := DecimalRef(c) + rest;
    HashSecond(s);
    var tail := [SEMI] + rest;
    assert s[2..] == Numeral(c, 10) + tail;
    NumeralShape(c, 10);
    assert s[2] == Numeral(c, 10)[0];
    assert !StartsWith(s, [AMP, HASH, LOWER_X]) by {
      assert s[..3][2] == s[2];
    }
    ReadNumeralBack(c, 10, tail);
    assert tail[1..] == rest;
  }

  lemma ExpandHex(c: Scalar, rest: seq<byte>)
    ensures Expand(HexRef(c) + rest) == Encode(c) + Expand(rest)
  {
    var s := HexRef(c) + rest;
    HashSecond(s);
    var tail := [SEMI] + rest;
    assert s[3..] == Numeral(c, 16) + tail;
    assert StartsWith(s, [AMP, HASH, LOWER_X]);
    ReadNumeralBack(c, 16, tail);
    assert tail[1..] == rest;
  }
}
