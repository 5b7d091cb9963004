/** Encodings and references spelled out: bit values, digits and characters, without the functions that compute them. */
module Spelling {
  import opened Octets
  import opened Common
  import opened Utf8
  import opened Utf16
  import opened References

  // ---------- UTF-8 and UTF-16LE ----------

  predicate IsTrailing(b: byte)
  {
    0x80 <= b < 0xC0
  }

  /** s is the UTF-8 form of c, section 3 of RFC 3629: the length follows from the value, and the value is the sum of what
      the bytes carry. */
  predicate IsUtf8Of(c: int, s: seq<byte>)
  {
    && (forall i :: 1 <= i < |s| ==> IsTrailing(s[i]))
    && ((c < 0x80 && |s| == 1 && s[0] == c)
        || (0x80 <= c < 0x800 && |s| == 2 && c == (s[0] as int - 0xC0) * 64 + (s[1] as int - 0x80))
        || (0x800 <= c < 0x1_0000 && |s| == 3 && c == (s[0] as int - 0xE0) * 4096 + (s[1] as int - 0x80) * 64 + (s[2] as int - 0x80))
        || (0x1_0000 <= c < 0x11_0000 && |s| == 4
            && c == (s[0] as int - 0xF0) * 262144 + (s[1] as int - 0x80) * 4096 + (s[2] as int - 0x80) * 64 + (s[3] as int - 0x80)))
  }

  /** Encode gives the UTF-8 form, and there is no other. */
  lemma EncodeIsUtf8(c: Scalar, s: seq<byte>)
    ensures s == Encode(c) <==> IsUtf8Of(c, s)
  {
    if 0x80 <= c < 0x800 {
      TwoBytes(c, s);
    } else if 0x800 <= c < 0x1_0000 {
      ThreeBytes(c, s);
    } else if 0x1_0000 <= c {
      FourBytes(c, s);
    }
  }

  lemma AtLeast(k: int, d: int)
    requires k >= 1 && d > 0
    ensures k * d >= d
  {
  }

  lemma Split(c: int, d: int, q: int, r: int)
    requires d > 0 && 0 <= r < d
    ensures c == q * d + r <==> q == c / d && r == c % d
  {
    if c == q * d + r {
      var k := c / d - q;
      assert k * d == c / d * d - q * d && (-k) * d == -(k * d);
      if k >= 1 {
        AtLeast(k, d);
      } else if k <= -1 {
        AtLeast(-k, d);
      }
    }
  }

  lemma TwoBytes(c: Scalar, s: seq<byte>)
    requires 0x80 <= c < 0x800
    ensures s == Encode(c) <==> IsUtf8Of(c, s)
  {
    if |s| == 2 && IsTrailing(s[1]) {
      Split(c, 64, s[0] as int - 0xC0, s[1] as int - 0x80);
    }
  }

  lemma ThreeBytes(c: Scalar, s: seq<byte>)
    requires 0x800 <= c < 0x1_0000
    ensures s == Encode(c) <==> IsUtf8Of(c, s)
  {
    if |s| == 3 && IsTrailing(s[1]) && IsTrailing(s[2]) {
      Split(c, 64, (s[0] as int - 0xE0) * 64 + (s[1] as int - 0x80), s[2] as int - 0x80);
      Split(c / 64, 64, s[0] as int - 0xE0, s[1] as int - 0x80);
    }
  }

  lemma FourBytes(c: Scalar, s: seq<byte>)
    requires 0x1_0000 <= c
    ensures s == Encode(c) <==> IsUtf8Of(c, s)
  {
    if |s| == 4 && IsTrailing(s[1]) && IsTrailing(s[2]) && IsTrailing(s[3]) {
      Split(c, 64, (s[0] as int - 0xF0) * 4096 + (s[1] as int - 0x80) * 64 + (s[2] as int - 0x80), s[3] as int - 0x80);
      Split(c / 64, 64, (s[0] as int - 0xF0) * 64 + (s[1] as int - 0x80), s[2] as int - 0x80);
      Split(c / 4096, 64, s[0] as int - 0xF0, s[1] as int - 0x80);
    }
  }

  /** The unit at an even position, low byte first. */
  function UnitAt(s: seq<byte>, i: nat): int
    requires i + 1 < |s|
  {
    s[i] as int + 256 * s[i + 1] as int
  }

  /** s is the UTF-16LE form of c, section 2.1 of RFC 2781. */
  predicate IsUtf16Of(c: int, s: seq<byte>)
  {
    if c < 0x1_0000 then |s| == 2 && UnitAt(s, 0) == c
    else
      |s| == 4 && 0xD800 <= UnitAt(s, 0) < 0xDC00 && 0xDC00 <= UnitAt(s, 2) < 0xE000
      && c == 0x1_0000 + (UnitAt(s, 0) - 0xD800) * 1024 + (UnitAt(s, 2) - 0xDC00)
  }

  lemma UnitsAreUtf16(c: Scalar, s: seq<byte>)
    ensures s == Units(c) <==> IsUtf16Of(c, s)
  {
    if c < 0x1_0000 {
      if |s| == 2 {
        Split(c, 256, s[1], s[0]);
      }
    } else if |s| == 4 {
      Split(High(c), 256, s[1], s[0]);
      Split(Low(c), 256, s[3], s[2]);
      if 0xDC00 <= UnitAt(s, 2) < 0xE000 {
        Split(c - 0x1_0000, 1024, UnitAt(s, 0) - 0xD800, UnitAt(s, 2) - 0xDC00);
      }
    }
  }

  // ---------- numerals ----------

  /** What a digit counts; -1 for other characters. Lower-case digits are never written. */
  function DigitCounts(b: byte): int
  {
    if 48 <= b <= 57 then b - 48 else if 65 <= b <= 70 then b - 55 else -1
  }

  /** The number that digits stand for, by place value. */
  function PlaceValue(s: seq<byte>, radix: nat): int
  {
    if s == [] then 0 else PlaceValue(s[..|s| - 1], radix) * radix + DigitCounts(s[|s| - 1])
  }

  lemma DigitMeans(n: nat)
    requires n < 16
    ensures DigitCounts(Digit(n)) == n && (Digit(n) == 48 <==> n == 0)
  {}

  lemma OneDigitMore(s: seq<byte>, b: byte, radix: nat)
    ensures PlaceValue(s + [b], radix) == PlaceValue(s, radix) * radix + DigitCounts(b)
  {
    assert (s + [b])[..|s|] == s;
  }

  predicate StandsFor(s: seq<byte>, n: nat, radix: nat)
  {
    && s != [] && (forall i :: 0 <= i < |s| ==> 0 <= DigitCounts(s[i]) < radix)
    && PlaceValue(s, radix) == n && (n > 0 ==> s[0] != 48) && (n == 0 ==> s == [48])
  }

  lemma OneDigit(n: nat, radix: nat)
    requires n < radix <= 16
    ensures StandsFor([Digit(n)], n, radix)
  {
    DigitMeans(n);
    OneDigitMore([], Digit(n), radix);
    assert [] + [Digit(n)] == [Digit(n)];
  }

  lemma NextDigit(s: seq<byte>, q: nat, r: nat, radix: nat)
    requires StandsFor(s, q, radix) && q > 0 && r < radix <= 16
    ensures StandsFor(s + [Digit(r)], q * radix + r, radix)
  {
    hide Digit, DigitCounts, PlaceValue;
    DigitMeans(r);
    OneDigitMore(s, Digit(r), radix);
    assert q * radix >= 0;
    assert (s + [Digit(r)])[0] == s[0];
    assert q * radix + r > 0 by { AtLeast(q, radix); }
  }

  /** A numeral consists of digits of the radix, without leading zeros, and stands for the number. */
  lemma {:induction false} NumeralStandsFor(n: nat, radix: Radix)
    ensures StandsFor(Numeral(n, radix), n, radix)
  {
    hide StandsFor, Digit;
    if n < radix {
      OneDigit(n, radix);
    } else {
      NumeralStandsFor(n / radix, radix);
      NextDigit(Numeral(n / radix, radix), n / radix, n % radix, radix);
    }
  }

  // ---------- references ----------

  lemma NamesSpelledOut()
    ensures LT_REF == BytesOf("&lt;") && GT_REF == BytesOf("&gt;")
    ensures AMP_REF == BytesOf("&amp;") && QUOT_REF == BytesOf("&quot;")
  {
  }

  lemma Signs()
    ensures BytesOf("&#") == [AMP, HASH] && BytesOf("&#x") == [AMP, HASH, LOWER_X] && BytesOf(";") == [SEMI]
  {
  }

  lemma ReferencesSpelledOut(n: nat)
    ensures DecimalRef(n) == BytesOf("&#") + Numeral(n, 10) + BytesOf(";")
    ensures HexRef(n) == BytesOf("&#x") + Numeral(n, 16) + BytesOf(";")
  {
    hide BytesOf, Numeral;
    Signs();
  }

  /** What the references of a text are replaced by, sections 4.4.2 and 4.6 of XML 1.0. */
  lemma NamedSpelledOut(rest: seq<byte>)
    ensures Expand([]) == []
    ensures Expand(BytesOf("&lt;") + rest) == BytesOf("<") + Expand(rest)
    ensures Expand(BytesOf("&gt;") + rest) == BytesOf(">") + Expand(rest)
    ensures Expand(BytesOf("&amp;") + rest) == BytesOf("&") + Expand(rest)
    ensures Expand(BytesOf("&quot;") + rest) == BytesOf("\"") + Expand(rest)
  {
    hide Expand;
    NothingExpands();
    NamesSpelledOut();
    ExpandNamed(rest);
  }

  lemma NothingExpands()
    ensures Expand([]) == []
  {
  }

  lemma NumericSpelledOut(c: Scalar, rest: seq<byte>)
    ensures Expand(BytesOf("&#") + Numeral(c, 10) + BytesOf(";") + rest) == Encode(c) + Expand(rest)
    ensures Expand(BytesOf("&#x") + Numeral(c, 16) + BytesOf(";") + rest) == Encode(c) + Expand(rest)
  {
    hide Expand, Encode, Numeral, BytesOf, DecimalRef, HexRef;
    ReferencesSpelledOut(c);
    ExpandDecimal(c, rest);
    ExpandHex(c, rest);
  }

  lemma OtherSpelledOut(b: byte, rest: seq<byte>)
    requires b as char != '&'
    ensures Expand([b] + rest) == [b] + Expand(rest)
  {
    ExpandPlain(b, rest);
  }
}
