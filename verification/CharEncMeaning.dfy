/** The character references that xmlCharEncOutput puts in do not change what the text means. */
module CharEncMeaning {
  import opened Common
  import opened Octets
  import opened Utf8
  import opened References
  import opened Transcoding
  import opened CharEncOutput

  /** The text as it would be in UTF-8, and as ASCII with references. */
  function Plain(cs: seq<Scalar>): seq<byte>
  {
    EncodeAll(cs)
  }

  function Safe(cs: seq<Scalar>): seq<byte>
  {
    SubstituteAll(Ascii, cs)
  }

  /** Both begin with the first character if that is ASCII; otherwise with an ampersand, and with a byte above ASCII. */
  lemma Beginnings(cs: seq<Scalar>)
    ensures cs == [] ==> Plain(cs) == [] && Safe(cs) == []
    ensures cs != [] && cs[0] < 0x80 ==> Plain(cs) == [cs[0]] + Plain(cs[1..]) && Safe(cs) == [cs[0]] + Safe(cs[1..])
    ensures cs != [] && cs[0] >= 0x80 ==>
              && Plain(cs) != [] && Plain(cs)[0] >= 0x80 && Plain(cs) == Encode(cs[0]) + Plain(cs[1..])
              && Safe(cs) != [] && Safe(cs)[0] == AMP && Safe(cs) == DecimalRef(cs[0]) + Safe(cs[1..])
  {}

  /** Any reference of XML's own is there in both or in neither. */
  lemma {:induction false} SamePrefix(cs: seq<Scalar>, p: seq<byte>)
    requires forall i :: 0 <= i < |p| ==> p[i] < 0x80 && p[i] != AMP
    ensures StartsWith(Plain(cs), p) <==> StartsWith(Safe(cs), p)
    ensures StartsWith(Plain(cs), p) ==>
              |p| <= |cs| && Plain(cs)[|p|..] == Plain(cs[|p|..]) && Safe(cs)[|p|..] == Safe(cs[|p|..])
  {
    hide Plain, Safe;
    Beginnings(cs);
    if p != [] && cs != [] && cs[0] < 0x80 {
      SamePrefix(cs[1..], p[1..]);
      PrefixStep(Plain(cs), Plain(cs[1..]), cs[0], p);
      PrefixStep(Safe(cs), Safe(cs[1..]), cs[0], p);
      if StartsWith(Plain(cs), p) {
        assert cs[|p|..] == cs[1..][|p| - 1..];
      }
    }
  }

  lemma PrefixStep(s: seq<byte>, rest: seq<byte>, c: byte, p: seq<byte>)
    requires s == [c] + rest && p != []
    ensures StartsWith(s, p) <==> c == p[0] && StartsWith(rest, p[1..])
    ensures StartsWith(s, p) ==> s[|p|..] == rest[|p| - 1..]
  {
    if StartsWith(s, p) {
      assert p[0] == s[..|p|][0];
      assert rest[..|p| - 1] == s[..|p|][1..];
    }
    if c == p[0] && StartsWith(rest, p[1..]) {
      assert s[..|p|] == [c] + rest[..|p| - 1];
    }
  }

  /** A run of digits is the same in both. */
  lemma {:induction false} SameNumeral(cs: seq<Scalar>, radix: Radix, acc: nat) returns (j: nat)
    ensures j <= |cs|
    ensures ReadNumeral(Plain(cs), radix, acc).1 == Plain(cs[j..]) && ReadNumeral(Safe(cs), radix, acc).1 == Safe(cs[j..])
    ensures ReadNumeral(Plain(cs), radix, acc).0 == ReadNumeral(Safe(cs), radix, acc).0
    decreases |cs|
  {
    hide Plain, Safe, Encode, DecimalRef;
    Beginnings(cs);
    j := 0;
    if cs != [] && cs[0] < 0x80 && IsDigit(cs[0], radix) {
      var plain, safe := Plain(cs), Safe(cs);
      assert plain[1..] == Plain(cs[1..]) && safe[1..] == Safe(cs[1..]);
      j := SameNumeral(cs[1..], radix, acc * radix + DigitValue(cs[0]));
      assert cs[1..][j..] == cs[j + 1..];
      j := j + 1;
    }
  }

  lemma {:induction false} ExpandHigh(s: seq<byte>, rest: seq<byte>)
    requires forall i :: 0 <= i < |s| ==> s[i] != AMP
    ensures Expand(s + rest) == s + Expand(rest)
  {
    if s == [] {
      assert s + rest == rest;
    } else {
      ExpandHigh(s[1..], rest);
      assert s + rest == [s[0]] + (s[1..] + rest);
      ExpandPlain(s[0], s[1..] + rest);
    }
  }

  lemma EncodeHasNoAmp(c: Scalar)
    requires c >= 0x80
    ensures forall i :: 0 <= i < |Encode(c)| ==> Encode(c)[i] != AMP
  {}

  /** Expanding the references of the output gives what expanding those of the text gives: also when the text has
      references, ampersands or broken references of its own. */
  lemma {:induction false} SameMeaning(cs: seq<Scalar>)
    ensures Expand(Safe(cs)) == Expand(Plain(cs))
    decreases |cs|, 1
  {
    hide Plain, Safe, Encode, DecimalRef, Expand;
    Beginnings(cs);
    if cs == [] {
    } else if cs[0] >= 0x80 {
      SameMeaning(cs[1..]);
      ExpandDecimal(cs[0], Safe(cs[1..]));
      EncodeHasNoAmp(cs[0]);
      ExpandHigh(Encode(cs[0]), Plain(cs[1..]));
    } else if cs[0] != AMP {
      SameMeaning(cs[1..]);
      ExpandPlain(cs[0], Safe(cs[1..]));
      ExpandPlain(cs[0], Plain(cs[1..]));
    } else {
      SameAfterAmp(cs);
    }
  }

  /** What stands behind an ampersand. */
  datatype Reference = Named(c: byte, length: nat) | Numeric(radix: Radix, digits: nat) | NoReference

  function ReferenceAt(t: seq<byte>): Reference
  {
    if StartsWith(t, LT_REF[1..]) then Named(60, 3)
    else if StartsWith(t, GT_REF[1..]) then Named(62, 3)
    else if StartsWith(t, AMP_REF[1..]) then Named(AMP, 4)
    else if StartsWith(t, QUOT_REF[1..]) then Named(34, 5)
    else if StartsWith(t, [HASH, LOWER_X]) then Numeric(16, 2)
    else if StartsWith(t, [HASH]) then Numeric(10, 1)
    else NoReference
  }

  /** An ampersand, `digits` bytes that begin a numeric reference, and what follows. */
  function ExpandNumeric(t: seq<byte>, radix: Radix, digits: nat): seq<byte>
    requires digits <= |t|
  {
    var r := ReadNumeral(t[digits..], radix, 0);
    if r.1 != [] && r.1[0] == SEMI && IsScalar(r.0) then Encode(r.0) + Expand(r.1[1..]) else [AMP] + Expand(t)
  }

  /** The expansion of a text that begins with an ampersand. */
  lemma ExpandAmp(t: seq<byte>)
    ensures ReferenceAt(t).Named? ==>
              && ReferenceAt(t).length <= |t|
              && Expand([AMP] + t) == [ReferenceAt(t).c] + Expand(t[ReferenceAt(t).length..])
    ensures ReferenceAt(t).Numeric? ==>
              ReferenceAt(t).digits <= |t| && Expand([AMP] + t) == ExpandNumeric(t, ReferenceAt(t).radix, ReferenceAt(t).digits)
    ensures ReferenceAt(t).NoReference? ==> Expand([AMP] + t) == [AMP] + Expand(t)
  {
    if ReferenceAt(t).Named? {
      ExpandAmpNamed(t);
    } else {
      ExpandAmpOther(t);
    }
  }

  lemma ExpandAmpNamed(t: seq<byte>)
    requires ReferenceAt(t).Named?
    ensures ReferenceAt(t).length <= |t| && Expand([AMP] + t) == [ReferenceAt(t).c] + Expand(t[ReferenceAt(t).length..])
  {
    hide Expand, StartsWith;
    if StartsWith(t, LT_REF[1..]) {
      WholeReference(t, LT_REF);
      ExpandNamed(t[3..]);
    } else if StartsWith(t, GT_REF[1..]) {
      WholeReference(t, GT_REF);
      ExpandNamed(t[3..]);
    } else if StartsWith(t, AMP_REF[1..]) {
      WholeReference(t, AMP_REF);
      ExpandNamed(t[4..]);
    } else {
      WholeReference(t, QUOT_REF);
      ExpandNamed(t[5..]);
    }
  }

  lemma WholeReference(t: seq<byte>, p: seq<byte>)
    requires p != [] && p[0] == AMP && StartsWith(t, p[1..])
    ensures |p| - 1 <= |t| && [AMP] + t == p + t[|p| - 1..]
  {
    assert p == [AMP] + p[1..] && t == p[1..] + t[|p| - 1..];
  }

  lemma ExpandAmpOther(t: seq<byte>)
    requires !ReferenceAt(t).Named?
    ensures ReferenceAt(t).Numeric? ==>
              ReferenceAt(t).digits <= |t| && Expand([AMP] + t) == ExpandNumeric(t, ReferenceAt(t).radix, ReferenceAt(t).digits)
    ensures ReferenceAt(t).NoReference? ==> Expand([AMP] + t) == [AMP] + Expand(t)
  {
    hide Encode, StartsWith, ReadNumeral;
    AmpAndMore(t, LT_REF);
    AmpAndMore(t, GT_REF);
    AmpAndMore(t, AMP_REF);
    AmpAndMore(t, QUOT_REF);
    AmpAndMore(t, [AMP, HASH]);
    AmpAndMore(t, [AMP, HASH, LOWER_X]);
    assert [AMP, HASH][1..] == [HASH] && [AMP, HASH, LOWER_X][1..] == [HASH, LOWER_X] && ([AMP] + t)[1..] == t;
    HexIsNumeric(t);
  }

  lemma AmpAndMore(t: seq<byte>, p: seq<byte>)
    requires p != [] && p[0] == AMP
    ensures StartsWith([AMP] + t, p) <==> StartsWith(t, p[1..])
    ensures StartsWith(t, p[1..]) ==> |p| - 1 <= |t| && ([AMP] + t)[|p|..] == t[|p| - 1..]
  {
    PrefixStep([AMP] + t, t, AMP, p);
  }

  lemma HexIsNumeric(t: seq<byte>)
    ensures StartsWith(t, [HASH, LOWER_X]) ==> StartsWith(t, [HASH])
  {
    if StartsWith(t, [HASH, LOWER_X]) {
      assert t[..1] == t[..2][..1] == [HASH];
    }
  }

  /** n bytes are n characters in both forms. */
  predicate Dropped(cs: seq<Scalar>, n: nat)
  {
    && 0 < n <= |cs| && n <= |Plain(cs)| && n <= |Safe(cs)|
    && Plain(cs)[n..] == Plain(cs[n..]) && Safe(cs)[n..] == Safe(cs[n..])
  }

  lemma SameReference(cs: seq<Scalar>)
    ensures ReferenceAt(Plain(cs)) == ReferenceAt(Safe(cs))
    ensures ReferenceAt(Plain(cs)).Named? ==> Dropped(cs, ReferenceAt(Plain(cs)).length)
    ensures ReferenceAt(Plain(cs)).Numeric? ==> Dropped(cs, ReferenceAt(Plain(cs)).digits)
  {
    hide Plain, Safe;
    SamePrefix(cs, LT_REF[1..]);
    SamePrefix(cs, GT_REF[1..]);
    SamePrefix(cs, AMP_REF[1..]);
    SamePrefix(cs, QUOT_REF[1..]);
    SamePrefix(cs, [HASH, LOWER_X]);
    SamePrefix(cs, [HASH]);
  }

  lemma {:induction false} SameAfterAmp(cs: seq<Scalar>)
    requires cs != [] && cs[0] == AMP
    ensures Expand(Safe(cs)) == Expand(Plain(cs))
    decreases |cs|, 0
  {
    hide Plain, Safe, Encode, DecimalRef, Expand, ReferenceAt;
    Beginnings(cs);
    var more := cs[1..];
    ExpandAmp(Plain(more));
    ExpandAmp(Safe(more));
    SameReference(more);
    SameMeaning(more);
    match ReferenceAt(Plain(more))
    case Named(_, n) => SameMeaning(more[n..]);
    case Numeric(radix, n) =>
      var j := SameNumeral(more[n..], radix, 0);
      var rest := more[n..][j..];
      Beginnings(rest);
      if rest != [] && rest[0] == SEMI {
        SameMeaning(rest[1..]);
        assert Plain(rest)[1..] == Plain(rest[1..]) && Safe(rest)[1..] == Safe(rest[1..]);
      }
    case NoReference =>
  }
}
