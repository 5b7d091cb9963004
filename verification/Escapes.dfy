/** What the escaping functions write for every character, spelled out. */
module Escapes {
  import opened Octets
  import opened Utf8
  import opened References
  import opened Spelling
  import opened Transcoding
  import opened CharEncOutput
  import C14nNormalize
  import Entities

  // ---------- canonical form ----------

  /** Attribute values, section 2.3 of Canonical XML 1.0. */
  function AttrText(c: char): string
  {
    match c
    case '&' => "&amp;"
    case '<' => "&lt;"
    case '"' => "&quot;"
    case '\t' => "&#x9;"
    case '\n' => "&#xA;"
    case '\r' => "&#xD;"
    case _ => [c]
  }

  /** Character data. */
  function ContentText(c: char): string
  {
    match c
    case '&' => "&amp;"
    case '<' => "&lt;"
    case '>' => "&gt;"
    case '\r' => "&#xD;"
    case _ => [c]
  }

  /** Comments and processing instructions. */
  function OtherText(c: char): string
  {
    if c == '\r' then "&#xD;" else [c]
  }

  function CanonicalText(mode: C14nNormalize.Mode, c: char): string
  {
    match mode
    case Attr => AttrText(c)
    case Text => ContentText(c)
    case _ => OtherText(c)
  }

  lemma EscapeSpelledOut(b: byte, mode: C14nNormalize.Mode)
    ensures C14nNormalize.Escape(b, mode) == BytesOf(CanonicalText(mode, b as char))
  {
    NamesSpelledOut();
    CanonicalReferences();
    assert BytesOf([b as char]) == [b];
  }

  lemma CanonicalReferences()
    ensures C14nNormalize.TAB_REF == BytesOf("&#x9;") && C14nNormalize.LF_REF == BytesOf("&#xA;") && C14nNormalize.CR_REF == BytesOf("&#xD;")
  {
  }

  /** The normal form of a string is that of its characters one after the other. */
  lemma {:induction false} NormalizeSpelledOut(s: seq<byte>, mode: C14nNormalize.Mode)
    ensures C14nNormalize.Normalize(s, mode)
            == Concat(seq(|s|, i requires 0 <= i < |s| => BytesOf(CanonicalText(mode, s[i] as char))))
  {
    hide CanonicalText, C14nNormalize.Escape, BytesOf;
    if s != [] {
      var l := seq(|s|, i requires 0 <= i < |s| => BytesOf(CanonicalText(mode, s[i] as char)));
      EscapeSpelledOut(s[0], mode);
      NormalizeSpelledOut(s[1..], mode);
      assert l[1..] == seq(|s[1..]|, i requires 0 <= i < |s[1..]| => BytesOf(CanonicalText(mode, s[1..][i] as char)));
    }
  }

  // ---------- entities ----------

  /** What is written for a character of XML in a document without an encoding: quotation marks are not escaped. */
  function EntityText(c: Scalar): seq<byte>
  {
    if c == '<' as int then BytesOf("&lt;")
    else if c == '>' as int then BytesOf("&gt;")
    else if c == '&' as int then BytesOf("&amp;")
    else if c == '\r' as int then BytesOf("&#13;")
    else if c < 128 then [c]
    else BytesOf("&#x") + Numeral(c, 16) + BytesOf(";")
  }

  lemma EntitySpelledOut(c: Scalar)
    requires Entities.IsChar(c)
    ensures Entities.Written(c) == EntityText(c)
  {
    NamesSpelledOut();
    ReferencesSpelledOut(c);
    CarriageReturn();
    hide BytesOf, HexRef, DecimalRef;
  }

  lemma CarriageReturn()
    ensures DecimalRef(13) == BytesOf("&#13;")
  {
    assert Numeral(13, 10) == Numeral(1, 10) + [Digit(3)];
  }

  /** The output for a text of XML characters is that of its characters one after the other. */
  lemma {:induction false} EscapedSpelledOut(cs: seq<Scalar>, hasDoc: bool)
    requires forall i :: 0 <= i < |cs| ==> Entities.IsChar(cs[i])
    ensures Entities.Escaped(EncodeAll(cs), false, hasDoc) == Concat(seq(|cs|, i requires 0 <= i < |cs| => EntityText(cs[i])))
  {
    hide EntityText, Encode, Entities.StepAt, Entities.Written;
    if cs != [] {
      var l := seq(|cs|, i requires 0 <= i < |cs| => EntityText(cs[i]));
      var e, rest := Encode(cs[0]), EncodeAll(cs[1..]);
      Entities.GoodStep(cs[0], rest);
      EntitySpelledOut(cs[0]);
      EscapedSpelledOut(cs[1..], hasDoc);
      assert (e + rest)[|e|..] == rest;
      Entities.EscapedUnfold(e + rest, false, hasDoc);
      assert l[1..] == seq(|cs[1..]|, i requires 0 <= i < |cs[1..]| => EntityText(cs[1..][i]));
    }
  }

  /** Other control characters are dropped. */
  lemma ControlDropped(b: byte, rest: seq<byte>, raw: bool)
    requires b < 32 && b != 9 && b != 10 && b != 13
    ensures Entities.StepAt([b] + rest, raw) == Entities.Step(1, [], false)
  {
  }

  /** A byte that begins no character of XML is written as a number of its own, and a document gets an encoding: from
      then on the bytes above ASCII are copied. */
  lemma BadByte(s: seq<byte>)
    requires s != [] && s[0] >= 128
    ensures !Entities.IsChar(Entities.Decode(s).0) ==>
              Entities.StepAt(s, false) == Entities.Step(1, BytesOf("&#") + Numeral(s[0], 10) + BytesOf(";"), true)
    ensures Entities.StepAt(s, true) == Entities.Step(1, [s[0]], false)
  {
    ReferencesSpelledOut(s[0]);
  }

  // ---------- output in ASCII and Latin 1 ----------

  /** What is written for a character: its byte where the encoding has it, else its decimal reference. */
  function OutputText(enc: SingleByte, c: Scalar): seq<byte>
  {
    if c < (if enc.Ascii? then 128 else 256) then [c] else BytesOf("&#") + Numeral(c, 10) + BytesOf(";")
  }

  lemma {:induction false} SubstituteSpelledOut(enc: SingleByte, cs: seq<Scalar>)
    ensures SubstituteAll(enc, cs) == Concat(seq(|cs|, i requires 0 <= i < |cs| => OutputText(enc, cs[i])))
  {
    hide BytesOf, Numeral, DecimalRef;
    if cs != [] {
      var l := seq(|cs|, i requires 0 <= i < |cs| => OutputText(enc, cs[i]));
      ReferencesSpelledOut(cs[0]);
      SubstituteSpelledOut(enc, cs[1..]);
      assert l[1..] == seq(|cs[1..]|, i requires 0 <= i < |cs[1..]| => OutputText(enc, cs[1..][i]));
    }
  }
}
