/** The escaping of character data in canonical form (xmlC11NNormalizeString). */
module C14nNormalize {
  import opened Octets
  import opened References
  import opened TranslationBuffer

  datatype Mode = Attr | Comment | PI | Text

  const TAB_REF: seq<byte> := [38, 35, 120, 57, 59]  // &#x9;
  const LF_REF: seq<byte> := [38, 35, 120, 65, 59]   // &#xA;
  const CR_REF: seq<byte> := [38, 35, 120, 68, 59]   // &#xD;

  /** The replacement of one byte. */
  function Escape(c: byte, mode: Mode): (s: seq<byte>)
    ensures 1 <= |s| <= 6
  {
    if c == 60 && (mode == Attr || mode == Text) then LT_REF
    else if c == 62 && mode == Text then GT_REF
    else if c == AMP && (mode == Attr || mode == Text) then AMP_REF
    else if c == 34 && mode == Attr then QUOT_REF
    else if c == 9 && mode == Attr then TAB_REF
    else if c == 10 && mode == Attr then LF_REF
    else if c == 13 then CR_REF
    else [c]
  }

  function Normalize(s: seq<byte>, mode: Mode): seq<byte>
  {
    if s == [] then [] else Escape(s[0], mode) + Normalize(s[1..], mode)
  }

  lemma {:induction false} NormalizeAppend(a: seq<byte>, b: seq<byte>, mode: Mode)
    ensures Normalize(a + b, mode) == Normalize(a, mode) + Normalize(b, mode)
  {
    if a == [] {
      assert a + b == b;
    } else {
      assert (a + b)[1..] == a[1..] + b;
      NormalizeAppend(a[1..], b, mode);
    }
  }

  /** Translates a string. Every write is shown to stay inside the buffer, the terminator included. */
  method NormalizeString(input: seq<byte>, mode: Mode) returns (t: Translation)
    ensures fresh(t) && fresh(t.buffer) && t.Valid()
    ensures t.Written() == Normalize(input, mode) && t.buffer[t.out] == 0
  {
    assert Normalize(input[..0], mode) == [];
    hide Normalize, Escape;
    t := new Translation();
    var cur := 0;
    while cur < |input|
      invariant 0 <= cur <= |input|
      invariant fresh(t) && fresh(t.buffer) && t.Valid()
      invariant t.Written() == Normalize(input[..cur], mode)
      invariant t.out <= t.buffer.Length - 4
    {
      if t.out > t.buffer.Length - 10 {
        t.Grow();
      }
      PutEscaped(t, input[cur], mode);
      NormalizeSnoc(input, cur, mode);
      cur := cur + 1;
    }
    assert input[..cur] == input;
    t.Terminate();
  }

  /** The branches of the loop body. */
  method PutEscaped(t: Translation, c: byte, mode: Mode)
    requires t.Valid() && t.out + 6 < t.buffer.Length
    modifies t`out, t.buffer
    ensures t.Valid() && t.Written() == old(t.Written()) + Escape(c, mode) && t.out == old(t.out) + |Escape(c, mode)|
  {
    if c == 60 && (mode == Attr || mode == Text) {
      t.Put(LT_REF);
    } else if c == 62 && mode == Text {
      t.Put(GT_REF);
    } else if c == 38 && (mode == Attr || mode == Text) {
      t.Put(AMP_REF);
    } else if c == 34 && mode == Attr {
      t.Put(QUOT_REF);
    } else if c == 9 && mode == Attr {
      t.Put(TAB_REF);
    } else if c == 10 && mode == Attr {
      t.Put(LF_REF);
    } else if c == 13 && (mode == Attr || mode == Text || mode == Comment || mode == PI) {
      t.Put(CR_REF);
    } else {
      t.Put([c]);
    }
  }

  lemma NormalizeSnoc(s: seq<byte>, i: nat, mode: Mode)
    requires i < |s|
    ensures Normalize(s[..i + 1], mode) == Normalize(s[..i], mode) + Escape(s[i], mode)
  {
    assert s[..i + 1] == s[..i] + [s[i]];
    NormalizeAppend(s[..i], [s[i]], mode);
    assert Normalize([s[i]], mode) == Escape(s[i], mode) + Normalize([s[i]][1..], mode);
  }

  // ---------- the output can be read back ----------

  lemma NumeralsOfControls()
    ensures TAB_REF == HexRef(9) && LF_REF == HexRef(10) && CR_REF == HexRef(13)
  {
    NumeralLength(9, 16);
    NumeralLength(10, 16);
    NumeralLength(13, 16);
  }

  lemma ExpandEscape(c: byte, mode: Mode, rest: seq<byte>)
    requires mode == Attr || mode == Text
    ensures Expand(Escape(c, mode) + rest) == [c] + Expand(rest)
  {
    NumeralsOfControls();
    ExpandNamed(rest);
    if c == 9 || c == 10 || c == 13 {
      ExpandHex(c, rest);
    }
    if c != AMP {
      ExpandPlain(c, rest);
    }
  }

  /** Attribute and text mode lose nothing: expanding the references returns the input. */
  lemma {:induction false} NormalizeInvertible(s: seq<byte>, mode: Mode)
    requires mode == Attr || mode == Text
    ensures Expand(Normalize(s, mode)) == s
  {
    if s != [] {
      NormalizeInvertible(s[1..], mode);
      ExpandEscape(s[0], mode, Normalize(s[1..], mode));
    }
  }

  /** The raw characters a mode escapes. */
  predicate Forbidden(c: byte, mode: Mode)
  {
    c == 13 || (c == 60 && (mode == Attr || mode == Text)) || (c == 62 && mode == Text)
    || ((c == 34 || c == 9 || c == 10) && mode == Attr)
  }

  /** None of the escaped characters appears raw in the output. */
  lemma {:induction false} NormalizeClean(s: seq<byte>, mode: Mode)
    ensures forall i :: 0 <= i < |Normalize(s, mode)| ==> !Forbidden(Normalize(s, mode)[i], mode)
  {
    if s != [] {
      NormalizeClean(s[1..], mode);
    }
  }
}
