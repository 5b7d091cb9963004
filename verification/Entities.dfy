/** xmlEncodeEntitiesInternal of entities.c outside HTML, for documents without an encoding. */
module Entities {
  import opened Octets
  import opened Utf8
  import opened References
  import opened TranslationBuffer

  /** IS_CHAR: the production Char of XML 1.0 (section 2.2). */
  predicate IsChar(c: int)
  {
    c == 0x9 || c == 0xA || c == 0xD || 0x20 <= c < 0xD800 || 0xE000 <= c < 0xFFFE || 0x1_0000 <= c < 0x11_0000
  }

  // ---------- one step of the loop ----------

  /** The byte at position i; the terminating zero behind the end. */
  function At(s: seq<byte>, i: nat): byte
  {
    if i < |s| then s[i] else 0
  }

  function Fold(c: nat, d: byte): nat
  {
    c * 0x40 + d % 0x40
  }

  /** The value and the length of the character at the beginning of s; length 1 when no character begins there. */
  function Decode(s: seq<byte>): (nat, nat)
    requires s != [] && s[0] >= 0x80
  {
    if s[0] < 0xC0 then (0, 1)
    else if s[0] < 0xE0 then (Fold(s[0] % 0x20, At(s, 1)), 2)
    else if s[0] < 0xF0 then (Fold(Fold(s[0] % 0x10, At(s, 1)), At(s, 2)), 3)
    else if s[0] < 0xF8 then (Fold(Fold(Fold(s[0] % 0x08, At(s, 1)), At(s, 2)), At(s, 3)), 4)
    else (0, 1)
  }

  /** How many bytes are consumed, what is written for them, and whether an encoding is set because of them. */
  datatype Step = Step(n: nat, out: seq<byte>, failed: bool)

  /** The bytes above ASCII are copied when `raw`, which is when the document has got an encoding. */
  function StepAt(s: seq<byte>, raw: bool): (r: Step)
    requires s != []
    ensures r.n >= 1
  {
    var c := s[0];
    if c == 60 then Step(1, LT_REF, false)
    else if c == 62 then Step(1, GT_REF, false)
    else if c == AMP then Step(1, AMP_REF, false)
    else if 0x20 <= c < 0x80 || c == 10 || c == 9 then Step(1, [c], false)
    else if c >= 0x80 then
      if raw then Step(1, [c], false)
      else
        var (val, l) := Decode(s);
        if l == 1 || !IsChar(val) then Step(1, DecimalRef(c), true) else Step(l, HexRef(val), false)
    else if c == 13 then Step(1, DecimalRef(13), false)
    else Step(1, [], false)
  }

  /** The translation of s. A document (`hasDoc`) gets an encoding at the first error. */
  function Escaped(s: seq<byte>, raw: bool, hasDoc: bool): seq<byte>
    decreases |s|
  {
    if s == [] then []
    else
      var st := StepAt(s, raw);
      st.out + (if st.n <= |s| then Escaped(s[st.n..], raw || (st.failed && hasDoc), hasDoc) else [])
  }

  /** Every reference fits the eleven bytes that snprintf is given. */
  lemma ReferencesFit(n: nat)
    ensures n < 0x11_0000 ==> |HexRef(n)| <= 10
    ensures n < 0x100 ==> |DecimalRef(n)| <= 6
  {
    NumeralLength(n, 16);
    NumeralLength(n / 16, 16);
    NumeralLength(n / 16 / 16, 16);
    NumeralLength(n / 16 / 16 / 16, 16);
    NumeralLength(n / 16 / 16 / 16 / 16, 16);
    NumeralLength(n / 16 / 16 / 16 / 16 / 16, 16);
    NumeralLength(n, 10);
    NumeralLength(n / 10, 10);
    NumeralLength(n / 10 / 10, 10);
  }

  lemma StepFits(s: seq<byte>, raw: bool)
    requires s != []
    ensures |StepAt(s, raw).out| <= 10
  {
    ReferencesFit(s[0]);
    if s[0] >= 0x80 {
      ReferencesFit(Decode(s).0);
    }
  }

  /** The length of the character that a byte begins. */
  function LeadLength(c: byte): nat
  {
    if 0xC0 <= c < 0xE0 then 2 else if 0xE0 <= c < 0xF0 then 3 else if 0xF0 <= c < 0xF8 then 4 else 1
  }

  /** No character is cut off at the end, where reading it would leave the string. */
  predicate Complete(s: seq<byte>)
  {
    forall i :: 0 <= i < |s| ==> i + LeadLength(s[i]) <= |s|
  }

  lemma CompleteStep(s: seq<byte>, raw: bool)
    requires s != [] && Complete(s)
    ensures StepAt(s, raw).n <= |s| && Complete(s[StepAt(s, raw).n..])
  {
    var n := StepAt(s, raw).n;
    assert n <= LeadLength(s[0]);
    forall i | 0 <= i < |s| - n ensures i + LeadLength(s[n..][i]) <= |s| - n {
      assert s[n..][i] == s[n + i];
    }
  }

  lemma {:induction false} EncodedComplete(cs: seq<Scalar>)
    ensures Complete(EncodeAll(cs))
  {
    if cs != [] {
      EncodedComplete(cs[1..]);
      var e, rest := Encode(cs[0]), EncodeAll(cs[1..]);
      LeadOfEncoded(cs[0]);
      forall i | 0 <= i < |e + rest| ensures i + LeadLength((e + rest)[i]) <= |e + rest| {
        if i >= |e| {
          assert (e + rest)[i] == rest[i - |e|];
        }
      }
    }
  }

  lemma LeadOfEncoded(c: Scalar)
    ensures LeadLength(Encode(c)[0]) == |Encode(c)|
    ensures forall i :: 1 <= i < |Encode(c)| ==> LeadLength(Encode(c)[i]) == 1
  {}

  // ---------- the loop ----------

  /** xmlEncodeEntitiesInternal for strings that do not end inside a character. */
  method EncodeEntities(input: seq<byte>, hasDoc: bool) returns (t: Translation)
    requires Complete(input)
    ensures fresh(t) && fresh(t.buffer) && t.Valid()
    ensures t.Written() == Escaped(input, false, hasDoc) && t.buffer[t.out] == 0
  {
    hide StepAt, Complete, Escaped;
    EscapedNothing(hasDoc);
    assert input[0..] == input;
    t := new Translation();
    var raw, cur := false, 0;
    while cur < |input|
      invariant fresh(t) && fresh(t.buffer) && t.Valid() && t.out + 89 < t.buffer.Length
      invariant cur <= |input| && Complete(input[cur..])
      invariant t.Written() + Escaped(input[cur..], raw, hasDoc) == Escaped(input, false, hasDoc)
    {
      var rest := input[cur..];
      if t.out + 100 > t.buffer.Length {
        t.Grow();
      }
      StepFits(rest, raw);
      CompleteStep(rest, raw);
      EscapedStep(t.Written(), rest, raw, hasDoc);
      var n, failed := PutStep(t, rest, raw);
      raw := raw || (failed && hasDoc);
      assert rest[n..] == input[cur + n..];
      cur := cur + n;
    }
    assert input[cur..] == [] && t.Written() + [] == t.Written();
    t.Terminate();
  }

  lemma EscapedNothing(hasDoc: bool)
    ensures Escaped([], false, hasDoc) == [] && Escaped([], true, hasDoc) == []
  {}

  lemma EscapedStep(before: seq<byte>, s: seq<byte>, raw: bool, hasDoc: bool)
    requires s != [] && StepAt(s, raw).n <= |s|
    ensures var st := StepAt(s, raw);
            before + Escaped(s, raw, hasDoc) == before + st.out + Escaped(s[st.n..], raw || (st.failed && hasDoc), hasDoc)
  {
    hide StepAt;
  }

  /** The branches of the loop body. */
  method PutStep(t: Translation, s: seq<byte>, raw: bool) returns (n: nat, failed: bool)
    requires s != [] && t.Valid() && t.out + 100 <= t.buffer.Length
    modifies t`out, t.buffer
    ensures t.Valid() && t.Written() == old(t.Written()) + StepAt(s, raw).out && t.out == old(t.out) + |StepAt(s, raw).out|
    ensures n == StepAt(s, raw).n && failed == StepAt(s, raw).failed
  {
    hide HexRef, DecimalRef;
    StepFits(s, raw);
    var c := s[0];
    n, failed := 1, false;
    if c == 60 {
      t.Put(LT_REF);
    } else if c == 62 {
      t.Put(GT_REF);
    } else if c == 38 {
      t.Put(AMP_REF);
    } else if (0x20 <= c < 0x80) || c == 10 || c == 9 {
      t.Put([c]);
    } else if c >= 0x80 {
      if raw {
        t.Put([c]);
      } else {
        var (val, l) := Decode(s);
        if l == 1 || !IsChar(val) {
          failed := true;
          t.Put(DecimalRef(c));
        } else {
          t.Put(HexRef(val));
          n := l;
        }
      }
    } else if c == 13 {
      t.Put(DecimalRef(c));
    }
  }

  lemma EscapedUnfold(s: seq<byte>, raw: bool, hasDoc: bool)
    requires s != [] && StepAt(s, raw).n <= |s|
    ensures var st := StepAt(s, raw);
            Escaped(s, raw, hasDoc) == st.out + Escaped(s[st.n..], raw || (st.failed && hasDoc), hasDoc)
  {
    hide StepAt;
  }

  // ---------- pure ASCII ----------

  lemma StepIsAscii(s: seq<byte>)
    requires s != []
    ensures forall i :: 0 <= i < |StepAt(s, false).out| ==> StepAt(s, false).out[i] < 0x80
  {
    hide Numeral;
    NumeralShape(s[0], 10);
    if s[0] >= 0x80 {
      NumeralShape(Decode(s).0, 16);
    }
  }

  /** Without a document the output is ASCII, whatever the input. */
  lemma {:induction false} AsciiOutput(s: seq<byte>)
    ensures forall i :: 0 <= i < |Escaped(s, false, false)| ==> Escaped(s, false, false)[i] < 0x80
    decreases |s|
  {
    hide StepAt;
    if s != [] {
      StepIsAscii(s);
      if StepAt(s, false).n <= |s| {
        AsciiOutput(s[StepAt(s, false).n..]);
      }
    }
  }

  // ---------- the output can be read back ----------

  lemma FoldBack(n: nat)
    ensures Fold(n / 0x40, 0x80 + n % 0x40) == n
  {}

  lemma DecodeEncoded(c: Scalar, rest: seq<byte>)
    requires c >= 0x80
    ensures Decode(Encode(c) + rest) == (c, |Encode(c)|)
  {
    hide Fold;
    var e, s := Encode(c), Encode(c) + rest;
    assert forall i :: 0 <= i < |e| ==> At(s, i) == e[i];
    FoldBack(c);
    if c < 0x800 {
      LeadBits(c, 1);
    } else if c < 0x1_0000 {
      LeadBits(c, 2);
      FoldBack(c / 0x40);
    } else {
      LeadBits(c, 3);
      FoldBack(c / 0x40);
      FoldBack(c / 0x1000);
    }
  }

  /** The lead byte holds what is left above the trailing bytes. */
  lemma LeadBits(c: Scalar, t: nat)
    ensures t == 1 && 0x80 <= c < 0x800 ==> Encode(c)[0] % 0x20 == c / 0x40
    ensures t == 2 && 0x800 <= c < 0x1_0000 ==> Encode(c)[0] % 0x10 == c / 0x40 / 0x40 && c / 0x40 / 0x40 == c / 0x1000
    ensures t == 3 && 0x1_0000 <= c ==>
              Encode(c)[0] % 0x08 == c / 0x1000 / 0x40 && c / 0x40 / 0x40 == c / 0x1000
  {
    Quotient(c, 0x40, 0x40);
    Quotient(c, 0x1000, 0x40);
    var lead: int := Encode(c)[0];
    if t == 1 && 0x80 <= c < 0x800 {
      Remainder(c / 0x40, 0xC0, 0x20);
    } else if t == 2 && 0x800 <= c < 0x1_0000 {
      Remainder(c / 0x1000, 0xE0, 0x10);
    } else if t == 3 && 0x1_0000 <= c {
      Remainder(c / 0x4_0000, 0xF0, 0x08);
    }
  }

  lemma Quotient(c: nat, a: nat, b: nat)
    requires (a == 0x40 || a == 0x1000) && b == 0x40
    ensures c / a / b == if a == 0x40 then c / 0x1000 else c / 0x4_0000
  {}

  lemma Remainder(q: nat, base: nat, m: nat)
    requires q < m && (m == 0x20 || m == 0x10 || m == 0x08) && base % m == 0
    ensures (base + q) % m == q
  {}

  /** What is written for a character of XML. */
  function Written(c: Scalar): seq<byte>
    requires IsChar(c)
  {
    if c == 60 then LT_REF
    else if c == 62 then GT_REF
    else if c == AMP then AMP_REF
    else if c == 13 then DecimalRef(13)
    else if c < 0x80 then [c]
    else HexRef(c)
  }

  lemma GoodStep(c: Scalar, rest: seq<byte>)
    requires IsChar(c)
    ensures StepAt(Encode(c) + rest, false) == Step(|Encode(c)|, Written(c), false)
  {
    hide Decode;
    if c >= 0x80 {
      DecodeEncoded(c, rest);
      LeadOfEncoded(c);
    }
  }

  lemma WrittenExpands(c: Scalar, rest: seq<byte>)
    requires IsChar(c)
    ensures Expand(Written(c) + rest) == Encode(c) + Expand(rest)
  {
    hide Expand, HexRef, DecimalRef;
    if c == 60 || c == 62 || c == AMP {
      ExpandNamed(rest);
    } else if c == 13 {
      ExpandDecimal(c, rest);
    } else if c < 0x80 {
      ExpandPlain(c, rest);
    } else {
      ExpandHex(c, rest);
    }
  }

  /** Characters of XML at the beginning come back, whatever follows them. */
  lemma {:induction false} GoodPrefix(cs: seq<Scalar>, tail: seq<byte>, hasDoc: bool)
    requires forall i :: 0 <= i < |cs| ==> IsChar(cs[i])
    ensures Expand(Escaped(EncodeAll(cs) + tail, false, hasDoc)) == EncodeAll(cs) + Expand(Escaped(tail, false, hasDoc))
  {
    hide Expand, StepAt, Encode, Written;
    if cs == [] {
      assert EncodeAll(cs) + tail == tail;
    } else {
      var e, rest := Encode(cs[0]), EncodeAll(cs[1..]) + tail;
      GoodPrefix(cs[1..], tail, hasDoc);
      assert EncodeAll(cs) + tail == e + rest && (e + rest)[|e|..] == rest;
      GoodStep(cs[0], rest);
      WrittenExpands(cs[0], Escaped(rest, false, hasDoc));
      assert EncodeAll(cs) + Expand(Escaped(tail, false, hasDoc)) == e + (EncodeAll(cs[1..]) + Expand(Escaped(tail, false, hasDoc)));
    }
  }

  /** A byte that a control character outside XML is made of. */
  predicate IsControl(c: byte)
  {
    c < 0x20 && !IsChar(c)
  }

  /** The expanded output never begins with one. */
  lemma {:induction false} NoControlFirst(s: seq<byte>, raw: bool, hasDoc: bool)
    requires Complete(s)
    ensures var e := Expand(Escaped(s, raw, hasDoc)); e == [] || !IsControl(e[0])
    decreases |s|
  {
    hide Expand, Escaped, StepAt, Complete;
    if s == [] {
      EscapedNothing(hasDoc);
      assert Expand([]) == [] by { ExpandNothing(); }
    } else {
      CompleteStep(s, raw);
      EscapedUnfold(s, raw, hasDoc);
      var st := StepAt(s, raw);
      var rest := Escaped(s[st.n..], raw || (st.failed && hasDoc), hasDoc);
      if st.out == [] {
        assert st.out + rest == rest;
        NoControlFirst(s[st.n..], raw || (st.failed && hasDoc), hasDoc);
      } else {
        StepExpands(s, raw, rest);
      }
    }
  }

  lemma ExpandNothing()
    ensures Expand([]) == []
  {}

  lemma StepExpands(s: seq<byte>, raw: bool, rest: seq<byte>)
    requires s != [] && StepAt(s, raw).out != []
    ensures var e := Expand(StepAt(s, raw).out + rest); e != [] && !IsControl(e[0])
  {
    hide Expand, HexRef, DecimalRef, Decode;
    ExpandNamed(rest);
    var c := s[0];
    if c == 13 {
      ExpandDecimal(13, rest);
    } else if c >= 0x80 && !raw {
      var (val, l) := Decode(s);
      if l == 1 || !IsChar(val) {
        ExpandDecimal(c, rest);
      } else {
        ExpandHex(val, rest);
      }
    } else if c != AMP {
      ExpandPlain(c, rest);
    }
  }

  /** The first character that is not one of XML is lost: the expanded output differs from the input right there. */
  lemma BadStep(c: Scalar, tail: seq<byte>, hasDoc: bool)
    requires !IsChar(c) && Complete(tail) && Complete(Encode(c) + tail)
    ensures Expand(Escaped(Encode(c) + tail, false, hasDoc)) != Encode(c) + tail
  {
    hide Expand, Escaped, Complete, HexRef, DecimalRef;
    var s := Encode(c) + tail;
    CompleteStep(s, false);
    EscapedUnfold(s, false, hasDoc);
    var st := StepAt(s, false);
    var rest := Escaped(s[st.n..], st.failed && hasDoc, hasDoc);
    if c < 0x80 {
      assert s[1..] == tail && st == Step(1, [], false);
      assert st.out + rest == rest;
      NoControlFirst(tail, false, hasDoc);
      assert s[0] == c;
    } else {
      DecodeEncoded(c, tail);
      assert s[0] == 0xEF;
      ExpandDecimal(0xEF, rest);
      assert Encode(0xEF)[0] == 0xC3;
    }
  }

  /** Expanding the references of the output returns the text if and only if all its characters are characters of XML:
      control characters are dropped, and of U+FFFE and U+FFFF every byte becomes a character. */
  lemma EscapingIsInvertible(cs: seq<Scalar>, hasDoc: bool)
    ensures Expand(Escaped(EncodeAll(cs), false, hasDoc)) == EncodeAll(cs) <==> forall i :: 0 <= i < |cs| ==> IsChar(cs[i])
  {
    hide Expand, Escaped, Encode;
    var n := FirstBad(cs, 0);
    var good := cs[..n];
    if n == |cs| {
      assert good == cs && EncodeAll(cs) + [] == EncodeAll(cs);
      GoodPrefix(cs, [], hasDoc);
      EscapedNothing(hasDoc);
      ExpandNothing();
    } else {
      var tail := EncodeAll(cs[n + 1..]);
      assert cs == good + ([cs[n]] + cs[n + 1..]);
      EncodeAllAppend(good, [cs[n]] + cs[n + 1..]);
      assert EncodeAll([cs[n]] + cs[n + 1..]) == Encode(cs[n]) + tail by {
        assert ([cs[n]] + cs[n + 1..])[1..] == cs[n + 1..];
      }
      GoodPrefix(good, Encode(cs[n]) + tail, hasDoc);
      EncodedComplete(cs[n + 1..]);
      EncodedComplete([cs[n]] + cs[n + 1..]);
      BadStep(cs[n], tail, hasDoc);
      SameBack(EncodeAll(good), Expand(Escaped(Encode(cs[n]) + tail, false, hasDoc)), Encode(cs[n]) + tail);
    }
  }

  lemma SameBack(a: seq<byte>, b: seq<byte>, c: seq<byte>)
    ensures a + b == a + c ==> b == c
  {
    assert (a + b)[|a|..] == b && (a + c)[|a|..] == c;
  }

  function FirstBad(cs: seq<Scalar>, i: nat): (n: nat)
    requires i <= |cs|
    ensures i <= n <= |cs| && (n < |cs| ==> !IsChar(cs[n])) && forall j :: i <= j < n ==> IsChar(cs[j])
    decreases |cs| - i
  {
    if i == |cs| || !IsChar(cs[i]) then i else FirstBad(cs, i + 1)
  }
}
