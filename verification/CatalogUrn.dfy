/** Public identifiers in catalogs: normalization, and the publicid URN form of RFC 3151. */
module CatalogUrn {
  import opened Common

  // ---------- normalization ----------

  predicate IsBlank(c: char)
  {
    c == ' ' || c == '\t' || c == '\n' || c == '\r'
  }

  datatype Scan = Scan(out: string, white: bool)

  /** What one more character does to a scan. */
  function Feed(st: Scan, c: char): Scan
  {
    if IsBlank(c) then Scan(st.out, st.white || st.out != "")
    else Scan((if st.white then st.out + " " else st.out) + [c], false)
  }

  function ScanOf(s: string): Scan
  {
    if s == "" then Scan("", false) else Feed(ScanOf(s[..|s| - 1]), s[|s| - 1])
  }

  /** Blanks at both ends are dropped, other runs of blanks become one space. */
  function Normalized(s: string): string
  {
    ScanOf(s).out
  }

  /** No blank but single spaces between other characters. */
  predicate IsNormal(s: string)
  {
    && (forall k :: 0 <= k < |s| && IsBlank(s[k]) ==> s[k] == ' ' && 0 < k < |s| - 1)
    && (forall k :: 0 <= k < |s| - 1 ==> !(IsBlank(s[k]) && IsBlank(s[k + 1])))
  }

  function Count(s: string, c: char): nat
  {
    if s == "" then 0 else Count(s[..|s| - 1], c) + if s[|s| - 1] == c then 1 else 0
  }

  function NonBlank(s: string): string
  {
    if s == "" then "" else NonBlank(s[..|s| - 1]) + if IsBlank(s[|s| - 1]) then "" else [s[|s| - 1]]
  }

  lemma {:induction false} CountAppend(s: string, t: string, c: char)
    ensures Count(s + t, c) == Count(s, c) + Count(t, c)
  {
    if t == "" {
      assert s + t == s;
    } else {
      CountAppend(s, t[..|t| - 1], c);
      assert (s + t)[..|s + t| - 1] == s + t[..|t| - 1];
    }
  }

  lemma NonBlankAppend1(s: string, c: char)
    ensures NonBlank(s + [c]) == NonBlank(s) + if IsBlank(c) then "" else [c]
  {
    assert (s + [c])[..|s|] == s;
  }

  /** A normalized identifier is normal, and has the other characters of the original in the same order. */
  lemma {:induction false} NormalizedMeans(s: string)
    ensures IsNormal(Normalized(s)) && NonBlank(Normalized(s)) == NonBlank(s)
    ensures ScanOf(s).white ==> ScanOf(s).out != ""
  {
    if s != "" {
      NormalizedMeans(s[..|s| - 1]);
      FeedMeans(ScanOf(s[..|s| - 1]), s[|s| - 1]);
    }
  }

  lemma FeedMeans(st: Scan, c: char)
    requires IsNormal(st.out) && (st.white ==> st.out != "")
    ensures IsNormal(Feed(st, c).out) && (Feed(st, c).white ==> Feed(st, c).out != "")
    ensures NonBlank(Feed(st, c).out) == NonBlank(st.out) + if IsBlank(c) then "" else [c]
  {
    if !IsBlank(c) {
      if st.white {
        NonBlankAppend1(st.out, ' ');
        NonBlankAppend1(st.out + " ", c);
        NormalAppend(st.out, [' ', c]);
        assert st.out + " " + [c] == st.out + [' ', c];
      } else {
        NonBlankAppend1(st.out, c);
        NormalAppend(st.out, [c]);
      }
    }
  }

  lemma NormalAppend(s: string, t: string)
    requires IsNormal(s) && |t| > 0 && !IsBlank(t[|t| - 1])
    requires |t| == 1 || (s != "" && |t| == 2 && t[0] == ' ')
    ensures IsNormal(s + t)
  {
    assert s != "" ==> !IsBlank(s[|s| - 1]);
  }

  /** A normal identifier is its own normal form. */
  lemma {:induction false} NormalIsFixed(s: string)
    requires forall k :: 0 <= k < |s| && IsBlank(s[k]) ==> s[k] == ' ' && 0 < k
    requires forall k :: 0 <= k < |s| - 1 ==> !(IsBlank(s[k]) && IsBlank(s[k + 1]))
    ensures ScanOf(s) == if s != "" && IsBlank(s[|s| - 1]) then Scan(s[..|s| - 1], true) else Scan(s, false)
  {
    if s != "" {
      var init := s[..|s| - 1];
      NormalIsFixed(init);
      if init != "" && IsBlank(init[|init| - 1]) {
        assert init[..|init| - 1] + " " == init;
      }
      assert init + [s[|s| - 1]] == s;
    }
  }

  lemma NormalizedIffNormal(s: string)
    ensures Normalized(s) == s <==> IsNormal(s)
    ensures Normalized(Normalized(s)) == Normalized(s)
  {
    NormalizedMeans(s);
    NormalIsFixed(Normalized(s));
    if IsNormal(s) {
      NormalIsFixed(s);
    }
  }

  /** Normalization keeps the number of times any other character occurs. */
  lemma {:induction false} NormalizedCount(s: string, c: char)
    requires !IsBlank(c)
    ensures Count(Normalized(s), c) == Count(s, c)
  {
    if s != "" {
      var init, x := s[..|s| - 1], s[|s| - 1];
      NormalizedCount(init, c);
      var o := ScanOf(init).out;
      if !IsBlank(x) {
        CountAppend(o, " ", c);
        CountAppend(if ScanOf(init).white then o + " " else o, [x], c);
      }
    }
  }

  /** Three neighbours that are no blanks were neighbours before. */
  lemma {:induction false} NormalizedNeighbours(s: string, k: nat) returns (j: nat)
    requires k + 2 < |Normalized(s)|
    requires !IsBlank(Normalized(s)[k]) && !IsBlank(Normalized(s)[k + 1]) && !IsBlank(Normalized(s)[k + 2])
    ensures j + 2 < |s|
    ensures s[j] == Normalized(s)[k] && s[j + 1] == Normalized(s)[k + 1] && s[j + 2] == Normalized(s)[k + 2]
  {
    var init := s[..|s| - 1];
    if k + 2 < |Normalized(init)| {
      j := NormalizedNeighbours(init, k);
    } else {
      assert !ScanOf(init).white;
      NormalizedTail(init);
      j := |s| - 3;
    }
  }

  /** Without a blank at the end, the ends agree up to the last blank. */
  lemma {:induction false} NormalizedTail(s: string)
    ensures !ScanOf(s).white && ScanOf(s).out != "" ==> s[|s| - 1] == ScanOf(s).out[|ScanOf(s).out| - 1]
    ensures !ScanOf(s).white && |ScanOf(s).out| > 1 && !IsBlank(ScanOf(s).out[|ScanOf(s).out| - 2]) ==>
              |s| > 1 && s[|s| - 2] == ScanOf(s).out[|ScanOf(s).out| - 2]
  {
    if s != "" {
      NormalizedTail(s[..|s| - 1]);
    }
  }

  /** xmlCatalogNormalizePublic: the result is None when nothing had to be changed. */
  method NormalizePublic(pubID: Option<string>) returns (r: Option<string>)
    ensures pubID.None? ==> r.None?
    ensures pubID.Some? ==>
              r == if IsNormal(pubID.value) && pubID.value != "" then None else Some(Normalized(pubID.value))
  {
    if pubID.None? {
      return None;
    }
    var s := pubID.value;
    var ok := CheckNormal(s);
    if ok {
      return None;
    }
    var q: string := "";
    var white := false;
    var p := 0;
    while p < |s|
      invariant 0 <= p <= |s| && Scan(q, white) == ScanOf(s[..p])
    {
      assert s[..p + 1][..p] == s[..p];
      if IsBlank(s[p]) {
        if q != "" {
          white := true;
        }
      } else {
        if white {
          q := q + " ";
          white := false;
        }
        q := q + [s[p]];
      }
      p := p + 1;
    }
    assert s[..p] == s;
    return Some(q);
  }

  /** The first loop of xmlCatalogNormalizePublic. */
  method CheckNormal(s: string) returns (normal: bool)
    ensures normal <==> IsNormal(s) && s != ""
  {
    var ok, white := true, true;
    var p := 0;
    while p < |s| && ok
      invariant 0 <= p <= |s|
      invariant ok ==> forall k :: 0 <= k < p && IsBlank(s[k]) ==> s[k] == ' ' && 0 < k
      invariant ok ==> forall k :: 0 <= k < p - 1 ==> !(IsBlank(s[k]) && IsBlank(s[k + 1]))
      invariant ok ==> (white <==> p == 0 || IsBlank(s[p - 1]))
      invariant !ok ==> !IsNormal(s)
    {
      if !IsBlank(s[p]) {
        white := false;
      } else if s[p] == ' ' && !white {
        white := true;
      } else {
        ok := false;
        assert p > 0 ==> IsBlank(s[p - 1]) || s[p] != ' ';
        assert p > 0 && IsBlank(s[p - 1]) ==> !(0 <= p - 1 && !(IsBlank(s[p - 1]) && IsBlank(s[p - 1 + 1])));
      }
      p := p + 1;
    }
    normal := ok && !white;
  }

  // ---------- unwrapping ----------

  const URN_PUBID := "urn:publicid:"
  const RESULT_SIZE := 2000

  predicate IsUrn(id: Option<string>)
  {
    id.Some? && StartsWith(id.value, URN_PUBID)
  }

  /** The character at position i; the terminating zero at the end. */
  function At(s: string, i: nat): char
  {
    if i < |s| then s[i] else '\0'
  }

  /** The character that a three-character escape at the start of s stands for. */
  function Escaped(s: string): Option<char>
  {
    if At(s, 0) != '%' then None
    else if At(s, 1) == '2' && At(s, 2) == 'B' then Some('+')
    else if At(s, 1) == '3' && At(s, 2) == 'A' then Some(':')
    else if At(s, 1) == '2' && At(s, 2) == 'F' then Some('/')
    else if At(s, 1) == '3' && At(s, 2) == 'B' then Some(';')
    else if At(s, 1) == '2' && At(s, 2) == '7' then Some('\'')
    else if At(s, 1) == '3' && At(s, 2) == 'F' then Some('?')
    else if At(s, 1) == '2' && At(s, 2) == '3' then Some('#')
    else if At(s, 1) == '2' && At(s, 2) == '5' then Some('%')
    else None
  }

  /** The first piece of a transcribed identifier: how many characters it takes and what they stand for. */
  function Piece(s: string): (r: (nat, string))
    requires s != ""
    ensures 1 <= r.0 <= |s| && 1 <= |r.1| <= 2
  {
    if s[0] == '+' then (1, " ")
    else if s[0] == ':' then (1, "//")
    else if s[0] == ';' then (1, "::")
    else match Escaped(s)
      case Some(c) => (3, [c])
      case None => (1, [s[0]])
  }

  /** The expansion of s where `used` characters of the buffer are taken: it stops when the buffer is almost full. */
  function Expand(s: string, used: nat): string
    decreases |s|
  {
    if s == "" || used > RESULT_SIZE - 4 then ""
    else
      var (n, out) := Piece(s);
      out + Expand(s[n..], used + |out|)
  }

  function Unwrapped(urn: string): string
    requires StartsWith(urn, URN_PUBID)
  {
    Expand(urn[|URN_PUBID|..], 0)
  }

  /** One turn of the loop: the next piece is put at position i of the buffer. */
  method PutPiece(result: array<char>, i: nat, s: string, p: nat) returns (j: nat, q: nat)
    requires p < |s| && i + 2 <= result.Length
    modifies result
    ensures j == i + |Piece(s[p..]).1| && q == p + Piece(s[p..]).0
    ensures result[..i] == old(result[..i]) && result[i..j] == Piece(s[p..]).1
  {
    j, q := i + 1, p + 1;
    assert forall k :: 0 <= k < 3 ==> At(s[p..], k) == At(s, p + k);
    if s[p] == '+' {
      result[i] := ' ';
    } else if s[p] == ':' {
      result[i], result[i + 1] := '/', '/';
      j := i + 2;
    } else if s[p] == ';' {
      result[i], result[i + 1] := ':', ':';
      j := i + 2;
    } else {
      var c := Escaped(s[p..]);
      if c.Some? {
        result[i] := c.value;
        q := p + 3;
      } else {
        result[i] := s[p];
      }
    }
  }

  /** xmlCatalogUnWrapURN. */
  method UnWrapURN(urn: string) returns (r: Option<string>)
    ensures r == if StartsWith(urn, URN_PUBID) then Some(Unwrapped(urn)) else None
  {
    if !StartsWith(urn, URN_PUBID) {
      return None;
    }
    var q := FillResult(urn[|URN_PUBID|..]);
    r := Some(q);
  }

  /** The loop of xmlCatalogUnWrapURN over its buffer of fixed size. */
  method FillResult(s: string) returns (r: string)
    ensures r == Expand(s, 0)
  {
    hide Expand, Piece;
    var result := new char[RESULT_SIZE];
    var i, p := 0, 0;
    assert s[p..] == s && result[..i] == "";
    while p < |s| && i <= RESULT_SIZE - 4
      invariant 0 <= p <= |s| && 0 <= i <= RESULT_SIZE - 2
      invariant Expand(s, 0) == result[..i] + Expand(s[p..], i)
      decreases |s| - p
    {
      ghost var was, rest, q := result[..i], s[p..], p;
      PieceDone(rest, i, was, was + Piece(rest).1);
      i, p := PutPiece(result, i, s, p);
      assert result[..i] == was + Piece(rest).1;
      assert rest[p - q..] == s[p..];
    }
    ExpandEnds(s[p..], i);
    result[i] := '\0';
    assert result[..i] + "" == result[..i];
    r := result[..i];
  }

  lemma ExpandEnds(rest: string, used: nat)
    requires rest == "" || used > RESULT_SIZE - 4
    ensures Expand(rest, used) == ""
  {}

  lemma PieceDone(rest: string, used: nat, was: string, now: string)
    requires rest != "" && used <= RESULT_SIZE - 4 && now == was + Piece(rest).1
    ensures was + Expand(rest, used) == now + Expand(rest[Piece(rest).0..], used + |Piece(rest).1|)
  {}

  /** A colon whose neighbours are no colons; `prev` stands in front of s. */
  ghost predicate LoneColon(s: string, prev: char)
  {
    exists j: nat :: LoneAt(s, prev, j)
  }

  predicate LoneAt(s: string, prev: char, j: nat)
  {
    j < |s| - 1 && s[j] == ':' && s[j + 1] != ':' && (if j == 0 then prev else s[j - 1]) != ':'
  }

  /** Expanding adds no percent sign, and a lone colon costs one, since it stands for %3A. */
  lemma {:induction false} ExpandPercent(s: string, used: nat, prev: char)
    ensures Count(Expand(s, used), '%') <= Count(s, '%')
    ensures LoneColon(Expand(s, used), prev) ==> Count(Expand(s, used), '%') < Count(s, '%')
    decreases |s|
  {
    var e := Expand(s, used);
    if e != "" {
      var (n, out) := Piece(s);
      var rest := Expand(s[n..], used + |out|);
      ExpandPercent(s[n..], used + |out|, out[|out| - 1]);
      PiecePercent(s);
      assert s == s[..n] + s[n..];
      CountAppend(s[..n], s[n..], '%');
      CountAppend(out, rest, '%');
      if LoneColon(e, prev) {
        LoneColonIn(out, rest, prev);
      }
    }
  }

  lemma CountTwo(a: char, b: char)
    ensures Count([a], '%') == (if a == '%' then 1 else 0)
    ensures Count([a, b], '%') == Count([a], '%') + Count([b], '%')
  {
    assert [a][..0] == "" && [b][..0] == "" && [a, b][..1] == [a];
  }

  lemma PiecePercent(s: string)
    requires s != ""
    ensures var (n, out) := Piece(s);
            Count(out, '%') <= Count(s[..n], '%') && (out == ":" ==> Count(out, '%') < Count(s[..n], '%'))
  {
    var (n, out) := Piece(s);
    CountTwo(s[0], s[0]);
    CountTwo(out[0], out[|out| - 1]);
    assert ":" == [':'];
    if n == 3 {
      assert s[0] == '%';
      assert s[..3] == [s[0]] + s[1..3];
      CountAppend([s[0]], s[1..3], '%');
      assert out == [out[0]];
    } else {
      assert s[..1] == [s[0]];
      assert out == [out[0]] || out == [out[0], out[1]];
    }
  }

  lemma LoneColonIn(out: string, rest: string, prev: char)
    requires LoneColon(out + rest, prev) && 1 <= |out| <= 2
    ensures out == "::" || |out| == 1 || ':' !in out ==> LoneColon(rest, out[|out| - 1]) || out == ":"
  {
    var e := out + rest;
    var j: nat :| LoneAt(e, prev, j);
    if j >= |out| {
      var k := j - |out|;
      assert rest[k] == e[j] && rest[k + 1] == e[j + 1] && (if k == 0 then out[|out| - 1] else rest[k - 1]) == e[j - 1];
      assert LoneAt(rest, out[|out| - 1], k);
    } else {
      assert e[j] == out[j] && (|out| == 1 ==> out == ":") && (|out| == 2 ==> e[1] == out[1] && e[0] == out[0]);
    }
  }

  /** What is exposed by unwrapping and then normalizing an identifier has fewer percent signs, if it is a URN again. */
  lemma NestedUrnShrinks(urn: string)
    requires StartsWith(urn, URN_PUBID)
    ensures var q := Unwrapped(urn);
            && (StartsWith(q, URN_PUBID) ==> Count(q, '%') < Count(urn, '%'))
            && (StartsWith(Normalized(q), URN_PUBID) ==> Count(Normalized(q), '%') < Count(urn, '%'))
  {
    hide Expand, Count, Normalized, LoneColon;
    var q, s := Unwrapped(urn), urn[|URN_PUBID|..];
    assert urn == URN_PUBID + s;
    CountAppend(URN_PUBID, s, '%');
    ExpandPercent(s, 0, ' ');
    var m := Normalized(q);
    NormalizedCount(q, '%');
    if StartsWith(q, URN_PUBID) {
      PrefixLetters(q);
      UrnHasLoneColon(q, q, 2);
    }
    if StartsWith(m, URN_PUBID) {
      PrefixLetters(m);
      var j := NormalizedNeighbours(q, 2);
      UrnHasLoneColon(m, q, j);
    }
  }

  lemma PrefixLetters(m: string)
    requires StartsWith(m, URN_PUBID)
    ensures |m| > 5 && m[2] == 'n' && m[3] == ':' && m[4] == 'p'
  {
    var u := m[..|URN_PUBID|];
    assert u[2] == 'n' && u[3] == ':' && u[4] == 'p';
  }

  /** Where the letters around the first colon of the prefix are neighbours, the colon stands alone. */
  lemma UrnHasLoneColon(m: string, q: string, j: nat)
    requires StartsWith(m, URN_PUBID) && j + 2 < |q| && q[j] == m[2] && q[j + 1] == m[3] && q[j + 2] == m[4]
    ensures LoneColon(q, ' ')
  {
    PrefixLetters(m);
    assert LoneAt(q, ' ', j + 1);
  }

  // ---------- the identifiers that are looked up ----------

  /** The public identifier in normal form; blank ones count as absent. */
  function Canonical(pub: Option<string>): Option<string>
  {
    match pub
    case None => None
    case Some(s) => if Normalized(s) == "" then None else Some(Normalized(s))
  }

  /** The start of xmlCatalogListXMLResolve. */
  method Canonicalize(pub: Option<string>) returns (r: Option<string>)
    ensures r == Canonical(pub)
  {
    r := pub;
    var normid := NormalizePublic(pub);
    if normid.Some? {
      r := if normid.value != "" then normid else None;
    } else if pub.Some? {
      NormalizedIffNormal(pub.value);
    }
  }

  lemma CanonicalTwice(pub: Option<string>)
    ensures Canonical(Canonical(pub)) == Canonical(pub)
  {
    if pub.Some? {
      NormalizedIffNormal(pub.value);
    }
  }

  function Weight(id: Option<string>): nat
  {
    if IsUrn(id) then 1 + Count(id.value, '%') else 0
  }

  /** Falls with every unwrapping. */
  function Rank(pub: Option<string>, sys: Option<string>): nat
  {
    Weight(Canonical(pub)) + Weight(sys)
  }

  lemma UnwrappedPublic(pub: Option<string>, sys: Option<string>)
    requires IsUrn(Canonical(pub))
    ensures Rank(Some(Unwrapped(Canonical(pub).value)), sys) < Rank(pub, sys)
  {
    NestedUrnShrinks(Canonical(pub).value);
  }

  lemma UnwrappedSystem(pub: Option<string>, sys: Option<string>)
    requires !IsUrn(Canonical(pub)) && IsUrn(sys)
    ensures var q := Some(Unwrapped(sys.value));
            && Rank(q, None) < Rank(pub, sys)
            && Rank(Canonical(pub), None) < Rank(pub, sys)
            && Rank(Canonical(pub), q) < Rank(pub, sys)
  {
    NestedUrnShrinks(sys.value);
    CanonicalTwice(pub);
  }

  datatype Identifiers = Nothing | Lookup(pub: Option<string>, sys: Option<string>)

  /** The identifiers to go on with when one of them is a URN. */
  function Unwrapping(p: Option<string>, sys: Option<string>): Identifiers
  {
    if IsUrn(p) then Lookup(Some(Unwrapped(p.value)), sys)
    else if IsUrn(sys) then
      var q := Some(Unwrapped(sys.value));
      if p.None? then Lookup(q, None) else Lookup(p, if p == q then None else q)
    else Nothing
  }

  method Unwrap(p: Option<string>, sys: Option<string>) returns (r: Identifiers)
    ensures r == Unwrapping(p, sys)
  {
    if IsUrn(p) {
      var q := UnWrapURN(p.value);
      return Lookup(q, sys);
    }
    if IsUrn(sys) {
      var q := UnWrapURN(sys.value);
      return if p.None? then Lookup(q, None) else Lookup(p, if p == q then None else q);
    }
    return Nothing;
  }

  /** Every unwrapping is progress. */
  lemma UnwrapFalls(pub: Option<string>, sys: Option<string>)
    ensures var r := Unwrapping(Canonical(pub), sys);
            r.Lookup? ==> Rank(r.pub, r.sys) < Rank(pub, sys)
  {
    if IsUrn(Canonical(pub)) {
      UnwrappedPublic(pub, sys);
    } else if IsUrn(sys) {
      UnwrappedSystem(pub, sys);
    }
  }

  /** What is left to look up after all URNs are unwrapped. */
  function Effective(pub: Option<string>, sys: Option<string>): (r: Identifiers)
    ensures r.Lookup? ==> !IsUrn(r.pub) && !IsUrn(r.sys) && Canonical(r.pub) == r.pub
    decreases Rank(pub, sys)
  {
    if pub.None? && sys.None? then Nothing
    else
      var p := Canonical(pub);
      UnwrapFalls(pub, sys);
      match Unwrapping(p, sys)
      case Lookup(q, s) => Effective(q, s)
      case Nothing =>
        CanonicalTwice(pub);
        Lookup(p, sys)
  }

  lemma EffectiveStep(pub: Option<string>, sys: Option<string>)
    requires pub.Some? || sys.Some?
    ensures var next := Unwrapping(Canonical(pub), sys);
      Effective(pub, sys) == if next.Lookup? then Effective(next.pub, next.sys) else Lookup(Canonical(pub), sys)
  {}

  // ---------- what unwrapping undoes ----------

  /** How a character of a public identifier is written in a URN, section 1.2 of RFC 3151. */
  function Transcription(c: char): string
  {
    match c
    case ' ' => "+"
    case '+' => "%2B"
    case ':' => "%3A"
    case '/' => "%2F"
    case ';' => "%3B"
    case '\'' => "%27"
    case '?' => "%3F"
    case '#' => "%23"
    case '%' => "%25"
    case _ => [c]
  }

  /** The URN form of a public identifier, without the prefix; double slashes and double colons have their own sign. */
  function Transcribed(s: string): string
    decreases |s|
  {
    if s == "" then ""
    else if StartsWith(s, "//") then ":" + Transcribed(s[2..])
    else if StartsWith(s, "::") then ";" + Transcribed(s[2..])
    else Transcription(s[0]) + Transcribed(s[1..])
  }

  lemma PieceOfTranscription(c: char, rest: string)
    ensures Transcription(c) != "" && Piece(Transcription(c) + rest) == (|Transcription(c)|, [c])
    ensures (Transcription(c) + rest)[|Transcription(c)|..] == rest
  {
  }

  lemma ExpandStep(t: string, n: nat, out: string, rest: string, used: nat)
    requires t != "" && Piece(t) == (n, out) && t[n..] == rest && used <= RESULT_SIZE - 4
    ensures Expand(t, used) == out + Expand(rest, used + |out|)
  {
    hide Piece;
  }

  lemma {:induction false} ExpandTranscribed(s: string, used: nat)
    requires used + |s| <= RESULT_SIZE - 3
    ensures Expand(Transcribed(s), used) == s
    decreases |s|
  {
    hide Piece, Transcription, Expand;
    if s == "" {
      NothingLeft(used);
    } else if StartsWith(s, "//") || StartsWith(s, "::") {
      var sign := if StartsWith(s, "//") then ':' else ';';
      PieceOfSign(sign, Transcribed(s[2..]));
      ExpandStep([sign] + Transcribed(s[2..]), 1, s[..2], Transcribed(s[2..]), used);
      ExpandTranscribed(s[2..], used + 2);
      assert s == s[..2] + s[2..];
    } else {
      PieceOfTranscription(s[0], Transcribed(s[1..]));
      ExpandStep(Transcribed(s), |Transcription(s[0])|, [s[0]], Transcribed(s[1..]), used);
      ExpandTranscribed(s[1..], used + 1);
      assert s == [s[0]] + s[1..];
    }
  }

  lemma NothingLeft(used: nat)
    ensures Expand("", used) == ""
  {
  }

  lemma PieceOfSign(c: char, rest: string)
    requires c == ':' || c == ';'
    ensures Piece([c] + rest) == (1, if c == ':' then "//" else "::") && ([c] + rest)[1..] == rest
  {
  }

  /** Unwrapping gives back every public identifier that was written as a URN, up to the size of the buffer. */
  lemma UnwrapUndoes(s: string)
    requires |s| <= RESULT_SIZE - 3
    ensures StartsWith("urn:publicid:" + Transcribed(s), URN_PUBID) && Unwrapped("urn:publicid:" + Transcribed(s)) == s
  {
    var urn := "urn:publicid:" + Transcribed(s);
    assert urn[..13] == "urn:publicid:" && urn[13..] == Transcribed(s);
    ExpandTranscribed(s, 0);
  }

  /** Which identifiers are looked up: a public URN is unwrapped and goes first; a system URN is unwrapped and serves as
      the public identifier when there is none, and is dropped when it says the same as the public one. */
  lemma EffectiveSpelledOut(pub: Option<string>, sys: Option<string>)
    requires pub.Some? || sys.Some?
    ensures var p := if pub.None? || Normalized(pub.value) == "" then None else Some(Normalized(pub.value));
      var pubIsUrn, sysIsUrn := p.Some? && StartsWith(p.value, "urn:publicid:"), sys.Some? && StartsWith(sys.value, "urn:publicid:");
      && (!pubIsUrn && !sysIsUrn ==> Effective(pub, sys) == Lookup(p, sys))
      && (pubIsUrn ==> Effective(pub, sys) == Effective(Some(Unwrapped(p.value)), sys))
      && (!pubIsUrn && sysIsUrn ==>
            var q := Some(Unwrapped(sys.value));
            Effective(pub, sys) == if p.None? then Effective(q, None) else if p == q then Effective(p, None) else Effective(p, q))
  {
    hide Effective, Unwrapped, Normalized;
    EffectiveStep(pub, sys);
  }
}
