/** The quoting of namespace URIs and system identifiers (xmlBufWriteQuotedString), and when it can be undone. */
module Quoting {
  import opened Octets
  import opened Common
  import opened References
  import opened Buf

  const QUOTE: byte := 34
  const APOSTROPHE: byte := 39

  function Mask(c: byte): seq<byte>
  {
    if c == QUOTE then QUOT_REF else [c]
  }

  /** Quotes become references. */
  function Masked(s: seq<byte>): seq<byte>
  {
    if s == [] then [] else Mask(s[0]) + Masked(s[1..])
  }

  /** Not both kinds of quotes. */
  predicate Clear(s: seq<byte>)
  {
    QUOTE !in s || APOSTROPHE !in s
  }

  function QuotedBy(s: seq<byte>): byte
  {
    if QUOTE in s && APOSTROPHE !in s then APOSTROPHE else QUOTE
  }

  /** Apostrophes are used around a string that has quotes and no apostrophe; references when it has both. */
  function Quoted(s: seq<byte>): seq<byte>
  {
    [QuotedBy(s)] + (if Clear(s) then s else Masked(s)) + [QuotedBy(s)]
  }

  lemma {:induction false} MaskedSnoc(s: seq<byte>, c: byte)
    ensures Masked(s + [c]) == Masked(s) + Mask(c)
  {
    if s == [] {
      assert Masked([c]) == Mask(c) + Masked([c][1..]);
    } else {
      assert (s + [c])[1..] == s[1..] + [c];
      MaskedSnoc(s[1..], c);
    }
  }

  /** A buffer in good order that holds c and can always grow. */
  ghost predicate HasText(buf: XmlBuf, c: seq<byte>)
    reads buf, buf.mem
  {
    buf.Valid() && !buf.error && !buf.alloc.Bounded? && buf.Contents() == c
  }

  /** One append, which cannot fail. */
  method Put(buf: XmlBuf, s: seq<byte>, ghost c: seq<byte>)
    requires HasText(buf, c) && |c| + |s| + 12 <= REQUEST_MAX
    modifies buf, buf.mem
    ensures HasText(buf, c + s) && (buf.mem == old(buf.mem) || fresh(buf.mem))
  {
    assert s[..|s|] == s;
    var r := buf.Add(s, |s|);
  }

  method PutQuote(buf: XmlBuf, q: byte, ghost c: seq<byte>)
    requires HasText(buf, c) && |c| + 12 <= REQUEST_MAX
    modifies buf, buf.mem
    ensures HasText(buf, c + [q]) && (buf.mem == old(buf.mem) || fresh(buf.mem))
  {
    var r := buf.CCat([q]);
  }

  /** The characters between two quotes, if any. */
  method PutRun(buf: XmlBuf, s: seq<byte>, ghost c: seq<byte>)
    requires HasText(buf, c) && |c| + |s| + 12 <= REQUEST_MAX
    modifies buf, buf.mem
    ensures HasText(buf, c + s) && (buf.mem == old(buf.mem) || fresh(buf.mem))
  {
    if s != [] {
      Put(buf, s, c);
    } else {
      assert c + s == c;
    }
  }

  /** The string with references for its quotes. `d` is what has been put already, up to `base`. */
  method PutMasked(buf: XmlBuf, s: seq<byte>, ghost c: seq<byte>)
    requires HasText(buf, c) && |c| + |Masked(s)| + 12 <= REQUEST_MAX
    modifies buf, buf.mem
    ensures HasText(buf, c + Masked(s)) && (buf.mem == old(buf.mem) || fresh(buf.mem))
  {
    assert s[..0] == [] && Masked(s[..0]) == [];
    hide HasText, Masked, MaskedUpTo;
    var base, cur := 0, 0;
    ghost var d := c;
    while cur < |s|
      invariant 0 <= base <= cur <= |s| && HasText(buf, d) && (buf.mem == old(buf.mem) || fresh(buf.mem))
      invariant MaskedUpTo(c, d, s, base, cur)
    {
      Turn(c, d, s, base, cur);
      if s[cur] == QUOTE {
        PutRun(buf, s[base..cur], d);
        Put(buf, QUOT_REF, d + s[base..cur]);
        d := d + s[base..cur] + QUOT_REF;
        base := cur + 1;
      }
      cur := cur + 1;
    }
    AllMasked(c, d, s, base);
    PutRun(buf, s[base..cur], d);
  }

  /** d is c and the string up to `base`. */
  ghost predicate MaskedUpTo(c: seq<byte>, d: seq<byte>, s: seq<byte>, base: nat, cur: nat)
    requires base <= cur <= |s|
  {
    d + s[base..cur] == c + Masked(s[..cur])
  }

  lemma Turn(c: seq<byte>, d: seq<byte>, s: seq<byte>, base: nat, cur: nat)
    requires base <= cur < |s| && MaskedUpTo(c, d, s, base, cur)
    ensures s[cur] == QUOTE ==> MaskedUpTo(c, d + s[base..cur] + QUOT_REF, s, cur + 1, cur + 1)
    ensures s[cur] != QUOTE ==> MaskedUpTo(c, d, s, base, cur + 1)
    ensures |d| + |s[base..cur]| + |Mask(s[cur])| <= |c| + |Masked(s)|
  {
    MaskedFront(s, cur);
    hide Masked;
    assert s[base..cur + 1] == s[base..cur] + [s[cur]] && s[cur + 1..cur + 1] == [];
    assert c + Masked(s[..cur + 1]) == c + Masked(s[..cur]) + Mask(s[cur]);
    assert d + s[base..cur + 1] == d + s[base..cur] + [s[cur]];
  }

  lemma AllMasked(c: seq<byte>, d: seq<byte>, s: seq<byte>, base: nat)
    requires base <= |s| && MaskedUpTo(c, d, s, base, |s|)
    ensures d + s[base..|s|] == c + Masked(s)
  {
    assert s[..|s|] == s;
  }

  lemma MaskedFront(s: seq<byte>, i: nat)
    requires i < |s|
    ensures Masked(s[..i + 1]) == Masked(s[..i]) + Mask(s[i])
    ensures |Masked(s[..i + 1])| <= |Masked(s)|
  {
    assert s[..i + 1] == s[..i] + [s[i]];
    MaskedSnoc(s[..i], s[i]);
    assert s == s[..i + 1] + s[i + 1..];
    MaskedAppend(s[..i + 1], s[i + 1..]);
  }

  lemma {:induction false} MaskedAppend(s: seq<byte>, t: seq<byte>)
    ensures Masked(s + t) == Masked(s) + Masked(t)
  {
    if s == [] {
      assert s + t == t;
    } else {
      assert (s + t)[1..] == s[1..] + t;
      MaskedAppend(s[1..], t);
    }
  }

  /** xmlBufWriteQuotedString. */
  method WriteQuotedString(buf: XmlBuf, s: seq<byte>, ghost c: seq<byte>)
    requires HasText(buf, c) && |c| + |Quoted(s)| + 12 <= REQUEST_MAX && 0 !in s
    modifies buf, buf.mem
    ensures HasText(buf, c + Quoted(s)) && (buf.mem == old(buf.mem) || fresh(buf.mem))
  {
    ghost var q, t := QuotedBy(s), if Clear(s) then s else Masked(s);
    hide HasText, Masked;
    assert c + [q] + t + [q] == c + Quoted(s);
    if QUOTE in s {
      if APOSTROPHE in s {
        PutQuote(buf, QUOTE, c);
        PutMasked(buf, s, c + [q]);
        PutQuote(buf, QUOTE, c + [q] + t);
      } else {
        PutQuote(buf, APOSTROPHE, c);
        Put(buf, s, c + [q]);
        PutQuote(buf, APOSTROPHE, c + [q] + t);
      }
    } else {
      PutQuote(buf, QUOTE, c);
      Put(buf, s, c + [q]);
      PutQuote(buf, QUOTE, c + [q] + t);
    }
  }

  // ---------- reading it back ----------

  lemma NotShorter(a: seq<byte>, x: seq<byte>, b: seq<byte>, y: seq<byte>, stop: set<byte>)
    requires (forall c :: c in b ==> c !in stop) && (x == [] || x[0] in stop) && a + x == b + y
    ensures |a| >= |b|
  {
    assert forall i :: 0 <= i < |b| ==> (b + y)[i] == b[i] && b[i] in b;
    if x != [] {
      assert (b + y)[|a|] == (a + x)[|a|] == x[0];
    } else {
      assert |a + x| == |a|;
    }
  }

  /** Two strings that end at the same kind of byte are read alike. */
  lemma SplitAt(a: seq<byte>, x: seq<byte>, b: seq<byte>, y: seq<byte>, stop: set<byte>)
    requires (forall c :: c in a ==> c !in stop) && (forall c :: c in b ==> c !in stop)
    requires (x == [] || x[0] in stop) && (y == [] || y[0] in stop) && a + x == b + y
    ensures a == b && x == y
  {
    NotShorter(a, x, b, y, stop);
    NotShorter(b, y, a, x, stop);
    assert a == (a + x)[..|a|] && x == (a + x)[|a|..] && b == (b + y)[..|b|] && y == (b + y)[|b|..];
  }

  lemma QuotedParts(s: seq<byte>, x: seq<byte>) returns (q: byte)
    requires Clear(s)
    ensures q !in s && (Quoted(s) + x)[0] == q && (Quoted(s) + x)[1..] == s + ([q] + x)
  {
    q := QuotedBy(s);
    assert Quoted(s) + x == [q] + (s + ([q] + x));
  }

  lemma QuotedReads(s: seq<byte>, x: seq<byte>, t: seq<byte>, y: seq<byte>)
    requires Clear(s) && Clear(t) && Quoted(s) + x == Quoted(t) + y
    ensures s == t && x == y
  {
    var q := QuotedParts(s, x);
    var r := QuotedParts(t, y);
    hide Quoted;
    SplitAt(s, [q] + x, t, [q] + y, {q});
    assert ([q] + x)[1..] == x && ([q] + y)[1..] == y;
  }

  predicate Contains(s: seq<byte>, p: seq<byte>)
  {
    exists i :: 0 <= i <= |s| && StartsWith(s[i..], p)
  }

  /** What is printed identifies the string. */
  ghost predicate Unmistakable(s: seq<byte>)
  {
    forall t :: Quoted(t) == Quoted(s) ==> t == s
  }

  /** It does unless there is an apostrophe together with a quote or with the reference for one. */
  lemma QuotedIdentifies(s: seq<byte>)
    ensures Unmistakable(s) <==> APOSTROPHE !in s || (QUOTE !in s && !Contains(s, QUOT_REF))
  {
    MaskedMembers(s);
    if APOSTROPHE in s && QUOTE in s {
      assert Quoted(Masked(s)) == Quoted(s) && Masked(s) != s;
    } else if APOSTROPHE in s && Contains(s, QUOT_REF) {
      var i :| 0 <= i <= |s| && StartsWith(s[i..], QUOT_REF);
      var t := s[..i] + [QUOTE] + s[i + 6..];
      Unmask(s, i);
      assert t != s;
    } else {
      forall t | Quoted(t) == Quoted(s) ensures t == s {
        OnlyOne(s, t);
      }
    }
  }

  lemma OnlyOne(s: seq<byte>, t: seq<byte>)
    requires Quoted(t) == Quoted(s) && (APOSTROPHE !in s || (QUOTE !in s && !Contains(s, QUOT_REF)))
    ensures t == s
  {
    if Clear(t) {
      assert Quoted(s) + [] == Quoted(s) && Quoted(t) + [] == Quoted(t);
      QuotedReads(s, [], t, []);
    } else {
      NotClear(s, t);
    }
  }

  lemma FirstByte(s: seq<byte>)
    ensures Quoted(s) != [] && Quoted(s)[0] == QuotedBy(s)
  {
  }

  lemma NotClear(s: seq<byte>, t: seq<byte>)
    requires Quoted(t) == Quoted(s) && !Clear(t)
    ensures APOSTROPHE in s && (QUOTE in s || Contains(s, QUOT_REF))
  {
    MaskedMembers(t);
    assert QUOTE !in s ==> Quoted(s)[1..|Quoted(s)| - 1] == s;
    assert Quoted(t)[1..|Quoted(t)| - 1] == Masked(t);
    FirstByte(s);
    FirstByte(t);
  }

  lemma {:induction false} MaskedMembers(s: seq<byte>)
    ensures QUOTE !in Masked(s) && (APOSTROPHE in s <==> APOSTROPHE in Masked(s))
    ensures QUOTE !in s ==> Masked(s) == s
    ensures QUOTE in s ==> Contains(Masked(s), QUOT_REF)
  {
    if s != [] {
      MaskedMembers(s[1..]);
      var first := if s[0] == QUOTE then QUOT_REF else [s[0]];
      if s[0] == QUOTE {
        assert StartsWith(Masked(s)[0..], QUOT_REF);
      } else if QUOTE in s {
        assert QUOTE in s[1..];
        var i :| 0 <= i <= |Masked(s[1..])| && StartsWith(Masked(s[1..])[i..], QUOT_REF);
        assert Masked(s)[i + 1..] == Masked(s[1..])[i..];
      }
    }
  }

  /** Undoing one reference leaves a string that is printed alike. */
  lemma Unmask(s: seq<byte>, i: nat)
    requires i <= |s| && StartsWith(s[i..], QUOT_REF) && QUOTE !in s && APOSTROPHE in s
    ensures var t := s[..i] + [QUOTE] + s[i + 6..]; Quoted(t) == Quoted(s) && QUOTE in t
  {
    var a, b := s[..i], s[i + 6..];
    assert s == a + QUOT_REF + b;
    BothIn(a, QUOT_REF, b);
    UnmaskAt(a, b);
  }

  lemma UnmaskAt(a: seq<byte>, b: seq<byte>)
    requires QUOTE !in a && QUOTE !in b && (APOSTROPHE in a || APOSTROPHE in b)
    ensures Quoted(a + [QUOTE] + b) == Quoted(a + QUOT_REF + b) && QUOTE in a + [QUOTE] + b
  {
    MaskOne(a, b);
    hide Masked;
    BothIn(a, [QUOTE], b);
    BothIn(a, QUOT_REF, b);
  }

  lemma BothIn(a: seq<byte>, m: seq<byte>, b: seq<byte>)
    ensures forall c :: c in a + m + b <==> c in a || c in m || c in b
  {
  }

  lemma MaskOne(a: seq<byte>, b: seq<byte>)
    requires QUOTE !in a && QUOTE !in b
    ensures Masked(a + [QUOTE] + b) == a + QUOT_REF + b
  {
    MaskedAppend(a + [QUOTE], b);
    MaskedAppend(a, [QUOTE]);
    MaskedMembers(a);
    MaskedMembers(b);
    assert Masked([QUOTE]) == QUOT_REF + Masked([QUOTE][1..]) == QUOT_REF;
  }
}
