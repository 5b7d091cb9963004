/** xmlCharEncOutput of encoding.c with the ASCII and Latin 1 encoders: characters that the encoding does not have
    become character references. */
module CharEncOutput {
  import opened Octets
  import opened Utf8
  import opened References
  import opened Transcoding
  import opened Buf

  const CHUNK := 65536

  // ---------- what is to be written ----------

  /** One character in the encoding: its byte, or else its decimal reference. */
  function Substitute(enc: SingleByte, c: Scalar): seq<byte>
  {
    if c < Limit(enc) then [c] else DecimalRef(c)
  }

  function SubstituteAll(enc: SingleByte, cs: seq<Scalar>): seq<byte>
  {
    if cs == [] then [] else Substitute(enc, cs[0]) + SubstituteAll(enc, cs[1..])
  }

  lemma {:induction false} SubstituteAppend(enc: SingleByte, a: seq<Scalar>, b: seq<Scalar>)
    ensures SubstituteAll(enc, a + b) == SubstituteAll(enc, a) + SubstituteAll(enc, b)
  {
    if a == [] {
      assert a + b == b;
    } else {
      assert (a + b)[1..] == a[1..] + b;
      SubstituteAppend(enc, a[1..], b);
    }
  }

  /** Characters that the encoding has are their own bytes. */
  lemma {:induction false} SubstitutePlain(enc: SingleByte, cs: seq<Scalar>)
    requires forall i :: 0 <= i < |cs| ==> cs[i] < Limit(enc)
    ensures SubstituteAll(enc, cs) == cs
  {
    if cs != [] {
      SubstitutePlain(enc, cs[1..]);
    }
  }

  lemma {:induction false} EncodeAscii(cs: seq<Scalar>)
    requires forall i :: 0 <= i < |cs| ==> cs[i] < 0x80
    ensures EncodeAll(cs) == cs
  {
    if cs != [] {
      EncodeAscii(cs[1..]);
    }
  }

  // ---------- bytes above ASCII ----------

  function HighBytes(s: seq<byte>): nat
  {
    if s == [] then 0 else (if s[0] >= 0x80 then 1 else 0) + HighBytes(s[1..])
  }

  lemma {:induction false} HighAppend(a: seq<byte>, b: seq<byte>)
    ensures HighBytes(a + b) == HighBytes(a) + HighBytes(b)
  {
    if a == [] {
      assert a + b == b;
    } else {
      assert (a + b)[1..] == a[1..] + b;
      HighAppend(a[1..], b);
    }
  }

  lemma HighDrop(s: seq<byte>, n: nat)
    requires n <= |s|
    ensures HighBytes(s[n..]) <= HighBytes(s)
    ensures n > 0 && s[0] >= 0x80 ==> HighBytes(s[n..]) < HighBytes(s)
  {
    assert s == s[..n] + s[n..];
    HighAppend(s[..n], s[n..]);
  }

  lemma {:induction false} NoHigh(s: seq<byte>)
    requires forall i :: 0 <= i < |s| ==> s[i] < 0x80
    ensures HighBytes(s) == 0
  {
    if s != [] {
      NoHigh(s[1..]);
    }
  }

  lemma {:induction false} HighBound(s: seq<byte>)
    ensures HighBytes(s) <= |s|
  {
    if s != [] {
      HighBound(s[1..]);
    }
  }

  // ---------- xmlGetUTF8Char ----------

  /** The character at the beginning of s and its length; (-1, 0) if there is none. */
  function GetUTF8Char(s: seq<byte>): (r: (int, nat))
    ensures r.0 == -1 || (0 <= r.0 < 0x20_0000 && 1 <= r.1 <= |s| && r.1 <= 4)
  {
    if s == [] then (-1, 0)
    else if s[0] < 0x80 then (s[0], 1)
    else if |s| < 2 || !IsTrail(s[1]) then (-1, 0)
    else if s[0] < 0xE0 then (Shift(s[0] % 0x20, s[1]), 2)
    else if |s| < 3 || !IsTrail(s[2]) then (-1, 0)
    else if s[0] < 0xF0 then (Shift(Shift(s[0] % 0x10, s[1]), s[2]), 3)
    else if |s| < 4 || s[0] >= 0xF8 || !IsTrail(s[3]) then (-1, 0)
    else (Shift(Shift(Shift(s[0] % 0x08, s[1]), s[2]), s[3]), 4)
  }

  /** The converters and this function read the same characters. */
  lemma GetMatchesNext(s: seq<byte>)
    requires s != [] && NextOf(s).Char? && NextOf(s).good
    ensures GetUTF8Char(s) == (NextOf(s).c, NextOf(s).n)
  {
    hide Shift;
    var t := LeadOf(s[0]).trailing;
    if t >= 1 {
      assert s[1..][1..] == s[2..];
    }
    if t >= 2 {
      assert s[2..][1..] == s[3..];
    }
  }

  lemma GetEncoded(c: Scalar, rest: seq<byte>)
    ensures GetUTF8Char(Encode(c) + rest) == (c, |Encode(c)|)
  {
    NextOfEncoded(c, rest);
    GetMatchesNext(Encode(c) + rest);
  }

  /** References to what four bytes of UTF-8 can hold are at most ten bytes long, and ASCII. */
  lemma ReferenceShape(n: nat)
    requires n < 0x20_0000
    ensures 4 <= |DecimalRef(n)| <= 10
    ensures forall i :: 0 <= i < |DecimalRef(n)| ==> 0 < DecimalRef(n)[i] < 0x80
  {
    NumeralShape(n, 10);
    NumeralLength(n, 10);
    NumeralLength(n / 10, 10);
    NumeralLength(n / 10 / 10, 10);
    NumeralLength(n / 10 / 10 / 10, 10);
    NumeralLength(n / 10 / 10 / 10 / 10, 10);
    NumeralLength(n / 10 / 10 / 10 / 10 / 10, 10);
    NumeralLength(n / 10 / 10 / 10 / 10 / 10 / 10, 10);
  }

  // ---------- the conversion ----------

  /** Both buffers are in order, apart, and neither limited nor failed. */
  ghost predicate Ready(out: XmlBuf, inn: XmlBuf)
    reads out, inn, out.mem, inn.mem
  {
    && out != inn && out.mem != inn.mem && out.Valid() && inn.Valid()
    && !out.error && !inn.error && !out.alloc.Bounded? && !inn.alloc.Bounded?
  }

  /** Never grows: what is in the buffers, and what references can add to it. */
  ghost function Load(out: XmlBuf, inn: XmlBuf): nat
    reads out, inn, out.mem, inn.mem
    requires Ready(out, inn)
  {
    out.use + inn.use + 10 * HighBytes(inn.Contents())
  }

  /** Room for the next chunk: how many bytes the converter may write. */
  method PrepareOutput(out: XmlBuf, toconv: nat) returns (written: nat)
    requires out.Valid() && !out.error && !out.alloc.Bounded? && 0 < toconv <= CHUNK && out.use + 4 * CHUNK <= REQUEST_MAX
    modifies out`mem, out`use, out`size, out`compatUse, out`compatSize, out`error
    ensures out.Valid() && !out.error && out.Contents() == old(out.Contents()) && (out.mem == old(out.mem) || fresh(out.mem))
    ensures 4 * toconv <= written < out.size - out.use
  {
    written := out.size - out.use;
    if written > 0 {
      written := written - 1;
    }
    if toconv * 4 >= written {
      var r := out.Grow(toconv * 4);
      written := out.size - out.use - 1;
    }
    if written > 4 * CHUNK {
      written := 4 * CHUNK;
    }
  }

  /** The converter writes behind the contents of the output buffer. */
  method ConvertInto(enc: SingleByte, out: XmlBuf, room: nat, chunk: seq<byte>, ghost ds: seq<Scalar>, ghost ascii: nat)
    returns (ret: int, written: nat, inlen: nat, ghost k: nat, ghost output: seq<byte>)
    requires out.Valid() && !out.error && room < out.size - out.use
    requires ascii <= |chunk| && forall i :: 0 <= i < ascii ==> chunk[i] < 0x80
    modifies out`use, out`size, out`compatUse, out`compatSize, out.mem
    ensures out.Valid() && out.Contents() == old(out.Contents()) + output && |output| == written
    ensures written <= inlen <= |chunk| && (inlen > 0 ==> written > 0) && (inlen >= ascii ==> written >= ascii)
    ensures ret == written || (ret == -2 && inlen < |chunk| && chunk[inlen] >= 0x80)
    ensures IsPrefix(chunk, EncodeAll(ds)) ==>
              && Converted(enc, ds, k, inlen, output)
              && Stopped(enc, ds, k, chunk, inlen, written == room, ret == -2)
  {
    hide Encode, EncodeAll, Converted, Stopped;
    var o := out.off + out.use;
    ghost var before, rest := out.Contents(), out.mem[o..];
    assert rest[0] == 0;
    ret, written, inlen, k := FromUTF8(enc, out.mem, o, room, chunk, ds, ascii);
    output := out.mem[o..o + written];
    assert out.mem[..o][out.off..] == before;
    assert out.mem[out.off..out.off + out.use + written] == before + output;
    if written > 0 {
      var r := out.AddLen(written);
    } else {
      assert out.mem[o..] == rest && rest[0] == out.mem[o];
      assert out.Contents() == before + output;
    }
  }

  /** What remains to be written of a text, when the first k of its characters were. */
  ghost predicate Remaining(enc: SingleByte, ds: seq<Scalar>, k: nat, output: seq<byte>, rest: seq<byte>)
  {
    k <= |ds| && |output| == k && output == SubstituteAll(enc, ds[..k]) && rest == EncodeAll(ds[k..])
  }

  lemma ConvertedRemains(enc: SingleByte, ds: seq<Scalar>, k: nat, inp: seq<byte>, inlen: nat, output: seq<byte>)
    requires Converted(enc, ds, k, inlen, output) && inp == EncodeAll(ds)
    ensures inlen <= |inp| && Remaining(enc, ds, k, output, inp[inlen..])
  {
    hide Encode, EncodeAll, SubstituteAll, Limit;
    assert ds == ds[..k] + ds[k..];
    EncodeAllAppend(ds[..k], ds[k..]);
    SubstitutePlain(enc, ds[..k]);
    assert output == ds[..k];
  }

  /** Why the conversion of the first `toconv` bytes of a text stopped. */
  ghost predicate Finished(enc: SingleByte, ds: seq<Scalar>, k: nat, total: nat, inlen: nat, failed: bool)
  {
    if failed then k < |ds| && ds[k] >= Limit(enc)
    else k == |ds| || (total > CHUNK && inlen + 4 > CHUNK)
  }

  lemma ChunkFinished(enc: SingleByte, ds: seq<Scalar>, k: nat, inp: seq<byte>, toconv: nat, inlen: nat, output: seq<byte>, failed: bool)
    requires Converted(enc, ds, k, inlen, output) && inp == EncodeAll(ds)
    requires toconv == if |inp| > CHUNK then CHUNK else |inp|
    requires Stopped(enc, ds, k, inp[..toconv], inlen, false, failed)
    ensures Finished(enc, ds, k, |inp|, inlen, failed)
  {
    if !failed && k < |ds| {
      LengthNext(ds, k);
      assert |EncodeAll(ds)| >= inlen + |Encode(ds[k])|;
    }
  }

  /** The first chunk of the input is converted into the output buffer. `ascii` bytes at its beginning are ASCII. */
  method ConvertChunk(enc: SingleByte, out: XmlBuf, inp: seq<byte>, ghost ds: seq<Scalar>, ghost ascii: nat)
    returns (ret: int, written: nat, inlen: nat, ghost k: nat, ghost output: seq<byte>)
    requires out.Valid() && !out.error && !out.alloc.Bounded? && inp != [] && out.use + 4 * CHUNK <= REQUEST_MAX
    requires ascii <= |inp| && ascii <= 20 && forall i :: 0 <= i < ascii ==> inp[i] < 0x80
    modifies out`mem, out`use, out`size, out`compatUse, out`compatSize, out`error, out.mem
    ensures out.Valid() && !out.error && (out.mem == old(out.mem) || fresh(out.mem))
    ensures out.Contents() == old(out.Contents()) + output
    ensures ret == written || (ret == -2 && inlen < |inp| && inp[inlen] >= 0x80 && written >= ascii)
    ensures written <= inlen <= |inp| && |output| == written && (inlen > 0 ==> written > 0)
    ensures inp == EncodeAll(ds) ==>
              && Remaining(enc, ds, k, output, inp[inlen..]) && Finished(enc, ds, k, |inp|, inlen, ret == -2)
              && k >= ascii && inlen <= 2 * written
  {
    hide Encode, EncodeAll, Converted, Stopped, Remaining, Finished, XmlBuf.Contents, IsPrefix;
    var toconv := |inp|;
    if toconv > CHUNK {
      toconv := CHUNK;
    }
    var room := PrepareOutput(out, toconv);
    ChunkIsPrefix(inp, toconv, ds);
    ret, written, inlen, k, output := ConvertInto(enc, out, room, inp[..toconv], ds, ascii);
    if inp == EncodeAll(ds) {
      WhatConverted(enc, ds, k, inp, toconv, inlen, output, ret == -2, ascii);
    }
    assert inlen < toconv ==> inp[..toconv][inlen] == inp[inlen];
  }

  /** One pass from the label retry to the switch. */
  method Convert(enc: SingleByte, out: XmlBuf, inn: XmlBuf, ghost ds: seq<Scalar>, ghost ascii: nat)
    returns (ret: int, written: nat, inlen: nat, ghost k: nat, ghost output: seq<byte>)
    requires Ready(out, inn) && inn.use > 0 && out.use + 4 * CHUNK <= REQUEST_MAX
    requires ascii <= inn.use && ascii <= 20 && forall i :: 0 <= i < ascii ==> inn.Contents()[i] < 0x80
    modifies out`mem, out`use, out`size, out`compatUse, out`compatSize, out`error, out.mem
    modifies inn`use, inn`off, inn`size, inn`compatUse, inn`compatSize, inn.mem
    ensures Ready(out, inn) && (out.mem == old(out.mem) || fresh(out.mem))
    ensures ret == written || ret == -2
    ensures written <= inlen <= old(inn.use) && |output| == written
    ensures inn.Contents() == old(inn.Contents())[inlen..] && out.Contents() == old(out.Contents()) + output
    ensures ret == -2 ==> inlen < old(inn.use) && old(inn.Contents())[inlen] >= 0x80
    ensures ret == -2 ==> written >= ascii
    ensures old(inn.Contents()) == EncodeAll(ds) ==>
              && Remaining(enc, ds, k, output, inn.Contents()) && Finished(enc, ds, k, old(inn.use), inlen, ret == -2)
              && k >= ascii && inlen <= 2 * written
  {
    hide EncodeAll, Remaining, Finished, XmlBuf.Contents;
    ret, written, inlen, k, output := ConvertChunk(enc, out, inn.Contents(), ds, ascii);
    if written > 0 {
      var r := inn.Shrink(inlen);
    }
  }

  lemma WhatConverted(enc: SingleByte, ds: seq<Scalar>, k: nat, inp: seq<byte>, toconv: nat, inlen: nat, output: seq<byte>,
                      failed: bool, ascii: nat)
    requires Converted(enc, ds, k, inlen, output) && inp == EncodeAll(ds)
    requires toconv == if |inp| > CHUNK then CHUNK else |inp|
    requires Stopped(enc, ds, k, inp[..toconv], inlen, false, failed)
    requires ascii <= |inp| && ascii <= 20 && (inlen >= ascii ==> |output| >= ascii) && (failed ==> inlen >= ascii)
    ensures inlen <= |inp| && Remaining(enc, ds, k, output, inp[inlen..]) && Finished(enc, ds, k, |inp|, inlen, failed)
    ensures k >= ascii && inlen <= 2 * |output|
  {
    hide *;
    ConvertedRemains(enc, ds, k, inp, inlen, output);
    ChunkFinished(enc, ds, k, inp, toconv, inlen, output, failed);
    EnoughForAscii(enc, ds, k, inp, inlen, output, failed, ascii);
    TwoBytesAtMost(enc, ds, k, inlen, output);
  }

  lemma ChunkIsPrefix(inp: seq<byte>, n: nat, ds: seq<Scalar>)
    requires n <= |inp|
    ensures inp == EncodeAll(ds) ==> IsPrefix(inp[..n], EncodeAll(ds))
  {}

  lemma EnoughForAscii(enc: SingleByte, ds: seq<Scalar>, k: nat, inp: seq<byte>, inlen: nat, output: seq<byte>, failed: bool, ascii: nat)
    requires Converted(enc, ds, k, inlen, output) && inp == EncodeAll(ds) && Finished(enc, ds, k, |inp|, inlen, failed)
    requires ascii <= |inp| && ascii <= 20 && (inlen >= ascii ==> |output| >= ascii)
    requires failed ==> inlen >= ascii
    ensures k >= ascii
  {
    if k == |ds| {
      LengthOfAll(ds);
    }
  }

  /** No character of the two encodings takes more than two bytes. */
  lemma {:induction false} TwoBytesAtMost(enc: SingleByte, ds: seq<Scalar>, k: nat, inlen: nat, output: seq<byte>)
    requires Converted(enc, ds, k, inlen, output)
    ensures inlen <= 2 * |output|
    decreases k
  {
    if k > 0 {
      LengthNext(ds, k - 1);
      TwoBytesAtMost(enc, ds, k - 1, Length(ds, k - 1), output[..k - 1]);
    }
  }

  // ---------- replacing a character ----------

  /** The text after its first remaining character, which the encoding does not have, was replaced. */
  function AfterReplacing(ds: seq<Scalar>, k: nat): seq<Scalar>
    requires k < |ds|
  {
    var reference: seq<Scalar> := ReferenceOf(ds[k]);
    reference + ds[k + 1..]
  }

  function ReferenceOf(c: Scalar): (s: seq<Scalar>)
    ensures s == DecimalRef(c) && forall i :: 0 <= i < |s| ==> s[i] < 0x80
  {
    ReferenceShape(c);
    DecimalRef(c)
  }

  /** The character is read back, and its reference stands for it. */
  lemma Replaced(enc: SingleByte, ds: seq<Scalar>, k: nat, output: seq<byte>, rest: seq<byte>)
    requires Remaining(enc, ds, k, output, rest) && k < |ds| && ds[k] >= Limit(enc)
    ensures var n := |Encode(ds[k])|;
            && GetUTF8Char(rest) == (ds[k], n) && 2 <= n <= |rest|
            && DecimalRef(ds[k]) + rest[n..] == EncodeAll(AfterReplacing(ds, k))
    ensures output + SubstituteAll(enc, AfterReplacing(ds, k)) == SubstituteAll(enc, ds)
  {
    var c, more := ds[k], ds[k + 1..];
    var reference := ReferenceOf(c);
    assert ds[k..] == [c] + more && ds == ds[..k] + ([c] + more);
    EncodeOne(enc, c, more);
    GetEncoded(c, EncodeAll(more));
    EncodeAscii(reference);
    EncodeAllAppend(reference, more);
    SubstitutePlain(enc, reference);
    SubstituteAppend(enc, reference, more);
    SubstituteAppend(enc, ds[..k], [c] + more);
  }

  lemma EncodeOne(enc: SingleByte, c: Scalar, more: seq<Scalar>)
    ensures EncodeAll([c] + more) == Encode(c) + EncodeAll(more)
    ensures SubstituteAll(enc, [c] + more) == Substitute(enc, c) + SubstituteAll(enc, more)
  {
    assert ([c] + more)[1..] == more;
  }

  /** The character reference takes the place of the first n bytes. */
  method PutReference(inn: XmlBuf, cur: nat, n: nat) returns (charrefLen: nat)
    requires inn.Valid() && !inn.error && !inn.alloc.Bounded? && n <= inn.use && cur < 0x20_0000
    requires inn.use + 12 <= REQUEST_MAX
    modifies inn`mem, inn`use, inn`off, inn`size, inn`compatUse, inn`compatSize, inn`error, inn.mem
    ensures inn.Valid() && !inn.error && (inn.mem == old(inn.mem) || fresh(inn.mem))
    ensures charrefLen == |DecimalRef(cur)| <= 10
    ensures inn.Contents() == DecimalRef(cur) + old(inn.Contents())[n..]
  {
    hide DecimalRef, XmlBuf.Contents, XmlBuf.Shape;
    ReferenceShape(cur);
    var charref := DecimalRef(cur) + [0];
    StringLength(charref);
    charrefLen := |charref| - 1;
    var r := inn.Shrink(n);
    var a := inn.AddHead(charref, -1);
  }

  lemma {:induction false} StringLength(s: seq<byte>)
    requires s != [] && s[|s| - 1] == 0 && forall i :: 0 <= i < |s| - 1 ==> s[i] != 0
    ensures Strlen(s) == |s| - 1 && Taken(s, -1) == s[..|s| - 1]
  {
    if |s| > 1 {
      StringLength(s[1..]);
    }
  }

  // ---------- the retry loop ----------

  /** Between two retries: `inp` is the input, the text ds, which begins with the `ascii` bytes of a reference and goes on
      with an end of cs. What has been written, `done`, and what ds becomes make up what cs becomes. */
  ghost predicate OnTrack(enc: SingleByte, cs: seq<Scalar>, ds: seq<Scalar>, ascii: nat, total: nat, done: seq<byte>, inp: seq<byte>)
  {
    && ascii <= |ds| <= |cs| + ascii && ascii <= 10
    && ds[ascii..] == cs[|cs| - (|ds| - ascii)..]
    && inp == EncodeAll(ds) && done + SubstituteAll(enc, ds) == SubstituteAll(enc, cs)
    && |EncodeAll(ds[ascii..])| + ascii == |inp| && |EncodeAll(ds[ascii..])| + (if ascii > 0 then 2 else 0) <= total
  }

  lemma OnTrackFirst(enc: SingleByte, cs: seq<Scalar>)
    ensures OnTrack(enc, cs, cs, 0, |EncodeAll(cs)|, [], EncodeAll(cs))
  {
    assert cs[0..] == cs && [] + SubstituteAll(enc, cs) == SubstituteAll(enc, cs);
  }

  /** What the whole call leaves: an end of the text in the input, everything before it in the output. */
  ghost predicate Accounted(enc: SingleByte, cs: seq<Scalar>, left: seq<Scalar>, done: seq<byte>, inp: seq<byte>)
  {
    && |left| <= |cs| && left == cs[|cs| - |left|..]
    && inp == EncodeAll(left) && done == SubstituteAll(enc, cs[..|cs| - |left|])
  }

  lemma Finish(enc: SingleByte, cs: seq<Scalar>, ds: seq<Scalar>, ascii: nat, total: nat, done: seq<byte>, inp: seq<byte>,
               k: nat, output: seq<byte>, rest: seq<byte>, inlen: nat)
    requires OnTrack(enc, cs, ds, ascii, total, done, inp)
    requires Remaining(enc, ds, k, output, rest) && k >= ascii && Finished(enc, ds, k, |inp|, inlen, false)
    ensures k <= |ds| && Accounted(enc, cs, ds[k..], done + output, rest)
    ensures total + 8 <= CHUNK ==> ds[k..] == []
    ensures ds[k..] == [] || inlen + 3 >= CHUNK
  {
    hide Encode, EncodeAll, Substitute, SubstituteAll;
    var left := ds[k..];
    assert left == ds[ascii..][k - ascii..];
    assert left == cs[|cs| - |left|..];
    assert ds == ds[..k] + left && cs == cs[..|cs| - |left|] + left;
    SubstituteAppend(enc, ds[..k], left);
    SubstituteAppend(enc, cs[..|cs| - |left|], left);
    SameFront(done + output, SubstituteAll(enc, cs[..|cs| - |left|]), SubstituteAll(enc, left));
    assert done + SubstituteAll(enc, ds) == done + output + SubstituteAll(enc, left);
  }

  lemma SameFront(a: seq<byte>, b: seq<byte>, c: seq<byte>)
    ensures a + c == b + c ==> a == b
  {
    if a + c == b + c {
      assert |a| == |b|;
      assert forall i :: 0 <= i < |a| ==> a[i] == (a + c)[i] && b[i] == (b + c)[i];
    }
  }

  lemma Retry(enc: SingleByte, cs: seq<Scalar>, ds: seq<Scalar>, ascii: nat, total: nat, done: seq<byte>, inp: seq<byte>,
              k: nat, output: seq<byte>, rest: seq<byte>, inlen: nat)
    requires OnTrack(enc, cs, ds, ascii, total, done, inp)
    requires Remaining(enc, ds, k, output, rest) && k >= ascii && Finished(enc, ds, k, |inp|, inlen, true)
    ensures k < |ds| && ds[k] > 0 && GetUTF8Char(rest) == (ds[k], |Encode(ds[k])|) && |Encode(ds[k])| <= |rest|
    ensures OnTrack(enc, cs, AfterReplacing(ds, k), |DecimalRef(ds[k])|, total, done + output,
                    DecimalRef(ds[k]) + rest[|Encode(ds[k])|..])
  {
    hide Encode, EncodeAll, Substitute, SubstituteAll, DecimalRef;
    Replaced(enc, ds, k, output, rest);
    ReferenceShape(ds[k]);
    var next := AfterReplacing(ds, k);
    var reference := ReferenceOf(ds[k]);
    assert next[|reference|..] == ds[k + 1..] == ds[ascii..][k + 1 - ascii..];
    assert ds[ascii..][..k + 1 - ascii] + ds[k + 1..] == ds[ascii..];
    EncodeAllAppend(reference, ds[k + 1..]);
    EncodeAscii(reference);
    assert done + SubstituteAll(enc, ds) == done + output + SubstituteAll(enc, next);
    ShorterRest(ds, ascii, k);
  }

  lemma FailedAt(enc: SingleByte, ds: seq<Scalar>, k: nat, total: nat, inlen: nat)
    requires Finished(enc, ds, k, total, inlen, true)
    ensures k < |ds| && ds[k] >= Limit(enc)
  {}

  lemma ShorterRest(ds: seq<Scalar>, ascii: nat, k: nat)
    requires ascii <= k < |ds| && ds[k] >= 0x80
    ensures |EncodeAll(ds[k + 1..])| + 2 <= |EncodeAll(ds[ascii..])|
  {
    hide EncodeAll;
    assert ds[ascii..] == ds[ascii..k] + ([ds[k]] + ds[k + 1..]);
    EncodeAllAppend(ds[ascii..k], [ds[k]] + ds[k + 1..]);
    EncodeOne(Ascii, ds[k], ds[k + 1..]);
  }

  /** One turn of the loop. The branch that takes back half a reference is never taken, for any input. */
  method Turn(enc: SingleByte, out: XmlBuf, inn: XmlBuf, charrefLen: nat,
              ghost cs: seq<Scalar>, ghost ds: seq<Scalar>, ghost total: nat, ghost done: seq<byte>)
    returns (ret: int, again: bool, charrefLen': nat, ghost ds': seq<Scalar>, ghost output: seq<byte>)
    requires Ready(out, inn) && inn.use > 0 && Load(out, inn) + 4 * CHUNK + 12 <= REQUEST_MAX
    requires charrefLen <= inn.use && charrefLen <= 10 && forall i :: 0 <= i < charrefLen ==> inn.Contents()[i] < 0x80
    modifies out, out.mem, inn, inn.mem
    ensures Ready(out, inn) && (out.mem == old(out.mem) || fresh(out.mem)) && (inn.mem == old(inn.mem) || fresh(inn.mem))
    ensures out.Contents() == old(out.Contents()) + output && (ret >= 0 || ret == -2)
    ensures again ==>
              && Load(out, inn) <= old(Load(out, inn)) && HighBytes(inn.Contents()) < HighBytes(old(inn.Contents()))
              && charrefLen' <= inn.use && charrefLen' <= 10
              && forall i :: 0 <= i < charrefLen' ==> inn.Contents()[i] < 0x80
    ensures OnTrack(enc, cs, ds, charrefLen, total, done, old(inn.Contents())) ==>
              if again then OnTrack(enc, cs, ds', charrefLen', total, done + output, inn.Contents())
              else
                && ret == |output| && Accounted(enc, cs, ds', done + output, inn.Contents())
                && (total + 8 <= CHUNK ==> ds' == []) && (ds' == [] || 2 * |output| + 3 >= CHUNK)
    ensures OnTrack(enc, cs, ds, charrefLen, total, done, old(inn.Contents())) && again ==>
              exists i :: 0 <= i < |ds| && ds[i] >= Limit(enc)
  {
    hide Encode, EncodeAll, SubstituteAll, Remaining, Finished, OnTrack, Accounted, AfterReplacing, GetUTF8Char, DecimalRef,
         XmlBuf.Contents, HighBytes;
    ghost var before := inn.Contents();
    ghost var valid := OnTrack(enc, cs, ds, charrefLen, total, done, before);
    if valid {
      OnTrackMeans(enc, cs, ds, charrefLen, total, done, before);
    }
    ds', again, charrefLen' := ds, false, charrefLen;
    var written, inlen;
    ghost var k;
    ret, written, inlen, k, output := Convert(enc, out, inn, ds, charrefLen);
    ghost var rest := inn.Contents();
    if ret >= 0 {
      if valid {
        Finish(enc, cs, ds, charrefLen, total, done, before, k, output, rest, inlen);
        ds' := ds[k..];
      }
      return;
    }
    if valid {
      Retry(enc, cs, ds, charrefLen, total, done, before, k, output, rest, inlen);
      FailedAt(enc, ds, k, |before|, inlen);
    }
    var (cur, len) := GetUTF8Char(inn.Contents());
    if charrefLen != 0 && written < charrefLen {
      assert false;
    } else if cur > 0 {
      LessHigh(before, inlen, rest, cur, len);
      charrefLen' := PutReference(inn, cur, len);
      again := true;
      if valid {
        ds' := AfterReplacing(ds, k);
      }
    } else {
      inn.mem[inn.off] := 32;
    }
  }

  /** xmlCharEncOutput after its initialisation call. `cs` is any text that the input may be the UTF-8 form of. What is
      left of it is nothing, or else at least a chunk less than two characters was worked off. */
  method CharEncOutput(enc: SingleByte, out: XmlBuf, inn: XmlBuf, ghost cs: seq<Scalar>)
    returns (ret: int, ghost done: seq<byte>, ghost left: seq<Scalar>)
    requires Ready(out, inn) && Load(out, inn) + 4 * CHUNK + 12 <= REQUEST_MAX
    modifies out, out.mem, inn, inn.mem
    ensures Ready(out, inn) && (ret >= 0 || ret == -2) && out.Contents() == old(out.Contents()) + done
    ensures old(inn.Contents()) == EncodeAll(cs) ==>
              && ret >= 0 && Accounted(enc, cs, left, done, inn.Contents())
              && (old(inn.use) + 8 <= CHUNK ==> left == []) && (left == [] || 2 * |done| + 3 >= CHUNK)
              && ret <= |done| && ((forall i :: 0 <= i < |cs| ==> cs[i] < Limit(enc)) ==> ret == |done|)
  {
    hide Encode, EncodeAll, SubstituteAll, OnTrack, Accounted, XmlBuf.Contents, HighBytes, Limit;
    ghost var total, valid := inn.use, inn.Contents() == EncodeAll(cs);
    ghost var plain := forall i :: 0 <= i < |cs| ==> cs[i] < Limit(enc);
    done, left := [], cs;
    var charrefLen: nat := 0;
    OnTrackFirst(enc, cs);
    while true
      invariant Ready(out, inn) && Load(out, inn) + 4 * CHUNK + 12 <= REQUEST_MAX
      invariant (out.mem == old(out.mem) || fresh(out.mem)) && (inn.mem == old(inn.mem) || fresh(inn.mem))
      invariant out.Contents() == old(out.Contents()) + done
      invariant charrefLen <= inn.use && charrefLen <= 10 && forall i :: 0 <= i < charrefLen ==> inn.Contents()[i] < 0x80
      invariant valid ==> OnTrack(enc, cs, left, charrefLen, total, done, inn.Contents()) && (plain ==> left == cs && done == [])
      decreases HighBytes(inn.Contents())
    {
      if inn.use == 0 {
        if valid {
          NothingLeft(enc, cs, left, charrefLen, total, done);
          left := [];
        }
        return 0, done, left;
      }
      ghost var output;
      var again;
      ret, again, charrefLen, left, output := Turn(enc, out, inn, charrefLen, cs, left, total, done);
      done := done + output;
      if !again {
        return;
      }
    }
  }

  lemma OnTrackMeans(enc: SingleByte, cs: seq<Scalar>, ds: seq<Scalar>, ascii: nat, total: nat, done: seq<byte>, inp: seq<byte>)
    requires OnTrack(enc, cs, ds, ascii, total, done, inp)
    ensures inp == EncodeAll(ds)
  {}

  lemma EncodeEmpty(ds: seq<Scalar>)
    ensures EncodeAll(ds) == [] <==> ds == []
  {}

  /** With every replacement there are fewer bytes above ASCII, and the load does not grow. */
  lemma LessHigh(before: seq<byte>, inlen: nat, rest: seq<byte>, cur: nat, n: nat)
    requires inlen <= |before| && rest == before[inlen..] && rest != [] && rest[0] >= 0x80
    requires GetUTF8Char(rest) == (cur, n)
    ensures cur < 0x20_0000 && 1 <= n <= |rest|
    ensures var now := DecimalRef(cur) + rest[n..];
            && HighBytes(now) < HighBytes(before)
            && inlen + |now| + 10 * HighBytes(now) <= |before| + 10 * HighBytes(before)
            && forall i :: 0 <= i < |DecimalRef(cur)| ==> now[i] < 0x80
    ensures |DecimalRef(cur)| <= 10
  {
    hide DecimalRef, HighBytes;
    ReferenceShape(cur);
    NoHigh(DecimalRef(cur));
    HighAppend(DecimalRef(cur), rest[n..]);
    HighDrop(before, inlen);
    HighDrop(rest, n);
  }

  lemma NothingLeft(enc: SingleByte, cs: seq<Scalar>, ds: seq<Scalar>, ascii: nat, total: nat, done: seq<byte>)
    requires OnTrack(enc, cs, ds, ascii, total, done, [])
    ensures Accounted(enc, cs, [], done, [])
  {
    EncodeEmpty(ds);
    assert cs[..|cs|] == cs;
    assert done + [] == done;
  }
}
