/** The order of zero-terminated byte strings used by xmlStrcmp; a missing string is the empty one. */
module ByteOrder {
  import opened Octets

  predicate Less(a: seq<byte>, b: seq<byte>)
  {
    b != [] && (a == [] || a[0] < b[0] || (a[0] == b[0] && Less(a[1..], b[1..])))
  }

  lemma {:induction false} LessTransitive(a: seq<byte>, b: seq<byte>, c: seq<byte>)
    requires Less(a, b) && Less(b, c)
    ensures Less(a, c)
  {
    if a != [] && a[0] == b[0] && b[0] == c[0] {
      LessTransitive(a[1..], b[1..], c[1..]);
    }
  }

  lemma {:induction false} LessTotal(a: seq<byte>, b: seq<byte>)
    ensures a == b || Less(a, b) || Less(b, a)
  {
    if a != [] && b != [] && a[0] == b[0] {
      LessTotal(a[1..], b[1..]);
      if a[1..] == b[1..] {
        assert a == [a[0]] + a[1..] == b;
      }
    }
  }

  lemma {:induction false} LessIrreflexive(a: seq<byte>)
    ensures !Less(a, a)
  {
    if a != [] {
      LessIrreflexive(a[1..]);
    }
  }

  /** The strings agree before position k, where a ends or has the smaller byte. */
  ghost predicate SmallerAt(a: seq<byte>, b: seq<byte>, k: nat)
  {
    k <= |a| && k < |b| && (forall j :: 0 <= j < k ==> a[j] == b[j]) && (k < |a| ==> a[k] < b[k])
  }

  ghost predicate ByteBefore(a: seq<byte>, b: seq<byte>)
  {
    exists k: nat :: SmallerAt(a, b, k)
  }

  /** A string comes before another if it is a proper prefix of it, or has the smaller byte where they first differ. */
  lemma {:induction false} LessMeans(a: seq<byte>, b: seq<byte>)
    ensures Less(a, b) <==> ByteBefore(a, b)
  {
    if Less(a, b) {
      if a == [] || a[0] < b[0] {
        assert SmallerAt(a, b, 0);
      } else {
        LessMeans(a[1..], b[1..]);
        var k: nat :| SmallerAt(a[1..], b[1..], k);
        forall j | 0 <= j < k + 1 ensures a[j] == b[j] {
          assert j > 0 ==> a[1..][j - 1] == b[1..][j - 1];
        }
        assert SmallerAt(a, b, k + 1);
      }
    } else if k: nat :| SmallerAt(a, b, k) {
      assert k > 0 && a[0] == b[0];
      assert SmallerAt(a[1..], b[1..], k - 1);
      LessMeans(a[1..], b[1..]);
    }
  }

  lemma {:induction false} LessFront(c: seq<byte>, a: seq<byte>, b: seq<byte>)
    ensures Less(c + a, c + b) <==> Less(a, b)
  {
    if c == [] {
      assert c + a == a && c + b == b;
    } else {
      assert (c + a)[1..] == c[1..] + a && (c + b)[1..] == c[1..] + b;
      LessFront(c[1..], a, b);
    }
  }

  /** Strings without a zero byte, each with something behind a zero byte, compare like pairs. */
  lemma {:induction false} LessPair(h: seq<byte>, a: seq<byte>, k: seq<byte>, b: seq<byte>)
    requires 0 !in h && 0 !in k
    ensures Less(h + ([0] + a), k + ([0] + b)) <==> Less(h, k) || (h == k && Less(a, b))
  {
    var x, y := h + ([0] + a), k + ([0] + b);
    assert x[0] == (if h == [] then 0 else h[0]) && y[0] == if k == [] then 0 else k[0];
    if h != [] && k != [] {
      assert h[0] in h && k[0] in k;
      assert x[1..] == h[1..] + ([0] + a) && y[1..] == k[1..] + ([0] + b);
      LessPair(h[1..], a, k[1..], b);
      assert h == [h[0]] + h[1..] && k == [k[0]] + k[1..];
    } else if h == [] && k == [] {
      assert x[1..] == a && y[1..] == b;
    } else if h == [] {
      assert k[0] in k;
    } else {
      assert h[0] in h;
    }
  }

  lemma DifferentFirst(m: seq<byte>, n: seq<byte>)
    ensures Less([0] + m, [1] + n) && !Less([1] + n, [0] + m)
  {
  }
}
