/** The byte-wise lexicographic order that Go uses to compare strings.
    A `char` stands for one byte of the Go string. */
module Lex {

  /** Go's `a < b` on strings. */
  predicate Less(a: string, b: string)
  {
    b != "" && (a == "" || a[0] < b[0] || (a[0] == b[0] && Less(a[1..], b[1..])))
  }

  /** Up to there the two are alike, and there the first ends or has the smaller byte. */
  predicate SmallerAt(a: string, b: string, i: nat)
  {
    i <= |a| && i < |b| && a[..i] == b[..i] && (i == |a| || a[i] < b[i])
  }

  /** The first byte in which two strings differ decides; a string comes before those it begins. */
  lemma {:induction false} LessMeans(a: string, b: string)
    ensures Less(a, b) <==> exists i: nat :: SmallerAt(a, b, i)
  {
    if a == "" || b == "" || a[0] != b[0] {
      assert b != "" && (a == "" || a[0] < b[0]) ==> SmallerAt(a, b, 0);
      forall i: nat | SmallerAt(a, b, i)
        ensures i == 0
      {
        if i > 0 {
          FirstByte(a, b, i);
        }
      }
    } else {
      LessMeans(a[1..], b[1..]);
      if i: nat :| SmallerAt(a, b, i) {
        assert i > 0;
        NextByte(a, b, i - 1);
      }
      if i: nat :| SmallerAt(a[1..], b[1..], i) {
        NextByte(a, b, i);
        assert SmallerAt(a, b, i + 1);
      }
    }
  }

  lemma {:induction false} FirstByte(a: string, b: string, i: nat)
    requires SmallerAt(a, b, i) && i > 0
    ensures a[0] == b[0]
  {
    assert a[..i][0] == b[..i][0];
  }

  lemma {:induction false} NextByte(a: string, b: string, i: nat)
    requires a != "" && b != "" && a[0] == b[0]
    ensures SmallerAt(a, b, i + 1) <==> SmallerAt(a[1..], b[1..], i)
  {
    if i < |a| && i < |b| {
      assert a[..i + 1] == [a[0]] + a[1..][..i] && b[..i + 1] == [b[0]] + b[1..][..i];
      assert a[..i + 1][1..] == a[1..][..i] && b[..i + 1][1..] == b[1..][..i];
    }
  }

  lemma {:induction false} Irreflexive(a: string)
    ensures !Less(a, a)
  {
    if a != "" {
      Irreflexive(a[1..]);
    }
  }

  lemma {:induction false} Transitive(a: string, b: string, c: string)
    requires Less(a, b) && Less(b, c)
    ensures Less(a, c)
  {
    if a != "" && a[0] == b[0] == c[0] {
      Transitive(a[1..], b[1..], c[1..]);
    }
  }

  /** Exactly one of `a < b`, `a == b` and `b < a` holds. */
  lemma {:induction false} Trichotomy(a: string, b: string)
    ensures Less(a, b) || a == b || Less(b, a)
    ensures !(Less(a, b) && Less(b, a))
    ensures Less(a, b) ==> a != b
  {
    if a != "" && b != "" && a[0] == b[0] {
      Trichotomy(a[1..], b[1..]);
      assert a == [a[0]] + a[1..] && b == [b[0]] + b[1..];
    }
  }

  /** A proper prefix comes before its extensions. */
  lemma {:induction false} PrefixLess(a: string, b: string)
    requires a <= b && a != b
    ensures Less(a, b)
  {
    if a != "" {
      assert a[1..] <= b[1..];
      assert a == [a[0]] + a[1..] && b == [b[0]] + b[1..];
      PrefixLess(a[1..], b[1..]);
    }
  }

  /** A common prefix does not matter. */
  lemma {:induction false} CommonPrefix(p: string, a: string, b: string)
    ensures Less(p + a, p + b) <==> Less(a, b)
  {
    if p == "" {
      assert p + a == a && p + b == b;
    } else {
      assert (p + a)[1..] == p[1..] + a && (p + b)[1..] == p[1..] + b;
      CommonPrefix(p[1..], a, b);
    }
  }

  /** When `a < b` is decided by a differing byte (`a` is no prefix of `b`),
      whatever is appended to either side does not matter. */
  lemma {:induction false} Extend(a: string, b: string, x: string, y: string)
    requires Less(a, b) && !(a <= b)
    ensures Less(a + x, b + y)
  {
    assert a != "";
    if a[0] == b[0] {
      assert (a + x)[1..] == a[1..] + x && (b + y)[1..] == b[1..] + y;
      Extend(a[1..], b[1..], x, y);
    }
  }
}
