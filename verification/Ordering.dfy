/** Lexicographic order on strings (characters compared unsigned) and sorting by a strict order. */
module Ordering {

  predicate Less(a: string, b: string) {
    b != [] && (a == [] || a[0] < b[0] || (a[0] == b[0] && Less(a[1..], b[1..])))
  }

  /** A string comes before another when it is a proper beginning of it, or has the smaller character where
    * they first differ. */
  lemma {:induction false} LessExactly(a: string, b: string)
    ensures Less(a, b) <==> (|a| < |b| && a <= b) || exists i :: FirstSmaller(a, b, i)
  {
    if a != [] && b != [] && a[0] == b[0] {
      LessExactly(a[1..], b[1..]);
      assert a <= b <==> a[1..] <= b[1..];
      if i :| FirstSmaller(a[1..], b[1..], i) {
        assert a[..i + 1] == [a[0]] + a[1..][..i] && b[..i + 1] == [b[0]] + b[1..][..i];
        assert FirstSmaller(a, b, i + 1);
      }
      if i :| FirstSmaller(a, b, i) {
        assert i > 0;
        assert a[1..][..i - 1] == a[..i][1..] && b[1..][..i - 1] == b[..i][1..];
        assert FirstSmaller(a[1..], b[1..], i - 1);
      }
    } else if a != [] && b != [] {
      assert a[..0] == b[..0];
      assert a[0] < b[0] ==> FirstSmaller(a, b, 0);
      if i :| FirstSmaller(a, b, i) {
        if i > 0 {
          assert a[..i][0] == b[..i][0];
        }
      }
    }
  }

  predicate FirstSmaller(a: string, b: string, i: int) {
    0 <= i < |a| && i < |b| && a[..i] == b[..i] && a[i] < b[i]
  }

  predicate AtMost(a: string, b: string) { a == b || Less(a, b) }

  predicate IsPrefix(p: string, s: string) { p <= s }

  lemma {:induction false} LessIrreflexive(a: string)
    ensures !Less(a, a)
  {
    if a != [] {
      LessIrreflexive(a[1..]);
    }
  }

  lemma {:induction false} LessTransitive(a: string, b: string, c: string)
    requires Less(a, b) && Less(b, c)
    ensures Less(a, c)
  {
    if a != [] && a[0] == b[0] && b[0] == c[0] {
      LessTransitive(a[1..], b[1..], c[1..]);
    }
  }

  lemma {:induction false} LessTotal(a: string, b: string)
    ensures Less(a, b) || a == b || Less(b, a)
  {
    if a != [] && b != [] && a[0] == b[0] {
      LessTotal(a[1..], b[1..]);
      assert a == [a[0]] + a[1..] && b == [b[0]] + b[1..];
    }
  }

  lemma LessAsymmetric(a: string, b: string)
    requires Less(a, b)
    ensures a != b && !Less(b, a)
  {
    if Less(b, a) {
      LessTransitive(a, b, a);
    }
    LessIrreflexive(a);
  }

  /** Everything between a prefix and one of its extensions has that prefix. */
  lemma {:induction false} PrefixInterval(p: string, x: string, s: string)
    requires IsPrefix(p, s) && AtMost(p, x) && AtMost(x, s)
    ensures IsPrefix(p, x)
  {
    if p != [] {
      if p == x || x == s {
      } else {
        if p[0] == x[0] && x[0] == s[0] {
          PrefixInterval(p[1..], x[1..], s[1..]);
          assert p == [p[0]] + p[1..] && x == [x[0]] + x[1..];
        }
      }
    }
  }
}
