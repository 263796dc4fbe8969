/**
 * Code-point lexicographic order on strings. It stands for the comparison
 * that JavaScript's default `Array.prototype.sort` applies to two strings and
 * for PostgreSQL's `>` on text columns under a byte-wise collation.
 */
module Strings {

  /** `a` sorts strictly before `b`: a proper prefix, or smaller at the first difference. */
  predicate Less(a: string, b: string)
    decreases |a|
  {
    if |a| == 0 then |b| > 0
    else if |b| == 0 then false
    else if a[0] != b[0] then a[0] < b[0]
    else Less(a[1..], b[1..])
  }

  lemma {:induction false} LessIrreflexive(a: string)
    ensures !Less(a, a)
    decreases |a|
  {
    if |a| > 0 {
      LessIrreflexive(a[1..]);
    }
  }

  lemma {:induction false} LessAsymmetric(a: string, b: string)
    requires Less(a, b)
    ensures !Less(b, a)
    decreases |a|
  {
    if |a| > 0 && |b| > 0 && a[0] == b[0] {
      LessAsymmetric(a[1..], b[1..]);
    }
  }

  lemma {:induction false} LessTransitive(a: string, b: string, c: string)
    requires Less(a, b) && Less(b, c)
    ensures Less(a, c)
    decreases |a|
  {
    if |a| > 0 && |b| > 0 && |c| > 0 && a[0] == b[0] && b[0] == c[0] {
      LessTransitive(a[1..], b[1..], c[1..]);
    }
  }

  /** Two different strings are always ordered one way or the other. */
  lemma {:induction false} LessTotal(a: string, b: string)
    requires a != b
    ensures Less(a, b) || Less(b, a)
    decreases |a|
  {
    if |a| > 0 && |b| > 0 && a[0] == b[0] {
      assert a == [a[0]] + a[1..] && b == [b[0]] + b[1..];
      LessTotal(a[1..], b[1..]);
    }
  }

  /** `[x, y].sort()` for two strings: the smaller one first. */
  function Sort2(x: string, y: string): (r: (string, string))
    ensures r == (x, y) || r == (y, x)
    ensures !Less(r.1, r.0)
  {
    if Less(y, x) then LessAsymmetric(y, x); (y, x) else (x, y)
  }

  /** Sorting makes the pair independent of the order it was given in. */
  lemma Sort2Symmetric(x: string, y: string)
    ensures Sort2(x, y) == Sort2(y, x)
  {
    if x != y {
      LessTotal(x, y);
      if Less(x, y) { LessAsymmetric(x, y); } else { LessAsymmetric(y, x); }
    }
  }
}
