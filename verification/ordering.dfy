/**
  `strings.Compare` on Go strings. Go compares the UTF-8 bytes; for valid UTF-8
  that order coincides with the order of the code points, which is how Dafny's
  `char` values compare, so the model compares characters.
 */
module Ordering {

  /** a and b agree on their first k characters and a is smaller at position k (or ends there while b goes on). */
  ghost predicate LessAt(a: string, b: string, k: int) {
    && 0 <= k <= |a| && k <= |b|
    && (forall i :: 0 <= i < k ==> a[i] == b[i])
    && ((k == |a| && k < |b|) || (k < |a| && k < |b| && a[k] < b[k]))
  }

  /** Lexicographic strict order: the reference definition the comparator is measured against. */
  ghost predicate LexLess(a: string, b: string) {
    exists k :: LessAt(a, b, k)
  }

  /** `strings.Compare(a, b)`: -1, 0 or +1. */
  function Compare(a: string, b: string): (r: int)
    ensures -1 <= r <= 1
    ensures r == 0 <==> a == b
  {
    if |a| == 0 then (if |b| == 0 then 0 else -1)
    else if |b| == 0 then 1
    else if a[0] < b[0] then -1
    else if b[0] < a[0] then 1
    else
      var r := Compare(a[1..], b[1..]);
      assert a == [a[0]] + a[1..] && b == [b[0]] + b[1..];
      r
  }

  /** A negative comparison is exactly lexicographic precedence, in both directions. */
  lemma {:induction false} CompareIsLexLess(a: string, b: string)
    ensures Compare(a, b) < 0 <==> LexLess(a, b)
    decreases |a|
  {
    if |b| == 0 {
      assert forall k :: !LessAt(a, b, k);
    } else if |a| == 0 {
      assert LessAt(a, b, 0);
    } else if a[0] < b[0] {
      assert LessAt(a, b, 0);
    } else if b[0] < a[0] {
      assert forall k :: LessAt(a, b, k) ==> a[0] <= b[0];
    } else {
      CompareIsLexLess(a[1..], b[1..]);
      if LexLess(a, b) {
        var k :| LessAt(a, b, k);
        assert k > 0;
        assert LessAt(a[1..], b[1..], k - 1);
      }
      if LexLess(a[1..], b[1..]) {
        var k :| LessAt(a[1..], b[1..], k);
        assert LessAt(a, b, k + 1);
      }
    }
  }

  /** Swapping the arguments negates the result. */
  lemma {:induction false} CompareAntisymmetric(a: string, b: string)
    ensures Compare(a, b) == -Compare(b, a)
    decreases |a|
  {
    if |a| > 0 && |b| > 0 && a[0] == b[0] {
      CompareAntisymmetric(a[1..], b[1..]);
    }
  }

  /** "Not after" is transitive. */
  lemma {:induction false} CompareTransitive(a: string, b: string, c: string)
    requires Compare(a, b) <= 0 && Compare(b, c) <= 0
    ensures Compare(a, c) <= 0
    decreases |a|
  {
    if |a| > 0 && |b| > 0 && |c| > 0 && a[0] == b[0] == c[0] {
      CompareTransitive(a[1..], b[1..], c[1..]);
    }
  }

  /** "Strictly before" is transitive. */
  lemma CompareStrictTransitive(a: string, b: string, c: string)
    requires Compare(a, b) < 0 && Compare(b, c) < 0
    ensures Compare(a, c) < 0
  {
    CompareTransitive(a, b, c);
    if Compare(a, c) == 0 {
      CompareAntisymmetric(b, c);
    }
  }
}
