/**
 Candidate-list equality as the test suite decides it: two arrays are equal
 when their lengths agree and every element equals the element at the same
 index of the other array.
 */
module Arrays {

  /** Every position from `k` onwards holds the same element in `a` and `b`. */
  function EveryFrom<T(==)>(a: seq<T>, b: seq<T>, k: nat): (same: bool)
    requires |a| == |b|
    decreases |a| - k
  {
    k >= |a| || (a[k] == b[k] && EveryFrom(a, b, k + 1))
  }

  /** The length check comes first, so the element walk only runs on equal lengths. */
  function EqualArr<T(==)>(a: seq<T>, b: seq<T>): (equal: bool)
  {
    |a| == |b| && EveryFrom(a, b, 0)
  }

  lemma {:induction false} EveryFromMeansPointwise<T>(a: seq<T>, b: seq<T>, k: nat)
    requires |a| == |b|
    ensures EveryFrom(a, b, k) <==> forall i :: k <= i < |a| ==> a[i] == b[i]
    decreases |a| - k
  {
    if k < |a| {
      EveryFromMeansPointwise(a, b, k + 1);
    }
  }

  /** The element-wise comparison is exactly sequence equality. */
  lemma EqualArrIsEquality<T>(a: seq<T>, b: seq<T>)
    ensures EqualArr(a, b) <==> |a| == |b| && forall i :: 0 <= i < |a| ==> a[i] == b[i]
    ensures EqualArr(a, b) <==> a == b
  {
    if |a| == |b| {
      EveryFromMeansPointwise(a, b, 0);
    }
  }
}
