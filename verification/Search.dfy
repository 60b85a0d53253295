/** Binary search, as std::lower_bound and std::upper_bound do it: for the point up to which a list
    satisfies a condition. */
module Search {

  /** Whatever satisfies the condition stands before whatever does not. */
  ghost predicate Partitioned<T>(a: seq<T>, before: T -> bool) {
    forall i, j | 0 <= i < j < |a| && before(a[j]) :: before(a[i])
  }

  ghost predicate IsPoint<T>(a: seq<T>, before: T -> bool, k: nat) {
    k <= |a| && (forall i | 0 <= i < k :: before(a[i])) && forall i | k <= i < |a| :: !before(a[i])
  }

  method PartitionPoint<T>(a: seq<T>, before: T -> bool) returns (k: nat)
    requires Partitioned(a, before)
    ensures IsPoint(a, before, k)
  {
    k := 0;
    var n := |a|;
    while k < n
      invariant 0 <= k <= n <= |a|
      invariant (forall i | 0 <= i < k :: before(a[i])) && forall i | n <= i < |a| :: !before(a[i])
    {
      var mid := (k + n) / 2;
      if before(a[mid]) {
        k := mid + 1;
      } else {
        n := mid;
      }
    }
  }

  lemma PointUnique<T>(a: seq<T>, before: T -> bool, i: nat, j: nat)
    requires IsPoint(a, before, i) && IsPoint(a, before, j)
    ensures i == j
  {
    assert i == |a| || !before(a[i]);
    assert j == |a| || !before(a[j]);
  }

  lemma PointExists<T>(a: seq<T>, before: T -> bool) returns (k: nat)
    requires Partitioned(a, before)
    ensures IsPoint(a, before, k)
  {
    k := 0;
    while k < |a| && before(a[k])
      invariant 0 <= k <= |a| && forall i | 0 <= i < k :: before(a[i])
    {
      k := k + 1;
    }
  }
}
