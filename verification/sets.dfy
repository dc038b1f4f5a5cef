/** Sizes of sets. */
module Sets {
  lemma {:induction false} SubsetSize<T>(a: set<T>, b: set<T>)
    requires a <= b
    ensures |a| <= |b|
  {
    if a != {} {
      var x :| x in a;
      SubsetSize(a - {x}, b - {x});
    }
  }

  /** Distinct elements that all lie in a set are no more than the set has. */
  lemma {:induction false} Pigeonhole<T>(f: nat -> T, n: nat, all: set<T>) returns (used: set<T>)
    requires forall i: nat, j: nat :: i < j < n ==> f(i) != f(j)
    requires forall i: nat :: i < n ==> f(i) in all
    ensures used <= all && |used| == n && n <= |all|
    ensures forall x :: x in used ==> exists i: nat :: i < n && f(i) == x
  {
    if n == 0 {
      used := {};
    } else {
      var before := Pigeonhole(f, n - 1, all);
      assert f(n - 1) !in before;
      used := before + {f(n - 1)};
      SubsetSize(used, all);
    }
  }
}
