/** Sizes of sets. */
module Sets {
  lemma SubsetIsNoLarger<T>(a: set<T>, b: set<T>)
    requires a <= b
    ensures |a| <= |b|
  {
    assert b == a + (b - a);
  }

  lemma SubsetIff<T>(a: set<T>, b: set<T>)
    ensures a <= b <==> forall x :: x in a ==> x in b
  {
  }
}
