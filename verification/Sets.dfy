/** Cardinality facts about finite sets, used to count cells. */
module Sets {

  /** A subset is no larger than its superset. */
  lemma SubsetNoLarger<T>(a: set<T>, b: set<T>)
    requires a <= b
    ensures |a| <= |b|
  {
    assert b == a + (b - a);
  }

  /** A subset missing some element of its superset is strictly smaller. */
  lemma ProperSubsetSmaller<T>(a: set<T>, b: set<T>, p: T)
    requires a <= b && p in b && p !in a
    ensures |a| < |b|
  {
    assert b == a + (b - a);
    assert p in b - a;
  }

  /** The size of a union: the first set and what the second adds. */
  lemma UnionSize<T>(a: set<T>, b: set<T>)
    ensures |a + b| == |a| + |b - a|
  {
    assert a + b == a + (b - a);
  }

  /** A subset as large as its superset is the superset. */
  lemma SubsetSameSize<T>(a: set<T>, b: set<T>)
    requires a <= b && |a| == |b|
    ensures a == b
  {
    if p :| p in b && p !in a {
      ProperSubsetSmaller(a, b, p);
    }
  }
}
