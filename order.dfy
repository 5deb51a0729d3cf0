/**
  The comparator contract shared by the heap and the list sort.

  The library's comparators follow one convention: `compare(a, b) > 0` means that
  `a` orders before `b` (the test comparator on integers returns `b - a`).  So
  `compare(a, b) >= 0` reads "a orders no later than b" and `compare(a, b) == 0`
  reads "a and b order together".  heap.h asks that the comparator create an
  ordering; this module states that requirement once.
*/
module Order {

  /**
    Names the chain a, b, c.  Transitivity is stated for named chains only, so
    that it is applied where a proof calls Transitive and not to every pair of
    comparisons in sight.
  */
  ghost predicate Chain<T>(cmp: (T, T) -> int, a: T, b: T, c: T)
  {
    true
  }

  /** A comparator whose sign is antisymmetric and whose "no later than" is transitive. */
  ghost predicate IsTotalOrder<T(!new)>(cmp: (T, T) -> int)
  {
    && (forall a, b :: cmp(a, b) > 0 <==> cmp(b, a) < 0)
    && (forall a, b, c {:trigger Chain(cmp, a, b, c)} :: cmp(a, b) >= 0 && cmp(b, c) >= 0 ==> cmp(a, c) >= 0)
  }

  lemma Reflexive<T(!new)>(cmp: (T, T) -> int, a: T)
    requires IsTotalOrder(cmp)
    ensures cmp(a, a) == 0
  {
  }

  lemma Total<T(!new)>(cmp: (T, T) -> int, a: T, b: T)
    requires IsTotalOrder(cmp)
    ensures cmp(a, b) >= 0 || cmp(b, a) >= 0
    ensures cmp(a, b) <= 0 <==> cmp(b, a) >= 0
  {
  }

  lemma Transitive<T(!new)>(cmp: (T, T) -> int, a: T, b: T, c: T)
    requires IsTotalOrder(cmp)
    requires cmp(a, b) >= 0 && cmp(b, c) >= 0
    ensures cmp(a, c) >= 0
  {
    assert Chain(cmp, a, b, c);
  }

  /** "Strictly before" followed by "no later than" is "strictly before". */
  lemma StrictTransitive<T(!new)>(cmp: (T, T) -> int, a: T, b: T, c: T)
    requires IsTotalOrder(cmp)
    requires cmp(a, b) > 0 && cmp(b, c) >= 0
    ensures cmp(a, c) > 0
  {
    assert Chain(cmp, a, b, c) && Chain(cmp, b, c, a);
  }
}
