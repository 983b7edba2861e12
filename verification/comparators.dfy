/** Three-way comparison callbacks, as the C containers take them: the sign of
    `cmp(a, b)` says whether `a` sorts before (negative), together with (zero)
    or after (positive) `b`. Zero is the containers' only notion of equality. */
module Comparators {

  /** The laws every comparator handed to a container must obey. */
  ghost predicate IsComparator<T(!new)>(cmp: (T, T) -> int) {
    && (forall a, b :: cmp(a, b) < 0 <==> cmp(b, a) > 0)
    && (forall a, b, c :: cmp(a, b) < 0 && cmp(b, c) < 0 ==> cmp(a, c) < 0)
    && (forall a, b, c :: cmp(a, b) == 0 && cmp(b, c) == 0 ==> cmp(a, c) == 0)
  }

  /** Every value equals itself. */
  lemma Reflexive<T(!new)>(cmp: (T, T) -> int, a: T)
    requires IsComparator(cmp)
    ensures cmp(a, a) == 0
  {
    assert cmp(a, a) < 0 <==> cmp(a, a) > 0;
  }

  /** Zero is symmetric: "a equals b" and "b equals a" agree. */
  lemma ZeroSymmetric<T(!new)>(cmp: (T, T) -> int, a: T, b: T)
    requires IsComparator(cmp)
    ensures cmp(a, b) == 0 <==> cmp(b, a) == 0
  {
    assert cmp(a, b) < 0 <==> cmp(b, a) > 0;
    assert cmp(b, a) < 0 <==> cmp(a, b) > 0;
  }

  /** Something strictly below `b` cannot equal a value that equals `b`. */
  lemma BelowNotEqual<T(!new)>(cmp: (T, T) -> int, a: T, b: T, e: T)
    requires IsComparator(cmp)
    ensures cmp(a, b) < 0 && cmp(b, e) == 0 ==> cmp(a, e) != 0
  {
    ZeroSymmetric(cmp, b, e);
  }

  /** Something strictly above `a` cannot equal a value that equals `a`. */
  lemma AboveNotEqual<T(!new)>(cmp: (T, T) -> int, a: T, b: T, e: T)
    requires IsComparator(cmp)
    ensures cmp(a, b) < 0 && cmp(a, e) == 0 ==> cmp(b, e) != 0
  {
    ZeroSymmetric(cmp, b, e);
  }

  /** Integer difference, the comparator the tests use for `int` elements and
      the one the allocator uses for block addresses, obeys the laws. */
  lemma DifferenceIsComparator()
    ensures IsComparator((a: int, b: int) => a - b)
  {
  }
}
