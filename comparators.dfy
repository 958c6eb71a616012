/**
  Comparators as the heap uses them: a function returning a signed integer
  of which only the sign matters. `cmp(a, b) < 0` means that `a` has the
  strictly higher priority and belongs nearer the root.
*/
module Comparators {

  /** The sign of `cmp(a, b)` is the opposite of the sign of `cmp(b, a)`. */
  ghost predicate SignAntisymmetric<T(!new)>(cmp: (T, T) -> int) {
    forall a, b :: cmp(a, b) < 0 <==> cmp(b, a) > 0
  }

  /** "Ranks at least as high as" (`cmp(a, b) <= 0`) is transitive. */
  ghost predicate Transitive<T(!new)>(cmp: (T, T) -> int) {
    forall a, b, c :: cmp(a, b) <= 0 && cmp(b, c) <= 0 ==> cmp(a, c) <= 0
  }

  /**
    A total preorder given by its sign: reflexive (`cmp(a, a) == 0`),
    transitive and total. Equal-ranked distinct elements are allowed.
  */
  ghost predicate TotalPreorder<T(!new)>(cmp: (T, T) -> int) {
    SignAntisymmetric(cmp) && Transitive(cmp)
  }

  /** Reflexivity and totality follow from the two clauses above. */
  lemma PreorderReflexiveTotal<T(!new)>(cmp: (T, T) -> int, a: T, b: T)
    requires TotalPreorder(cmp)
    ensures cmp(a, a) == 0
    ensures cmp(a, b) <= 0 || cmp(b, a) <= 0
  {
  }

  /** Outranking strictly, then weakly, is outranking strictly. */
  lemma StrictThenWeak<T(!new)>(cmp: (T, T) -> int, a: T, b: T, c: T)
    requires TotalPreorder(cmp)
    requires cmp(a, b) < 0 && cmp(b, c) <= 0
    ensures cmp(a, c) < 0
  {
  }

  /** Outranking weakly, then strictly, is outranking strictly. */
  lemma WeakThenStrict<T(!new)>(cmp: (T, T) -> int, a: T, b: T, c: T)
    requires TotalPreorder(cmp)
    requires cmp(a, b) <= 0 && cmp(b, c) < 0
    ensures cmp(a, c) < 0
  {
  }

  /** The comparator `(a, b) => a - b` of a min-heap of integers. */
  function Ascending(a: int, b: int): int {
    a - b
  }

  /** The comparator `(a, b) => b - a` of a max-heap of integers. */
  function Descending(a: int, b: int): int {
    b - a
  }

  lemma AscendingIsTotalPreorder()
    ensures TotalPreorder(Ascending)
  {
  }

  lemma DescendingIsTotalPreorder()
    ensures TotalPreorder(Descending)
  {
  }
}
