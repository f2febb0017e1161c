/**
 Orders given by a comparison function, and sequences sorted by them.
 */
module Ordering {

  /** Not greater: the comparison does not put b before a. */
  predicate LessEq<T>(less: (T, T) -> bool, a: T, b: T)
  {
    !less(b, a)
  }

  /** What sorting needs of a comparison: a strict weak order. */
  ghost predicate Order<T(!new)>(less: (T, T) -> bool)
  {
    && (forall a, b :: LessEq(less, a, b) || LessEq(less, b, a))
    && (forall a, b, c {:trigger LessEq(less, a, b), LessEq(less, b, c)} ::
      LessEq(less, a, b) && LessEq(less, b, c) ==> LessEq(less, a, c))
  }

  ghost predicate Sorted<T(!new)>(s: seq<T>, less: (T, T) -> bool)
  {
    forall i, j :: 0 <= i < j < |s| ==> LessEq(less, s[i], s[j])
  }

  lemma SortedSnoc<T(!new)>(s: seq<T>, x: T, less: (T, T) -> bool)
    requires Order(less) && Sorted(s, less) && (s != [] ==> LessEq(less, s[|s| - 1], x))
    ensures Sorted(s + [x], less)
  {
    forall i | 0 <= i < |s| ensures LessEq(less, s[i], x) {
      if i < |s| - 1 { assert LessEq(less, s[i], s[|s| - 1]); }
    }
  }

}
