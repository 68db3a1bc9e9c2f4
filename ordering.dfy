/** `Vec::sort` followed by `Vec::dedup` under a strict total order: the distinct elements of
    a sequence in increasing order. */
module Ordering {

  /** `less` is irreflexive, transitive and total, as a derived `Ord` is. */
  ghost predicate StrictTotal<T(!new)>(less: (T, T) -> bool)
  {
    (forall a :: !less(a, a))
    && (forall a, b, c :: less(a, b) && less(b, c) ==> less(a, c))
    && (forall a, b :: a == b || less(a, b) || less(b, a))
  }

  /** Increasing with no repeats. */
  predicate StrictlySorted<T>(s: seq<T>, less: (T, T) -> bool)
  {
    forall i, j :: 0 <= i < j < |s| ==> less(s[i], s[j])
  }

  /** Places `x` in a sorted, repeat-free sequence unless it is already there. */
  function Insert<T(!new, ==)>(s: seq<T>, x: T, less: (T, T) -> bool): (r: seq<T>)
    requires StrictTotal(less) && StrictlySorted(s, less)
    ensures StrictlySorted(r, less)
    ensures forall e :: e in r <==> e in s || e == x
  {
    if s == [] then [x]
    else if s[0] == x then s
    else if less(x, s[0]) then [x] + s
    else
      var rest := Insert(s[1..], x, less);
      assert forall e :: e in rest ==> less(s[0], e);
      [s[0]] + rest
  }

  /** `sort` then `dedup`: the distinct elements in increasing order. */
  function SortDedup<T(!new, ==)>(s: seq<T>, less: (T, T) -> bool): (r: seq<T>)
    requires StrictTotal(less)
    ensures StrictlySorted(r, less)
    ensures forall e :: e in r <==> e in s
  {
    if s == [] then []
    else
      assert s == s[..|s| - 1] + [s[|s| - 1]];
      Insert(SortDedup(s[..|s| - 1], less), s[|s| - 1], less)
  }
}
