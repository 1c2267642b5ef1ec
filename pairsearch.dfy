/**
  The enumeration that drives the orderliness search: the pairs (i, j) with
  1 <= i <= j <= n - 1 in lexicographic order (the order in which
  `combinations_with_replacement(range(1, n), 2)` yields them), stopping at the
  first pair that passes a test.
 */
module PairSearch {
  import opened Wrappers

  /** (a, b) is one of the enumerated pairs for n. */
  predicate InRange(n: int, a: int, b: int)
  {
    1 <= a <= b < n
  }

  /** Pair (a, b) comes strictly before pair (i, j) in lexicographic order. */
  predicate Before(a: int, b: int, i: int, j: int)
  {
    a < i || (a == i && b < j)
  }

  /** The first enumerated pair, from (i, j) on, that passes `hit`. */
  function FirstPair(hit: (int, int) -> bool, n: int, i: int, j: int): (r: Option<(int, int)>)
    requires 1 <= i <= j <= n
    ensures r.Some? ==> InRange(n, r.value.0, r.value.1) && !Before(r.value.0, r.value.1, i, j)
    decreases n - i, n - j
  {
    if i == n then None
    else if j == n then FirstPair(hit, n, i + 1, i + 1)
    else if hit(i, j) then Some((i, j))
    else FirstPair(hit, n, i, j + 1)
  }

  /** From (i, j) on, the search finds nothing exactly when no enumerated pair
      passes; what it finds is an enumerated pair that passes and that no
      earlier passing pair precedes. */
  lemma {:induction false} FirstPairFrom(hit: (int, int) -> bool, n: int, i: int, j: int)
    requires 1 <= i <= j <= n
    ensures FirstPair(hit, n, i, j).None? <==>
      forall a, b :: InRange(n, a, b) && !Before(a, b, i, j) ==> !hit(a, b)
    ensures FirstPair(hit, n, i, j).Some? ==>
      var (a, b) := FirstPair(hit, n, i, j).value;
      && InRange(n, a, b) && !Before(a, b, i, j) && hit(a, b)
      && forall a', b' :: InRange(n, a', b') && !Before(a', b', i, j) && Before(a', b', a, b) ==>
           !hit(a', b')
    decreases n - i, n - j
  {
    if i == n {
    } else if j == n {
      FirstPairFrom(hit, n, i + 1, i + 1);
    } else if !hit(i, j) {
      FirstPairFrom(hit, n, i, j + 1);
    }
  }

  /** The whole enumeration: None exactly when no pair passes, otherwise the
      lexicographically first pair that passes. */
  lemma FirstPairSpec(hit: (int, int) -> bool, n: int)
    requires n >= 1
    ensures FirstPair(hit, n, 1, 1).None? <==> forall a, b :: InRange(n, a, b) ==> !hit(a, b)
    ensures FirstPair(hit, n, 1, 1).Some? ==>
      var (a, b) := FirstPair(hit, n, 1, 1).value;
      && InRange(n, a, b) && hit(a, b)
      && forall a', b' :: InRange(n, a', b') && Before(a', b', a, b) ==> !hit(a', b')
  {
    FirstPairFrom(hit, n, 1, 1);
  }
}
