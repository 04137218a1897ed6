/**
  Three-way comparison results, as returned by an `Ord::cmp` implementation,
  and the laws such an implementation promises its callers.
*/
module Cmp {

  /** The result of comparing two values (Rust's `core::cmp::Ordering`). */
  datatype Ordering = Less | Equal | Greater

  /** The ordering seen from the other side: `cmp(b, a)` for `cmp(a, b)`. */
  function Reverse(o: Ordering): (r: Ordering)
    ensures r == Equal <==> o == Equal
    ensures r == Less <==> o == Greater
    ensures r == Greater <==> o == Less
  {
    match o
    case Less => Greater
    case Equal => Equal
    case Greater => Less
  }

  /** Swapping the arguments reverses the result. */
  ghost predicate Antisymmetric<T(!new)>(cmp: (T, T) -> Ordering) {
    forall a, b :: cmp(b, a) == Reverse(cmp(a, b))
  }

  /** `a < b` and `b < c` give `a < c`; `Equal` is transitive too. */
  ghost predicate Transitive<T(!new)>(cmp: (T, T) -> Ordering) {
    && (forall a, b, c :: cmp(a, b) == Less && cmp(b, c) == Less ==> cmp(a, c) == Less)
    && (forall a, b, c :: cmp(a, b) == Equal && cmp(b, c) == Equal ==> cmp(a, c) == Equal)
  }

  /** `Equal` is returned exactly for identical values. */
  ghost predicate EqualIsIdentity<T(!new)>(cmp: (T, T) -> Ordering) {
    forall a, b :: cmp(a, b) == Equal <==> a == b
  }

  /** A total order in the sense of Rust's `Ord` whose `Eq` is value identity. */
  ghost predicate TotalOrder<T(!new)>(cmp: (T, T) -> Ordering) {
    Antisymmetric(cmp) && Transitive(cmp) && EqualIsIdentity(cmp)
  }
}
