/**
  `FfiResult<T, E>`: the fixed-layout two-variant stand-in for `Result<T, E>`
  (src/result.rs), with its conversions, `unwrap`, `Clone` and the derived
  equality and ordering.
*/
module FfiResults {
  import Native
  import opened Cmp

  /** The operation succeeded, or it failed; `Ok` is declared first. */
  datatype FfiResult<T, E> = Ok(value: T) | Err(error: E)

  /** `From<Result<T, E>> for FfiResult<T, E>`: same variant, same payload. */
  function FromNative<T, E>(r: Native.Result<T, E>): (f: FfiResult<T, E>)
    ensures f.Ok? <==> r.Ok?
    ensures f.Ok? ==> f.value == r.value
    ensures f.Err? ==> f.error == r.error
  {
    match r
    case Ok(x) => Ok(x)
    case Err(x) => Err(x)
  }

  /** `From<FfiResult<T, E>> for Result<T, E>`: same variant, same payload. */
  function ToNative<T, E>(f: FfiResult<T, E>): (r: Native.Result<T, E>)
    ensures r.Ok? <==> f.Ok?
    ensures r.Ok? ==> r.value == f.value
    ensures r.Err? ==> r.error == f.error
  {
    match f
    case Ok(x) => Native.Ok(x)
    case Err(x) => Native.Err(x)
  }

  /**
    `unwrap`: convert to the native result and unwrap that. Unwrapping `Err`
    panics (with the error's `Debug` text), so the model requires `Ok`.
  */
  function Unwrap<T, E>(f: FfiResult<T, E>): (x: T)
    requires f.Ok?
    ensures f == Ok(x)
  {
    var r := ToNative(f);
    r.value
  }

  /**
    `Clone`: the same variant around a clone of the payload. Payloads are
    values here, so a clone of a payload is the payload itself.
  */
  function Clone<T, E>(f: FfiResult<T, E>): (c: FfiResult<T, E>)
    ensures c == f
  {
    match f
    case Ok(x) => Ok(x)
    case Err(x) => Err(x)
  }

  /** The derived `PartialEq`: equal variants with equal payloads. */
  function Eq<T(==), E(==)>(a: FfiResult<T, E>, b: FfiResult<T, E>): (r: bool)
    ensures r <==> a == b
  {
    match (a, b)
    case (Ok(x), Ok(y)) => x == y
    case (Err(x), Err(y)) => x == y
    case _ => false
  }

  /**
    The derived `Ord`: variants in declaration order (every `Ok` before every
    `Err`), then the payloads' own comparisons.
  */
  function Compare<T, E>(a: FfiResult<T, E>, b: FfiResult<T, E>,
                         cmpOk: (T, T) -> Ordering, cmpErr: (E, E) -> Ordering): (r: Ordering)
    ensures a.Ok? && b.Err? ==> r == Less
    ensures a.Err? && b.Ok? ==> r == Greater
  {
    match (a, b)
    case (Ok(x), Ok(y)) => cmpOk(x, y)
    case (Err(x), Err(y)) => cmpErr(x, y)
    case (Ok(_), Err(_)) => Less
    case (Err(_), Ok(_)) => Greater
  }

  /**
    The derived `PartialOrd`: variants in declaration order, then the payloads'
    own `partial_cmp`.
  */
  function PartialCompare<T, E>(a: FfiResult<T, E>, b: FfiResult<T, E>,
                                pOk: (T, T) -> Native.Option<Ordering>,
                                pErr: (E, E) -> Native.Option<Ordering>): (r: Native.Option<Ordering>)
    ensures a.Ok? && b.Err? ==> r == Native.Some(Less)
    ensures a.Err? && b.Ok? ==> r == Native.Some(Greater)
  {
    match (a, b)
    case (Ok(x), Ok(y)) => pOk(x, y)
    case (Err(x), Err(y)) => pErr(x, y)
    case (Ok(_), Err(_)) => Native.Some(Less)
    case (Err(_), Ok(_)) => Native.Some(Greater)
  }

  /** Native to FFI and back is the identity. */
  lemma NativeRoundTrip<T, E>(r: Native.Result<T, E>)
    ensures ToNative(FromNative(r)) == r
  {
  }

  /** FFI to native and back is the identity. */
  lemma FfiRoundTrip<T, E>(f: FfiResult<T, E>)
    ensures FromNative(ToNative(f)) == f
  {
  }

  /** `unwrap` of `Ok(x)` is `x`. */
  lemma UnwrapOk<T, E>(x: T)
    ensures var f: FfiResult<T, E> := Ok(x); Unwrap(f) == x
    ensures var r: Native.Result<T, E> := Native.Ok(x); Unwrap(FromNative(r)) == x
  {
  }

  /** Within one variant the payloads decide. */
  lemma CompareWithinVariant<T, E>(x: T, y: T, e: E, g: E,
                                   cmpOk: (T, T) -> Ordering, cmpErr: (E, E) -> Ordering)
    ensures Compare(Ok(x), Ok(y), cmpOk, cmpErr) == cmpOk(x, y)
    ensures Compare(Err(e), Err(g), cmpOk, cmpErr) == cmpErr(e, g)
  {
  }

  /**
    When both payload orders are total orders consistent with equality, so is
    the derived order on results.
  */
  lemma CompareTotalOrder<T(!new), E(!new)>(cmpOk: (T, T) -> Ordering, cmpErr: (E, E) -> Ordering)
    requires TotalOrder(cmpOk) && TotalOrder(cmpErr)
    ensures TotalOrder((a: FfiResult<T, E>, b: FfiResult<T, E>) => Compare(a, b, cmpOk, cmpErr))
  {
    var c := (a: FfiResult<T, E>, b: FfiResult<T, E>) => Compare(a, b, cmpOk, cmpErr);
    forall a: FfiResult<T, E>, b: FfiResult<T, E>
      ensures c(b, a) == Reverse(c(a, b)) && (c(a, b) == Equal <==> a == b)
    {
      match (a, b)
      case (Ok(x), Ok(y)) => assert cmpOk(y, x) == Reverse(cmpOk(x, y));
      case (Err(x), Err(y)) => assert cmpErr(y, x) == Reverse(cmpErr(x, y));
      case _ =>
    }
  }

  /**
    When the payloads' `partial_cmp` is always `Some(cmp)`, so is the derived
    `partial_cmp` of results.
  */
  lemma PartialCompareAgrees<T, E>(a: FfiResult<T, E>, b: FfiResult<T, E>,
                                   cmpOk: (T, T) -> Ordering, cmpErr: (E, E) -> Ordering,
                                   pOk: (T, T) -> Native.Option<Ordering>,
                                   pErr: (E, E) -> Native.Option<Ordering>)
    requires forall x, y :: pOk(x, y) == Native.Some(cmpOk(x, y))
    requires forall x, y :: pErr(x, y) == Native.Some(cmpErr(x, y))
    ensures PartialCompare(a, b, pOk, pErr) == Native.Some(Compare(a, b, cmpOk, cmpErr))
  {
  }
}
