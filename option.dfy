/**
  `FfiOption<T>`: the fixed-layout two-variant stand-in for `Option<T>`
  (src/option.rs), with its total conversions to and from the native type.
*/
module FfiOptions {
  import Native

  /** There is some data, or there is none; `Some` is declared first. */
  datatype FfiOption<T> = Some(value: T) | None

  /** `From<Option<T>> for FfiOption<T>`: same variant, same payload. */
  function FromNative<T>(o: Native.Option<T>): (r: FfiOption<T>)
    ensures r.Some? <==> o.Some?
    ensures r.Some? ==> r.value == o.value
  {
    match o
    case Some(x) => Some(x)
    case None => None
  }

  /** `From<FfiOption<T>> for Option<T>`: same variant, same payload. */
  function ToNative<T>(o: FfiOption<T>): (r: Native.Option<T>)
    ensures r.Some? <==> o.Some?
    ensures r.Some? ==> r.value == o.value
  {
    match o
    case Some(x) => Native.Some(x)
    case None => Native.None
  }

  /**
    `unwrap`: convert to the native option and unwrap that. Unwrapping `None`
    panics, so the model requires `Some`.
  */
  function Unwrap<T>(o: FfiOption<T>): (x: T)
    requires o.Some?
    ensures o == Some(x)
  {
    var n := ToNative(o);
    n.value
  }

  /** The derived `PartialEq`: equal variants with equal payloads. */
  function Eq<T(==)>(a: FfiOption<T>, b: FfiOption<T>): (r: bool)
    ensures r <==> a == b
  {
    match (a, b)
    case (Some(x), Some(y)) => x == y
    case (None, None) => true
    case _ => false
  }

  /** Native to FFI and back is the identity. */
  lemma NativeRoundTrip<T>(o: Native.Option<T>)
    ensures ToNative(FromNative(o)) == o
  {
  }

  /** FFI to native and back is the identity. */
  lemma FfiRoundTrip<T>(o: FfiOption<T>)
    ensures FromNative(ToNative(o)) == o
  {
  }

  /** `unwrap` of `Some(x)` is `x`, and `unwrap` needs exactly the `Some` tag. */
  lemma UnwrapSome<T>(x: T)
    ensures Unwrap(Some(x)) == x
    ensures Unwrap(FromNative(Native.Some(x))) == x
  {
  }

  /** Derived equality is structural: `Some(a) == Some(b)` iff `a == b`, and `Some(_) != None`. */
  lemma EqStructural<T>(a: T, b: T)
    ensures Eq(Some(a), Some(b)) <==> a == b
    ensures !Eq(Some(a), None) && !Eq(None, Some(a))
    ensures var n: FfiOption<T> := None; Eq(n, n)
  {
  }
}
