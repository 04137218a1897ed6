/**
  `FfiString`: borrowed UTF-8 text, a single-field wrapper over
  `FfiByteSlice` (src/string.rs). A Rust `&str` is modelled by its UTF-8
  bytes; the type never validates them, it trusts whoever made it.
*/
module FfiStrings {
  import opened Bytes
  import opened Cmp
  import Lex
  import Native
  import Utf8
  import Slices = FfiByteSlices

  /** The wrapped byte slice (a private field: only `new` and `From` make one). */
  datatype FfiString = FfiString(slice: Slices.FfiByteSlice)

  /**
    What every value made by `new` satisfies and `from_utf8_unchecked`
    demands: the slice is readable and its bytes are well-formed UTF-8.
  */
  predicate Valid(t: FfiString) {
    Slices.Readable(t.slice) && Utf8.Valid(Slices.AsSlice(t.slice))
  }

  /** `new`: wrap a byte slice over the text's bytes. */
  function New(s: seq<byte>): (t: FfiString)
    requires Utf8.Valid(s)
    ensures Valid(t)
    ensures Slices.AsSlice(t.slice) == s && t.slice.dataLen == |s|
  {
    FfiString(Slices.New(s))
  }

  /** `From<&str>`: the same value as `new`. */
  function From(s: seq<byte>): (t: FfiString)
    requires Utf8.Valid(s)
    ensures t == New(s)
  {
    New(s)
  }

  /** `as_str`: the wrapped slice's bytes, read back as text without checking. */
  function AsStr(t: FfiString): (s: seq<byte>)
    requires Valid(t)
    ensures Utf8.Valid(s) && |s| == t.slice.dataLen
  {
    Slices.AsSlice(t.slice)
  }

  /**
    `Display::fmt`: the text, written as it is. It rebuilds the text from the
    slice's raw pointer and length rather than calling `as_str`.
  */
  function Display(t: FfiString): (s: seq<byte>)
    requires Valid(t)
    ensures s == AsStr(t)
  {
    t.slice.data[..t.slice.dataLen]
  }

  /** The derived `PartialEq`: the wrapped slices' `eq`. */
  function Eq(a: FfiString, b: FfiString): bool
    requires Valid(a) && Valid(b)
  {
    Slices.Eq(a.slice, b.slice)
  }

  /** The derived `Ord`: the wrapped slices' `cmp`. */
  function Compare(a: FfiString, b: FfiString): Ordering
    requires Valid(a) && Valid(b)
  {
    Slices.Compare(a.slice, b.slice)
  }

  /** The derived `PartialOrd`: the wrapped slices' `partial_cmp`. */
  function PartialCompare(a: FfiString, b: FfiString): (r: Native.Option<Ordering>)
    requires Valid(a) && Valid(b)
    ensures r == Native.Some(Compare(a, b))
  {
    Slices.PartialCompare(a.slice, b.slice)
  }

  /** `new(s).as_str()` is `s`, and `From` builds the same value. */
  lemma NewAsStr(s: seq<byte>)
    requires Utf8.Valid(s)
    ensures AsStr(New(s)) == s
    ensures From(s) == New(s)
  {
  }

  /** `Display` writes exactly the text `new` was given. */
  lemma DisplayOfNew(s: seq<byte>)
    requires Utf8.Valid(s)
    ensures Display(New(s)) == s
  {
  }

  /** Two strings are equal exactly when their texts are. */
  lemma EqIffSameText(a: FfiString, b: FfiString)
    requires Valid(a) && Valid(b)
    ensures Eq(a, b) <==> AsStr(a) == AsStr(b)
  {
    Slices.EqIffSameBytes(a.slice, b.slice);
  }

  /** Strings are ordered by the byte-wise lexicographic order of their texts. */
  lemma CompareIsByteOrder(a: FfiString, b: FfiString)
    requires Valid(a) && Valid(b)
    ensures Compare(a, b) == Lex.LexCmp(AsStr(a), AsStr(b))
    ensures Compare(a, b) == Equal <==> Eq(a, b)
    ensures Compare(b, a) == Reverse(Compare(a, b))
  {
    Slices.CompareEqualIffEq(a.slice, b.slice);
    Slices.CompareAntisymmetric(a.slice, b.slice);
  }

  /**
    Because the bytes are UTF-8, the derived byte-wise order of two strings is
    the code-point order of their texts.
  */
  lemma CompareIsCodePointOrder(a: string, b: string)
    ensures Utf8.Valid(Utf8.Encode(a)) && Utf8.Valid(Utf8.Encode(b))
    ensures Compare(New(Utf8.Encode(a)), New(Utf8.Encode(b))) == Utf8.CodePointCmp(a, b)
  {
    Utf8.EncodeValid(a);
    Utf8.EncodeValid(b);
    Utf8.EncodePreservesOrder(a, b);
  }

  /** The `make_string` test: `"Hello, world!"` displays as `"Hello, world!"`. */
  lemma MakeString()
    ensures Utf8.Valid(Utf8.Encode("Hello, world!"))
    ensures Display(From(Utf8.Encode("Hello, world!"))) == Utf8.Encode("Hello, world!")
  {
    Utf8.EncodeValid("Hello, world!");
  }
}
