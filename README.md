# Neotron FFI bridge types, modelled in Dafny

This project models the Neotron FFI crate: fixed-layout types that carry data
across a binary interface between independently compiled programs.

- `FfiBuffer` is a borrowed writable byte view. Its public fields are a
  nullable pointer and `data_len`.
- `FfiByteSlice` is the borrowed read-only twin.
- `FfiString` is borrowed UTF-8 text that wraps a byte slice.
- `FfiOption<T>` and `FfiResult<T, E>` are two-variant tagged unions. They stand
  in for the native `Option` and `Result`, and convert losslessly to and from them.

Modules:

- `Bytes` holds the byte type (`u8`).
- `Cmp` holds `Ordering` and the laws of `Ord`.
- `Lex` holds lexicographic byte comparison, the order both slice types use.
- `HexDebug` holds the `Debug` loop shared by the buffer and the slice, and a
  reference rendering it is proved against.
- `Native` holds the host's own `Option` and `Result`.
- `Utf8` holds the well-formedness grammar of section 4 of RFC 3629 and the
  encoding of text.
- `FfiBuffers`, `FfiByteSlices`, `FfiStrings`, `FfiOptions` and `FfiResults`
  follow the five source files, one module each.

How the model represents things:

- **Pointers.** A buffer's pointer is `Null` or the address of a caller-owned
  `array<byte>`. `as_mut_slice` hands out a view of that array, and writing
  through the view changes what `as_slice` returns.
- **Slices.** A slice's pointer is modelled by the bytes readable from it. A
  shared borrow cannot change while it is live, so a `seq<byte>` is enough.
- **Unsafe reads.** `from_raw_parts` is only sound when the pointer covers
  `data_len` bytes. That is the `Readable` precondition of every reading
  operation.
- **The buffer invariant.** "A null pointer has length 0" is a separate
  predicate, `WellFormed`. It is not part of the type, because the fields are
  public. Without it, `eq` and `cmp` disagree on buffers
  (`EqAndCompareDisagreeWhenIllFormed`).
- **`as_mut_slice` on empty buffers.** The doc comment on `as_mut_slice` says
  an empty buffer gives `None`. The code tests for a null pointer instead, and
  the model follows the code. A zero-length buffer built by `new` yields
  `Some` of an empty view, and only `empty()` yields `None`.
- **Text.** A Rust `&str` is modelled as its UTF-8 bytes. `FfiString::new`
  requires those bytes to be well formed, and the type itself never checks
  them.
- **String order.** `FfiString` orders strings by comparing their bytes.
  `FfiStrings.CompareIsCodePointOrder` proves that on UTF-8 text this equals
  code-point order.
- **Panics.** `unwrap` panics on the wrong variant, so the model turns that
  case into a `requires`.
- **Formatting.** `Debug` and `Display` are modelled as pure functions that
  produce the text. Formatter errors are not modelled.

## Model

| member | source | states |
|---|---|---|
| `Lex.CommonPrefixLen` | src/slice.rs:95-99 | the common prefix really is shared, and the bytes right after it differ |
| `Lex.LexCmpByFirstDifference` | src/slice.rs:95-99 | byte comparison equals "memcmp of the common length, then compare lengths" |
| `Lex.LexCmpDecidedAt` | src/slice.rs:95-99 | after an equal prefix, the first differing byte decides the order |
| `Lex.LexCmpProperPrefix` | src/slice.rs:95-99 | a proper prefix compares `Less` |
| `Lex.LexCmpEqualIff` | src/slice.rs:91-99 | `cmp` is `Equal` exactly for equal byte sequences |
| `Lex.LexCmpAntisymmetric` | src/slice.rs:91-99 | swapping the arguments reverses the result |
| `Lex.LexCmpTransitive` | src/slice.rs:91-99 | `a < b` and `b < c` give `a < c` |
| `Lex.LexCmpTotalOrder` | src/slice.rs:91-100 | byte comparison is a total order consistent with equality |
| `HexDebug.HexDigit` | src/slice.rs:60 | each digit of `{:02x}` is a lowercase hexadecimal digit |
| `HexDebug.HexByte` | src/slice.rs:60 | `0x{:02x}` is four characters: `0x` and two lowercase digits whose value is the byte |
| `HexDebug.HexByteInjective` | src/slice.rs:60 | distinct bytes render differently |
| `HexDebug.Format` | src/slice.rs:55-65 | the formatter loop writes exactly the reference text: `[ ]`, or `[ ` + bytes joined by `, ` + ` ]` |
| `HexDebug.RenderedLength` | src/slice.rs:55-65 | the output has `6n + 2` characters for `n > 0` bytes, and 3 for none |
| `HexDebug.RenderedAt` | src/slice.rs:55-65 | byte `k` appears as `0xhh` at offset `2 + 6k` |
| `HexDebug.RenderedInjective` | src/slice.rs:55-65 | different byte lists render differently |
| `HexDebug.RenderedExample` | src/slice.rs:55-65 | `[0xAB, 0x01]` renders as `[ 0xab, 0x01 ]`, and no bytes render as `[ ]` |
| `FfiByteSlices.New` | src/slice.rs:34-40 | `new(s)` records `data_len == len(s)`, and its view is exactly `s` |
| `FfiByteSlices.Empty` | src/slice.rs:43-46 | `empty()` is a readable view of length 0 |
| `FfiByteSlices.From` | src/slice.rs:70-72 | `From<&[u8]>` builds the same value as `new` |
| `FfiByteSlices.AsSlice` | src/slice.rs:49-51 | `as_slice` is always defined and returns `data_len` bytes |
| `FfiByteSlices.PartialCompare` | src/slice.rs:106-108 | `partial_cmp` is always `Some(cmp)` |
| `FfiByteSlices.Debug` | src/slice.rs:55-65 | `Debug` writes the hex rendering of the viewed bytes |
| `FfiByteSlices.NewAsSlice` | src/slice.rs:34-40 | `new(s).as_slice() == s`, and `From` agrees with `new` |
| `FfiByteSlices.EmptyAsSlice` | src/slice.rs:43-46 | `empty().as_slice()` succeeds and is empty |
| `FfiByteSlices.EqLengthFirst` | src/slice.rs:79-86 | slices of different lengths are never equal |
| `FfiByteSlices.EqIffSameBytes` | src/slice.rs:79-86 | `eq` holds exactly when the viewed bytes are equal |
| `FfiByteSlices.CompareEqualIffEq` | src/slice.rs:79-99 | `cmp` is `Equal` exactly when `eq` holds |
| `FfiByteSlices.CompareAntisymmetric` | src/slice.rs:91-100 | swapping the arguments reverses `cmp` |
| `FfiByteSlices.CompareTransitive` | src/slice.rs:91-100 | `cmp` is transitive for `Less` and for `Equal` |
| `FfiByteSlices.CompareFirstDifference` | src/slice.rs:95-99 | the first differing byte decides, and a proper prefix is less |
| `FfiByteSlices.MakeSlices` | src/slice.rs:120-132 | `[1,2,3,4]` equals `[1,2,3,4]`, differs from `[1,2,3,5]`, and is less than it |
| `FfiBuffers.New` | src/buffer.rs:38-44 | `new(s)` points at `s` with `data_len == len(s)`, and is readable and well formed |
| `FfiBuffers.Empty` | src/buffer.rs:47-53 | `empty()` has a null pointer and length 0 |
| `FfiBuffers.From` | src/buffer.rs:92-94 | `From<&mut [u8]>` builds the same value as `new` |
| `FfiBuffers.AsSlice` | src/buffer.rs:56-62 | a null pointer gives `[]`; otherwise the `data_len` bytes at the pointer |
| `FfiBuffers.AsMutSlice` | src/buffer.rs:67-73 | `None` exactly when the pointer is null; otherwise a view of the `data_len` bytes at it |
| `FfiBuffers.View` | src/buffer.rs:71 | a mutable view covers `len` bytes |
| `FfiBuffers.Store` | src/buffer.rs:71 | writing into the view changes that one byte of the storage and nothing else |
| `FfiBuffers.WriteThrough` | src/buffer.rs:56-73 | after writing byte `i` through `as_mut_slice`, `as_slice` shows the new byte at `i` and the old bytes elsewhere |
| `FfiBuffers.PartialCompare` | src/buffer.rs:128-130 | `partial_cmp` is always `Some(cmp)` |
| `FfiBuffers.Debug` | src/buffer.rs:77-87 | `Debug` writes the hex rendering of the `as_slice` bytes |
| `FfiBuffers.NewAsSlice` | src/buffer.rs:38-62 | `new(s)` records `len(s)`, and `as_slice` returns exactly `s` |
| `FfiBuffers.EmptyAsSlice` | src/buffer.rs:47-58 | `empty().as_slice()` is empty |
| `FfiBuffers.AsMutSliceOfNewAndEmpty` | src/buffer.rs:67-73 | `empty().as_mut_slice()` is `None`; `new(s).as_mut_slice()` is `Some` view of exactly `s` |
| `FfiBuffers.AsMutSliceViewsAsSlice` | src/buffer.rs:56-73 | the mutable view covers the same bytes `as_slice` returns |
| `FfiBuffers.EqLengthFirst` | src/buffer.rs:101-104 | buffers of different `data_len` are never equal |
| `FfiBuffers.EqIffSameBytes` | src/buffer.rs:101-108 | for well-formed buffers, `eq` holds exactly when the bytes are equal |
| `FfiBuffers.CompareEqualIffEq` | src/buffer.rs:101-121 | for well-formed buffers, `cmp` is `Equal` exactly when `eq` holds |
| `FfiBuffers.EqAndCompareDisagreeWhenIllFormed` | src/buffer.rs:101-121 | a null buffer with `data_len` 3 compares `Equal` to `empty()` but is not `eq` to it |
| `FfiBuffers.CompareAntisymmetric` | src/buffer.rs:117-121 | swapping the arguments reverses `cmp` |
| `FfiBuffers.CompareTransitive` | src/buffer.rs:117-121 | `cmp` is transitive for `Less` and for `Equal` |
| `FfiBuffers.MakeBuffers` | src/buffer.rs:142-158 | `[1,2,3,4]` buffers are equal; `[1,2,3,5]` differs and is greater; `as_mut_slice` gives `Some([1,2,3,4])` |
| `Utf8.EncodeChar` | src/string.rs:35 | each character's bytes match one of the productions `UTF8-1` to `UTF8-4` |
| `Utf8.Encode3` | src/string.rs:35 | a three-byte character meets `UTF8-3`, edge rows for `E0` and `ED` included |
| `Utf8.Encode4` | src/string.rs:35 | a four-byte character meets `UTF8-4`, edge rows for `F0` and `F4` included |
| `Utf8.ValidPrepend` | src/string.rs:35 | a well-formed character followed by well-formed text is well formed |
| `Utf8.EncodeValid` | src/string.rs:35 | the bytes of any text are well-formed UTF-8 |
| `Utf8.EncodeCharOrdered` | src/string.rs:29 | for characters `c < d`, their encodings first differ inside both, at a smaller byte for `c` |
| `Utf8.DigitsOrdered2` | src/string.rs:29 | the same for two-byte characters |
| `Utf8.DigitsOrdered3` | src/string.rs:29 | the same for three-byte characters |
| `Utf8.DigitsOrdered4` | src/string.rs:29 | the same for four-byte characters |
| `Utf8.EncodeCharInjective` | src/string.rs:35 | distinct characters have distinct encodings |
| `Utf8.EncodePreservesOrder` | src/string.rs:29 | comparing encodings byte by byte gives the code-point order of the texts |
| `FfiStrings.New` | src/string.rs:34-36 | the wrapped slice of `new(s)` holds exactly the bytes of `s`, with `data_len == len(s)` |
| `FfiStrings.From` | src/string.rs:46-48 | `From<&str>` builds the same value as `new` |
| `FfiStrings.AsStr` | src/string.rs:39-41 | `as_str` returns `data_len` well-formed UTF-8 bytes |
| `FfiStrings.Display` | src/string.rs:59-65 | `Display` writes the same bytes `as_str` returns, read from the same pointer and length |
| `FfiStrings.PartialCompare` | src/string.rs:29 | the derived `partial_cmp` is always `Some(cmp)` |
| `FfiStrings.NewAsStr` | src/string.rs:34-41 | `new(s).as_str() == s`, and `From` agrees with `new` |
| `FfiStrings.DisplayOfNew` | src/string.rs:59-65 | `Display` of `new(s)` writes exactly `s` |
| `FfiStrings.EqIffSameText` | src/string.rs:29 | two strings are equal exactly when their texts are equal |
| `FfiStrings.CompareIsByteOrder` | src/string.rs:29 | string order is the byte-wise lexicographic order of the texts; it is `Equal` exactly when `eq` holds and is antisymmetric |
| `FfiStrings.CompareIsCodePointOrder` | src/string.rs:29 | string order over UTF-8 text is the texts' code-point order |
| `FfiStrings.MakeString` | src/string.rs:76-80 | `"Hello, world!"` turned into an `FfiString` displays as `"Hello, world!"` |
| `FfiOptions.FromNative` | src/option.rs:43-50 | the native option becomes the FFI option with the same variant and payload |
| `FfiOptions.ToNative` | src/option.rs:52-59 | the FFI option becomes the native option with the same variant and payload |
| `FfiOptions.Unwrap` | src/option.rs:37-40 | `unwrap` needs `Some` and returns its payload |
| `FfiOptions.Eq` | src/option.rs:27 | derived equality holds exactly for equal variants with equal payloads |
| `FfiOptions.NativeRoundTrip` | src/option.rs:43-59 | native → FFI → native is the identity |
| `FfiOptions.FfiRoundTrip` | src/option.rs:43-59 | FFI → native → FFI is the identity |
| `FfiOptions.UnwrapSome` | src/option.rs:37-40 | `unwrap(Some(x)) == x`, including after converting from the native `Some(x)` |
| `FfiOptions.EqStructural` | src/option.rs:27 | `Some(a) == Some(b)` iff `a == b`, `Some(_) != None`, `None == None` |
| `FfiResults.FromNative` | src/result.rs:56-63 | the native result becomes the FFI result with the same variant and payload |
| `FfiResults.ToNative` | src/result.rs:65-72 | the FFI result becomes the native result with the same variant and payload |
| `FfiResults.Unwrap` | src/result.rs:34-40 | `unwrap` needs `Ok` and returns its payload |
| `FfiResults.Clone` | src/result.rs:48-53 | `clone` keeps the variant and the payload |
| `FfiResults.Eq` | src/result.rs:24 | derived equality holds exactly for equal variants with equal payloads |
| `FfiResults.Compare` | src/result.rs:24-30 | the derived `cmp` puts every `Ok` before every `Err` |
| `FfiResults.PartialCompare` | src/result.rs:24-30 | the derived `partial_cmp` puts every `Ok` before every `Err` |
| `FfiResults.NativeRoundTrip` | src/result.rs:56-72 | native → FFI → native is the identity |
| `FfiResults.FfiRoundTrip` | src/result.rs:56-72 | FFI → native → FFI is the identity |
| `FfiResults.UnwrapOk` | src/result.rs:34-40 | `unwrap(Ok(x)) == x`, including after converting from the native `Ok(x)` |
| `FfiResults.CompareWithinVariant` | src/result.rs:24-30 | within one variant the payloads' comparison decides |
| `FfiResults.CompareTotalOrder` | src/result.rs:24-30 | if both payload orders are total orders, so is the derived order on results |
| `FfiResults.PartialCompareAgrees` | src/result.rs:24-30 | if the payloads' `partial_cmp` is `Some(cmp)`, so is the derived one |

## Left out

- src/lib.rs: it only declares modules and re-exports them, with no behaviour.
- Lifetimes, `PhantomData`, `#[repr(C)]` layout and ABI stability are compile-time or layout guarantees, with no run-time behaviour to state.
- The pointer is abstracted to "null, or the storage it points into". Address arithmetic and pointer identity are not modelled.
- A byte slice with a null pointer is not represented. `as_slice` on one is undefined behaviour in the source.
- `usize` bounds on `data_len` are not modelled (`nat`). No operation does arithmetic on the length.
- The derived `Clone` of `FfiBuffer`, `FfiByteSlice`, `FfiString` and `FfiOption` copies the fields, which is the identity on these value models. All of these are left out.
- `FfiResults.Clone`: payloads are values, so cloning a payload is modelled as the identity. A payload `Clone` with observable effects is not captured.
- `FfiString`'s `Debug` (src/string.rs:51-57) delegates to the standard library's escaping of `str`, which is outside this model.
- The derived `Debug` of `FfiOption` and `FfiResult`, and the derived `Hash` of `FfiResult`, are standard-library formatting and hashing and are not modelled.
- The panic message of `FfiResult::unwrap`, which includes the error's `Debug` text, is not modelled. The panic itself is a precondition.
- Formatter errors (the `?` after each `write!`) come from the output sink and are not modelled. Formatting is a pure function that returns the text.
- `FfiString` does not validate UTF-8 (`from_utf8_unchecked`). Validity is a trusted precondition of `new`, not a checked operation.
- Rust's `&str` carries a `char` sequence that the model encodes with `Utf8.Encode`. That encoding is used only for the `"Hello, world!"` example and as the source of well-formed texts.
