/**
  `FfiByteSlice`: a borrowed read-only byte view (src/slice.rs). The pointer is
  modelled by the bytes readable from it, `data`; the view is the first
  `dataLen` of them.
*/
module FfiByteSlices {
  import opened Bytes
  import opened Cmp
  import Lex
  import HexDebug
  import Native

  /** The two public fields: where the bytes are, and how many there are. */
  datatype FfiByteSlice = FfiByteSlice(data: seq<byte>, dataLen: nat)

  /** The safety promise behind `from_raw_parts`: the pointer covers `dataLen` bytes. */
  predicate Readable(s: FfiByteSlice) {
    s.dataLen <= |s.data|
  }

  /** `new`: point at the slice's bytes and record its length. */
  function New(bytes: seq<byte>): (s: FfiByteSlice)
    ensures Readable(s) && s.dataLen == |bytes|
    ensures AsSlice(s) == bytes
  {
    FfiByteSlice(bytes, |bytes|)
  }

  /** `empty`: a view of a zero-length static region (not a null pointer). */
  function Empty(): (s: FfiByteSlice)
    ensures Readable(s) && s.dataLen == 0
  {
    New([])
  }

  /** `From<&[u8]>`: the same value as `new`. */
  function From(bytes: seq<byte>): (s: FfiByteSlice)
    ensures s == New(bytes)
  {
    New(bytes)
  }

  /** `as_slice`: the `dataLen` bytes at the pointer. Never absent. */
  function AsSlice(s: FfiByteSlice): (r: seq<byte>)
    requires Readable(s)
    ensures |r| == s.dataLen
  {
    s.data[..s.dataLen]
  }

  /** `PartialEq::eq`: lengths first, then the bytes. */
  function Eq(a: FfiByteSlice, b: FfiByteSlice): (r: bool)
    requires Readable(a) && Readable(b)
  {
    if a.dataLen != b.dataLen then false
    else AsSlice(a) == AsSlice(b)
  }

  /** `Ord::cmp`: the lexicographic order of the two byte slices. */
  function Compare(a: FfiByteSlice, b: FfiByteSlice): Ordering
    requires Readable(a) && Readable(b)
  {
    Lex.LexCmp(AsSlice(a), AsSlice(b))
  }

  /** `PartialOrd::partial_cmp`: always defined, and always `cmp`. */
  function PartialCompare(a: FfiByteSlice, b: FfiByteSlice): (r: Native.Option<Ordering>)
    requires Readable(a) && Readable(b)
    ensures r == Native.Some(Compare(a, b))
  {
    Native.Some(Compare(a, b))
  }

  /** `Debug::fmt`: the bracketed hex list of the viewed bytes. */
  method Debug(s: FfiByteSlice) returns (out: string)
    requires Readable(s)
    ensures out == HexDebug.Rendered(AsSlice(s))
  {
    var bytes := AsSlice(s);
    out := HexDebug.Format(bytes);
  }

  /** `new(s)` (and `From`) views exactly `s`. */
  lemma NewAsSlice(bytes: seq<byte>)
    ensures New(bytes).dataLen == |bytes| && AsSlice(New(bytes)) == bytes
    ensures From(bytes) == New(bytes)
  {
  }

  /** `empty()` is a genuine zero-length view; `as_slice` still succeeds. */
  lemma EmptyAsSlice()
    ensures AsSlice(Empty()) == []
  {
  }

  /** Different lengths are never equal, whatever the bytes. */
  lemma EqLengthFirst(a: FfiByteSlice, b: FfiByteSlice)
    requires Readable(a) && Readable(b)
    requires a.dataLen != b.dataLen
    ensures !Eq(a, b)
  {
  }

  /** Equality is equality of the viewed bytes. */
  lemma EqIffSameBytes(a: FfiByteSlice, b: FfiByteSlice)
    requires Readable(a) && Readable(b)
    ensures Eq(a, b) <==> AsSlice(a) == AsSlice(b)
  {
  }

  /** `cmp` returns `Equal` exactly when `eq` holds, as `Ord` requires of `Eq`. */
  lemma CompareEqualIffEq(a: FfiByteSlice, b: FfiByteSlice)
    requires Readable(a) && Readable(b)
    ensures Compare(a, b) == Equal <==> Eq(a, b)
  {
    Lex.LexCmpEqualIff(AsSlice(a), AsSlice(b));
  }

  /** Swapping the arguments reverses the comparison. */
  lemma CompareAntisymmetric(a: FfiByteSlice, b: FfiByteSlice)
    requires Readable(a) && Readable(b)
    ensures Compare(b, a) == Reverse(Compare(a, b))
  {
    Lex.LexCmpAntisymmetric(AsSlice(a), AsSlice(b));
  }

  /** The comparison is transitive, for `Less` and for `Equal`. */
  lemma CompareTransitive(a: FfiByteSlice, b: FfiByteSlice, c: FfiByteSlice)
    requires Readable(a) && Readable(b) && Readable(c)
    ensures Compare(a, b) == Less && Compare(b, c) == Less ==> Compare(a, c) == Less
    ensures Compare(a, b) == Equal && Compare(b, c) == Equal ==> Compare(a, c) == Equal
  {
    if Compare(a, b) == Less && Compare(b, c) == Less {
      Lex.LexCmpTransitive(AsSlice(a), AsSlice(b), AsSlice(c));
    }
    Lex.LexCmpEqualIff(AsSlice(a), AsSlice(b));
    Lex.LexCmpEqualIff(AsSlice(b), AsSlice(c));
    Lex.LexCmpEqualIff(AsSlice(a), AsSlice(c));
  }

  /** The first differing byte decides, and a proper prefix is less. */
  lemma CompareFirstDifference(a: FfiByteSlice, b: FfiByteSlice, k: nat)
    requires Readable(a) && Readable(b)
    ensures k < a.dataLen && k < b.dataLen && AsSlice(a)[..k] == AsSlice(b)[..k] && AsSlice(a)[k] != AsSlice(b)[k]
            ==> Compare(a, b) == if AsSlice(a)[k] < AsSlice(b)[k] then Less else Greater
    ensures a.dataLen < b.dataLen && AsSlice(a) == AsSlice(b)[..a.dataLen] ==> Compare(a, b) == Less
  {
    var x, y := AsSlice(a), AsSlice(b);
    if k < |x| && k < |y| && x[..k] == y[..k] && x[k] != y[k] {
      Lex.LexCmpDecidedAt(x, y, k);
    }
    if |x| < |y| && x == y[..|x|] {
      Lex.LexCmpProperPrefix(x, y);
    }
  }

  /** The `make_slices` test: `[1,2,3,4]` equals `[1,2,3,4]` and is below `[1,2,3,5]`. */
  lemma MakeSlices()
    ensures Eq(New([1, 2, 3, 4]), New([1, 2, 3, 4]))
    ensures !Eq(New([1, 2, 3, 4]), New([1, 2, 3, 5]))
    ensures Compare(New([1, 2, 3, 4]), New([1, 2, 3, 5])) == Less
  {
    var x: seq<byte>, y: seq<byte> := [1, 2, 3, 4], [1, 2, 3, 5];
    assert x[3] != y[3];
    assert x[..3] == y[..3];
    Lex.LexCmpDecidedAt(x, y, 3);
  }
}
