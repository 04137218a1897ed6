/**
  `FfiBuffer`: a borrowed writable byte view (src/buffer.rs). The pointer is
  null or the address of a caller-owned byte array; the view is the first
  `dataLen` bytes of that array, and writes through the view land in it.
*/
module FfiBuffers {
  import opened Bytes
  import opened Cmp
  import Lex
  import HexDebug
  import Native

  /** The `data` field: a null pointer, or the start of a caller-owned array. */
  datatype Ptr = Null | Addr(mem: array<byte>)

  /** The two public fields. Nothing ties `dataLen` to the pointer. */
  datatype FfiBuffer = FfiBuffer(data: Ptr, dataLen: nat)

  /** A Rust `&mut [u8]`: the first `len` bytes of `mem`. */
  datatype MutSlice = MutSlice(mem: array<byte>, len: nat)

  /** The memory a buffer's view reads. */
  ghost function Footprint(b: FfiBuffer): set<object> {
    if b.data.Null? then {} else {b.data.mem}
  }

  /** The safety promise behind `from_raw_parts`: a non-null pointer covers `dataLen` bytes. */
  predicate Readable(b: FfiBuffer) {
    b.data.Addr? ==> b.dataLen <= b.data.mem.Length
  }

  /**
    The canonical-empty invariant: a null pointer comes with length 0. `new`
    and `empty` establish it, but the public fields can break it.
  */
  predicate WellFormed(b: FfiBuffer) {
    b.data.Null? ==> b.dataLen == 0
  }

  /** `new`: point at the slice's storage and record its length. */
  function New(s: array<byte>): (b: FfiBuffer)
    ensures Readable(b) && WellFormed(b)
    ensures b.data.Addr? && b.data.mem == s && b.dataLen == s.Length
  {
    FfiBuffer(Addr(s), s.Length)
  }

  /** `empty`: a null pointer and length 0. */
  function Empty(): (b: FfiBuffer)
    ensures Readable(b) && WellFormed(b)
    ensures b.data.Null? && b.dataLen == 0
  {
    FfiBuffer(Null, 0)
  }

  /** `From<&mut [u8]>`: the same value as `new`. */
  function From(s: array<byte>): (b: FfiBuffer)
    ensures b == New(s)
  {
    New(s)
  }

  /** `as_slice`: nothing for a null pointer, otherwise the `dataLen` bytes at it. */
  function AsSlice(b: FfiBuffer): (r: seq<byte>)
    requires Readable(b)
    reads Footprint(b)
    ensures b.data.Null? ==> r == []
    ensures b.data.Addr? ==> |r| == b.dataLen && forall i :: 0 <= i < |r| ==> r[i] == b.data.mem[i]
    ensures WellFormed(b) ==> |r| == b.dataLen
  {
    if b.data.Null? then [] else b.data.mem[..b.dataLen]
  }

  /** The bytes a mutable view covers. */
  function View(v: MutSlice): (r: seq<byte>)
    requires v.len <= v.mem.Length
    reads v.mem
    ensures |r| == v.len
  {
    v.mem[..v.len]
  }

  /**
    `as_mut_slice`: `None` for a null pointer, otherwise a writable view of the
    `dataLen` bytes at it. A zero-length buffer made by `new` gives `Some`.
  */
  function AsMutSlice(b: FfiBuffer): (r: Native.Option<MutSlice>)
    ensures r.None? <==> b.data.Null?
    ensures r.Some? ==> r.value.mem == b.data.mem && r.value.len == b.dataLen
  {
    if b.data.Null? then Native.None else Native.Some(MutSlice(b.data.mem, b.dataLen))
  }

  /** `view[i] = x` on a mutable view: only byte `i` of the storage changes. */
  method Store(v: MutSlice, i: nat, x: byte)
    requires v.len <= v.mem.Length && i < v.len
    modifies v.mem
    ensures v.mem[..] == old(v.mem[..])[i := x]
    ensures View(v) == old(View(v))[i := x]
  {
    v.mem[i] := x;
  }

  /**
    A write of byte `i` through the view `as_mut_slice` hands out: afterwards
    `as_slice` sees the new byte at `i` and the old bytes everywhere else.
  */
  method WriteThrough(b: FfiBuffer, i: nat, x: byte)
    requires Readable(b) && b.data.Addr? && i < b.dataLen
    modifies Footprint(b)
    ensures AsSlice(b) == old(AsSlice(b))[i := x]
  {
    var v := AsMutSlice(b).value;
    Store(v, i, x);
  }

  /** `PartialEq::eq`: lengths first, then the bytes `as_slice` returns. */
  function Eq(a: FfiBuffer, b: FfiBuffer): (r: bool)
    requires Readable(a) && Readable(b)
    reads Footprint(a), Footprint(b)
  {
    if a.dataLen != b.dataLen then false
    else AsSlice(a) == AsSlice(b)
  }

  /** `Ord::cmp`: the lexicographic order of the two `as_slice` results. */
  function Compare(a: FfiBuffer, b: FfiBuffer): Ordering
    requires Readable(a) && Readable(b)
    reads Footprint(a), Footprint(b)
  {
    Lex.LexCmp(AsSlice(a), AsSlice(b))
  }

  /** `PartialOrd::partial_cmp`: always defined, and always `cmp`. */
  function PartialCompare(a: FfiBuffer, b: FfiBuffer): (r: Native.Option<Ordering>)
    requires Readable(a) && Readable(b)
    reads Footprint(a), Footprint(b)
    ensures r == Native.Some(Compare(a, b))
  {
    Native.Some(Compare(a, b))
  }

  /** `Debug::fmt`: the bracketed hex list of the `as_slice` bytes. */
  method Debug(b: FfiBuffer) returns (out: string)
    requires Readable(b)
    ensures out == HexDebug.Rendered(AsSlice(b))
  {
    var bytes := AsSlice(b);
    out := HexDebug.Format(bytes);
  }

  /** `new(s)` records the length of `s`, and `as_slice` gives back exactly `s`. */
  lemma NewAsSlice(s: array<byte>)
    ensures New(s).dataLen == s.Length && AsSlice(New(s)) == s[..]
  {
  }

  /** `empty()` is null with length 0, and its `as_slice` is empty. */
  lemma EmptyAsSlice()
    ensures AsSlice(Empty()) == []
  {
  }

  /** `as_mut_slice`: `None` for `empty()`; for `new(s)` a view of exactly `s`. */
  lemma AsMutSliceOfNewAndEmpty(s: array<byte>)
    ensures AsMutSlice(Empty()).None?
    ensures AsMutSlice(New(s)).Some? && View(AsMutSlice(New(s)).value) == s[..]
  {
  }

  /** A view from `as_mut_slice` covers the same bytes `as_slice` returns. */
  lemma AsMutSliceViewsAsSlice(b: FfiBuffer)
    requires Readable(b) && AsMutSlice(b).Some?
    ensures AsMutSlice(b).value.len <= AsMutSlice(b).value.mem.Length
    ensures View(AsMutSlice(b).value) == AsSlice(b)
  {
  }

  /** Different lengths are never equal, whatever the bytes. */
  lemma EqLengthFirst(a: FfiBuffer, b: FfiBuffer)
    requires Readable(a) && Readable(b)
    requires a.dataLen != b.dataLen
    ensures !Eq(a, b)
  {
  }

  /** For well-formed buffers, equality is equality of the viewed bytes. */
  lemma EqIffSameBytes(a: FfiBuffer, b: FfiBuffer)
    requires Readable(a) && Readable(b) && WellFormed(a) && WellFormed(b)
    ensures Eq(a, b) <==> AsSlice(a) == AsSlice(b)
  {
  }

  /** For well-formed buffers, `cmp` returns `Equal` exactly when `eq` holds. */
  lemma CompareEqualIffEq(a: FfiBuffer, b: FfiBuffer)
    requires Readable(a) && Readable(b) && WellFormed(a) && WellFormed(b)
    ensures Compare(a, b) == Equal <==> Eq(a, b)
  {
    Lex.LexCmpEqualIff(AsSlice(a), AsSlice(b));
  }

  /**
    Without the invariant `eq` and `cmp` disagree: a null buffer claiming 3
    bytes views nothing, so it compares `Equal` to `empty()` but is not `eq`.
  */
  lemma EqAndCompareDisagreeWhenIllFormed()
    ensures var a := FfiBuffer(Null, 3);
      Readable(a) && !WellFormed(a) && Compare(a, Empty()) == Equal && !Eq(a, Empty())
  {
  }

  /** Swapping the arguments reverses the comparison. */
  lemma CompareAntisymmetric(a: FfiBuffer, b: FfiBuffer)
    requires Readable(a) && Readable(b)
    ensures Compare(b, a) == Reverse(Compare(a, b))
  {
    Lex.LexCmpAntisymmetric(AsSlice(a), AsSlice(b));
  }

  /** The comparison is transitive, for `Less` and for `Equal`. */
  lemma CompareTransitive(a: FfiBuffer, b: FfiBuffer, c: FfiBuffer)
    requires Readable(a) && Readable(b) && Readable(c)
    ensures Compare(a, b) == Less && Compare(b, c) == Less ==> Compare(a, c) == Less
    ensures Compare(a, b) == Equal && Compare(b, c) == Equal ==> Compare(a, c) == Equal
  {
    if Compare(a, b) == Less && Compare(b, c) == Less {
      Lex.LexCmpTransitive(AsSlice(a), AsSlice(b), AsSlice(c));
    }
    Lex.LexCmpEqualIff(AsSlice(a), AsSlice(b));
    Lex.LexCmpEqualIff(AsSlice(b), AsSlice(c));
    Lex.LexCmpEqualIff(AsSlice(a), AsSlice(c));
  }

  /**
    The `make_buffers` test: two buffers over `[1,2,3,4]` are equal, one over
    `[1,2,3,5]` is different and greater, and `as_mut_slice` of the first is
    `Some` of `[1,2,3,4]`.
  */
  lemma MakeBuffers(d1: array<byte>, d2: array<byte>, d3: array<byte>)
    requires d1[..] == [1, 2, 3, 4] && d2[..] == [1, 2, 3, 4] && d3[..] == [1, 2, 3, 5]
    ensures Eq(New(d1), New(d2))
    ensures !Eq(New(d1), New(d3))
    ensures Compare(New(d1), New(d3)) == Less
    ensures AsMutSlice(New(d1)).Some? && View(AsMutSlice(New(d1)).value) == [1, 2, 3, 4]
  {
    var x, y := d1[..], d3[..];
    assert AsSlice(New(d1)) == x && AsSlice(New(d3)) == y;
    assert x[3] != y[3];
    assert x[..3] == y[..3];
    Lex.LexCmpDecidedAt(x, y, 3);
  }
}
