/**
  Lexicographic comparison of byte slices, the order that `<[u8] as Ord>::cmp`
  implements and that both FFI slice types delegate to.
*/
module Lex {
  import opened Bytes
  import opened Cmp

  /** Compare two byte sequences position by position; a proper prefix is less. */
  function LexCmp(a: seq<byte>, b: seq<byte>): Ordering
    decreases |a|
  {
    if a == [] then (if b == [] then Equal else Less)
    else if b == [] then Greater
    else if a[0] < b[0] then Less
    else if b[0] < a[0] then Greater
    else LexCmp(a[1..], b[1..])
  }

  /** The length of the longest common prefix of `a` and `b`. */
  function CommonPrefixLen(a: seq<byte>, b: seq<byte>): (k: nat)
    ensures k <= |a| && k <= |b|
    ensures a[..k] == b[..k]
    ensures k < |a| && k < |b| ==> a[k] != b[k]
    decreases |a|
  {
    if a == [] || b == [] || a[0] != b[0] then 0
    else 1 + CommonPrefixLen(a[1..], b[1..])
  }

  /**
    The comparison as the standard library computes it for bytes: a `memcmp`
    of the common length, then the lengths.
  */
  function FirstDifferenceCmp(a: seq<byte>, b: seq<byte>): Ordering {
    var k := CommonPrefixLen(a, b);
    if k < |a| && k < |b| then (if a[k] < b[k] then Less else Greater)
    else if |a| < |b| then Less
    else if |a| == |b| then Equal
    else Greater
  }

  /**
    The first differing byte decides; when one sequence runs out first, the
    shorter one is less.
  */
  lemma {:induction false} LexCmpByFirstDifference(a: seq<byte>, b: seq<byte>)
    ensures LexCmp(a, b) == FirstDifferenceCmp(a, b)
    decreases |a|
  {
    if a == [] || b == [] {
      assert CommonPrefixLen(a, b) == 0;
    } else if a[0] != b[0] {
      assert CommonPrefixLen(a, b) == 0;
    } else {
      var a', b' := a[1..], b[1..];
      var k := CommonPrefixLen(a', b');
      assert CommonPrefixLen(a, b) == k + 1;
      if k < |a'| && k < |b'| {
        assert a[k + 1] == a'[k] && b[k + 1] == b'[k];
      }
      LexCmpByFirstDifference(a', b');
    }
  }

  /** Any position where equal prefixes end in differing bytes decides the order. */
  lemma {:induction false} LexCmpDecidedAt(a: seq<byte>, b: seq<byte>, k: nat)
    requires k < |a| && k < |b|
    requires a[..k] == b[..k] && a[k] != b[k]
    ensures LexCmp(a, b) == if a[k] < b[k] then Less else Greater
    decreases k
  {
    if k > 0 {
      assert a[0] == a[..k][0] == b[..k][0] == b[0];
      assert a[1..][..k - 1] == a[..k][1..] == b[..k][1..] == b[1..][..k - 1];
      LexCmpDecidedAt(a[1..], b[1..], k - 1);
    }
  }

  /** A proper prefix compares less than the longer sequence. */
  lemma {:induction false} LexCmpProperPrefix(a: seq<byte>, b: seq<byte>)
    requires |a| < |b| && a == b[..|a|]
    ensures LexCmp(a, b) == Less
    decreases |a|
  {
    if a != [] {
      assert a[0] == b[0];
      assert a[1..] == b[1..][..|a| - 1];
      LexCmpProperPrefix(a[1..], b[1..]);
    }
  }

  /** `Equal` exactly for equal sequences: the order is consistent with `==`. */
  lemma {:induction false} LexCmpEqualIff(a: seq<byte>, b: seq<byte>)
    ensures LexCmp(a, b) == Equal <==> a == b
    decreases |a|
  {
    if a != [] && b != [] && a[0] == b[0] {
      LexCmpEqualIff(a[1..], b[1..]);
      assert a == [a[0]] + a[1..] && b == [b[0]] + b[1..];
    }
  }

  /** Swapping the arguments reverses the result. */
  lemma {:induction false} LexCmpAntisymmetric(a: seq<byte>, b: seq<byte>)
    ensures LexCmp(b, a) == Reverse(LexCmp(a, b))
    decreases |a|
  {
    if a != [] && b != [] && a[0] == b[0] {
      LexCmpAntisymmetric(a[1..], b[1..]);
    }
  }

  /** `a < b` and `b < c` give `a < c`. */
  lemma {:induction false} LexCmpTransitive(a: seq<byte>, b: seq<byte>, c: seq<byte>)
    requires LexCmp(a, b) == Less && LexCmp(b, c) == Less
    ensures LexCmp(a, c) == Less
    decreases |a|
  {
    if a != [] && b != [] && c != [] && a[0] == b[0] && b[0] == c[0] {
      LexCmpTransitive(a[1..], b[1..], c[1..]);
    }
  }

  /** Lexicographic byte comparison is a total order consistent with equality. */
  lemma LexCmpTotalOrder()
    ensures TotalOrder(LexCmp)
  {
    forall a, b ensures LexCmp(b, a) == Reverse(LexCmp(a, b)) && (LexCmp(a, b) == Equal <==> a == b) {
      LexCmpAntisymmetric(a, b);
      LexCmpEqualIff(a, b);
    }
    forall a, b, c | LexCmp(a, b) == Less && LexCmp(b, c) == Less ensures LexCmp(a, c) == Less {
      LexCmpTransitive(a, b, c);
    }
    forall a, b, c | LexCmp(a, b) == Equal && LexCmp(b, c) == Equal ensures LexCmp(a, c) == Equal {
      LexCmpEqualIff(a, b);
      LexCmpEqualIff(b, c);
      LexCmpEqualIff(a, c);
    }
  }
}
