/**
  The `Debug` rendering shared by `FfiBuffer` and `FfiByteSlice`: the bytes as
  a bracketed, comma-separated list of `0x`-prefixed two-digit lowercase hex
  numbers, `[ 0xab, 0x01 ]`, or `[ ]` when there are none.
*/
module HexDebug {
  import opened Bytes

  /** A lowercase hexadecimal digit. */
  predicate IsHexDigit(c: char) {
    '0' <= c <= '9' || 'a' <= c <= 'f'
  }

  /** The lowercase hexadecimal digit for `d`. */
  function HexDigit(d: int): (c: char)
    requires 0 <= d < 16
    ensures IsHexDigit(c)
  {
    if d < 10 then ('0' as int + d) as char else ('a' as int + d - 10) as char
  }

  /** The value of a hexadecimal digit: the inverse of `HexDigit`. */
  function DigitValue(c: char): int {
    if '0' <= c <= '9' then c as int - '0' as int
    else if 'a' <= c <= 'f' then c as int - 'a' as int + 10
    else -1
  }

  /** The `{:02x}` rendering of one byte, prefixed with `0x`. */
  function HexByte(b: byte): (r: string)
    ensures |r| == 4 && r[..2] == "0x"
    ensures IsHexDigit(r[2]) && IsHexDigit(r[3])
    ensures 16 * DigitValue(r[2]) + DigitValue(r[3]) == b as int
  {
    var n := b as int;
    ['0', 'x', HexDigit(n / 16), HexDigit(n % 16)]
  }

  /** Two bytes with the same rendering are the same byte. */
  lemma HexByteInjective(a: byte, b: byte)
    requires HexByte(a) == HexByte(b)
    ensures a == b
  {
    assert a as int == 16 * DigitValue(HexByte(a)[2]) + DigitValue(HexByte(a)[3]);
  }

  /** The byte renderings joined by `", "` (the list must not be empty). */
  function Join(s: seq<byte>): string
    requires |s| > 0
  {
    if |s| == 1 then HexByte(s[0]) else HexByte(s[0]) + ", " + Join(s[1..])
  }

  /** The reference rendering: `[ ]`, or `[ ` then the joined bytes then ` ]`. */
  function Rendered(s: seq<byte>): string {
    if s == [] then "[ ]" else "[ " + Join(s) + " ]"
  }

  /** Each byte's rendering followed by `", "`: what the loop has written so far. */
  function Terminated(s: seq<byte>): string {
    if s == [] then "" else HexByte(s[0]) + ", " + Terminated(s[1..])
  }

  lemma {:induction false} TerminatedSnoc(s: seq<byte>, x: byte)
    ensures Terminated(s + [x]) == Terminated(s) + HexByte(x) + ", "
    decreases |s|
  {
    if s == [] {
      assert ([] + [x])[1..] == [];
    } else {
      assert (s + [x])[1..] == s[1..] + [x];
      TerminatedSnoc(s[1..], x);
    }
  }

  lemma {:induction false} TerminatedThenLast(s: seq<byte>, x: byte)
    ensures Terminated(s) + HexByte(x) == Join(s + [x])
    decreases |s|
  {
    if s == [] {
      assert [] + [x] == [x];
    } else {
      assert (s + [x])[1..] == s[1..] + [x];
      TerminatedThenLast(s[1..], x);
    }
  }

  /**
    The `Debug::fmt` loop: write `"[ "`; if there is a last byte, write every
    other byte as `0xhh, ` and the last as `0xhh `; then write `"]"`.
  */
  method Format(s: seq<byte>) returns (out: string)
    ensures out == Rendered(s)
  {
    out := "[ ";
    if |s| > 0 {
      var last, rest := s[|s| - 1], s[..|s| - 1];
      for i := 0 to |rest|
        invariant out == "[ " + Terminated(rest[..i])
      {
        assert rest[..i + 1] == rest[..i] + [rest[i]];
        TerminatedSnoc(rest[..i], rest[i]);
        out := out + HexByte(rest[i]) + ", ";
      }
      assert rest[..|rest|] == rest;
      assert rest + [last] == s;
      TerminatedThenLast(rest, last);
      ghost var joined := Terminated(rest) + HexByte(last);
      assert joined == Join(s);
      out := out + HexByte(last) + " ";
      assert out == "[ " + joined + " ";
    }
    out := out + "]";
    assert s != [] ==> out == "[ " + Join(s) + " " + "]";
    assert " " + "]" == " ]";
  }

  lemma {:induction false} JoinLength(s: seq<byte>)
    requires |s| > 0
    ensures |Join(s)| == 6 * |s| - 2
    decreases |s|
  {
    if |s| > 1 { JoinLength(s[1..]); }
  }

  lemma {:induction false} JoinAt(s: seq<byte>, k: nat)
    requires k < |s|
    ensures |Join(s)| == 6 * |s| - 2
    ensures Join(s)[6 * k .. 6 * k + 4] == HexByte(s[k])
    decreases |s|
  {
    JoinLength(s);
    if k > 0 {
      JoinAt(s[1..], k - 1);
      var tail := Join(s[1..]);
      assert Join(s) == HexByte(s[0]) + ", " + tail;
      assert Join(s)[6 * k .. 6 * k + 4] == tail[6 * (k - 1) .. 6 * (k - 1) + 4];
    }
  }

  /** A non-empty list renders in `6 n + 2` characters; the empty one as `[ ]`. */
  lemma RenderedLength(s: seq<byte>)
    ensures |Rendered(s)| == if s == [] then 3 else 6 * |s| + 2
  {
    if s != [] { JoinLength(s); }
  }

  /** Byte `k` is rendered at offset `2 + 6 k`. */
  lemma RenderedAt(s: seq<byte>, k: nat)
    requires k < |s|
    ensures |Rendered(s)| == 6 * |s| + 2
    ensures Rendered(s)[2 + 6 * k .. 6 + 6 * k] == HexByte(s[k])
  {
    JoinAt(s, k);
    assert Rendered(s)[2 + 6 * k .. 6 + 6 * k] == Join(s)[6 * k .. 6 * k + 4];
  }

  /** The rendering loses nothing: different byte lists render differently. */
  lemma RenderedInjective(a: seq<byte>, b: seq<byte>)
    requires Rendered(a) == Rendered(b)
    ensures a == b
  {
    RenderedLength(a);
    RenderedLength(b);
    if a != [] && b != [] {
      assert |a| == |b|;
      forall k | 0 <= k < |a| ensures a[k] == b[k] {
        RenderedAt(a, k);
        RenderedAt(b, k);
        HexByteInjective(a[k], b[k]);
      }
    }
  }

  /** `[0xAB, 0x01]` renders as `[ 0xab, 0x01 ]`. */
  lemma RenderedExample()
    ensures Rendered([0xAB, 0x01]) == "[ 0xab, 0x01 ]"
    ensures Rendered([]) == "[ ]"
  {
    assert HexByte(0xAB) == "0xab";
    assert HexByte(0x01) == "0x01";
    assert [0xAB, 0x01][1..] == [0x01 as byte];
  }
}
