/**
  Well-formed UTF-8, written from the byte-sequence syntax in section 4 of
  RFC 3629, and the UTF-8 encoding of text: the bytes behind a Rust `&str`.
*/
module Utf8 {
  import opened Bytes
  import opened Cmp
  import Lex

  /** UTF8-tail = %x80-BF */
  predicate Tail(b: byte) {
    0x80 <= b <= 0xBF
  }

  /** UTF8-1 = %x00-7F */
  predicate Char1(s: seq<byte>) {
    |s| == 1 && s[0] <= 0x7F
  }

  /** UTF8-2 = %xC2-DF UTF8-tail */
  predicate Char2(s: seq<byte>) {
    |s| == 2 && 0xC2 <= s[0] <= 0xDF && Tail(s[1])
  }

  /**
    UTF8-3 = %xE0 %xA0-BF UTF8-tail / %xE1-EC 2( UTF8-tail ) /
             %xED %x80-9F UTF8-tail / %xEE-EF 2( UTF8-tail )
  */
  predicate Char3(s: seq<byte>) {
    && |s| == 3
    && Tail(s[2])
    && (|| (s[0] == 0xE0 && 0xA0 <= s[1] <= 0xBF)
        || (0xE1 <= s[0] <= 0xEC && Tail(s[1]))
        || (s[0] == 0xED && 0x80 <= s[1] <= 0x9F)
        || (0xEE <= s[0] <= 0xEF && Tail(s[1])))
  }

  /**
    UTF8-4 = %xF0 %x90-BF 2( UTF8-tail ) / %xF1-F3 3( UTF8-tail ) /
             %xF4 %x80-8F 2( UTF8-tail )
  */
  predicate Char4(s: seq<byte>) {
    && |s| == 4
    && Tail(s[2]) && Tail(s[3])
    && (|| (s[0] == 0xF0 && 0x90 <= s[1] <= 0xBF)
        || (0xF1 <= s[0] <= 0xF3 && Tail(s[1]))
        || (s[0] == 0xF4 && 0x80 <= s[1] <= 0x8F))
  }

  /** UTF8-char = UTF8-1 / UTF8-2 / UTF8-3 / UTF8-4 */
  predicate ValidChar(s: seq<byte>) {
    Char1(s) || Char2(s) || Char3(s) || Char4(s)
  }

  /** UTF8-octets = *( UTF8-char ) */
  predicate Valid(s: seq<byte>)
    decreases |s|
  {
    || s == []
    || (|s| >= 1 && Char1(s[..1]) && Valid(s[1..]))
    || (|s| >= 2 && Char2(s[..2]) && Valid(s[2..]))
    || (|s| >= 3 && Char3(s[..3]) && Valid(s[3..]))
    || (|s| >= 4 && Char4(s[..4]) && Valid(s[4..]))
  }

  /** One well-formed character followed by well-formed text is well formed. */
  lemma ValidPrepend(c: seq<byte>, rest: seq<byte>)
    requires ValidChar(c) && Valid(rest)
    ensures Valid(c + rest)
  {
    var s := c + rest;
    assert s[..|c|] == c && s[|c|..] == rest;
  }

  /** The UTF-8 encoding of one Unicode scalar value (RFC 3629 section 3). */
  function EncodeChar(c: char): (r: seq<byte>)
    ensures ValidChar(r)
  {
    var n := c as int;
    if n < 0x80 then
      [n as byte]
    else if n < 0x800 then
      [(0xC0 + n / 0x40) as byte, (0x80 + n % 0x40) as byte]
    else if n < 0x1_0000 then
      Encode3(n)
    else
      Encode4(n)
  }

  /** Three bytes for `U+0800` to `U+FFFF`, surrogates excluded. */
  function Encode3(n: int): (r: seq<byte>)
    requires 0x800 <= n < 0x1_0000 && !(0xD800 <= n < 0xE000)
    ensures Char3(r)
  {
    var b0, b1, b2 := 0xE0 + n / 0x1000, 0x80 + n / 0x40 % 0x40, 0x80 + n % 0x40;
    assert b0 == 0xE0 ==> 0xA0 <= b1;
    assert b0 == 0xED ==> b1 <= 0x9F;
    [b0 as byte, b1 as byte, b2 as byte]
  }

  /** Four bytes for `U+10000` to `U+10FFFF`. */
  function Encode4(n: int): (r: seq<byte>)
    requires 0x1_0000 <= n < 0x11_0000
    ensures Char4(r)
  {
    var b0, b1 := 0xF0 + n / 0x4_0000, 0x80 + n / 0x1000 % 0x40;
    var b2, b3 := 0x80 + n / 0x40 % 0x40, 0x80 + n % 0x40;
    assert b0 == 0xF0 ==> 0x90 <= b1;
    assert b0 == 0xF4 ==> b1 <= 0x8F;
    [b0 as byte, b1 as byte, b2 as byte, b3 as byte]
  }

  /** The UTF-8 encoding of a text: its characters' encodings, in order. */
  function Encode(t: string): seq<byte> {
    if t == [] then [] else EncodeChar(t[0]) + Encode(t[1..])
  }

  /** The encoding of any text is well-formed UTF-8. */
  lemma {:induction false} EncodeValid(t: string)
    ensures Valid(Encode(t))
  {
    if t != [] {
      EncodeValid(t[1..]);
      ValidPrepend(EncodeChar(t[0]), Encode(t[1..]));
    }
  }

  /** Lexicographic comparison of texts by code point. */
  function CodePointCmp(a: string, b: string): Ordering
    decreases |a|
  {
    if a == [] then (if b == [] then Equal else Less)
    else if b == [] then Greater
    else if a[0] < b[0] then Less
    else if b[0] < a[0] then Greater
    else CodePointCmp(a[1..], b[1..])
  }

  /**
    The encodings of two characters first differ, inside both, at a byte that
    is smaller for the smaller character.
  */
  lemma EncodeCharOrdered(c: char, d: char) returns (k: nat)
    requires c < d
    ensures var x, y := EncodeChar(c), EncodeChar(d);
      k < |x| && k < |y| && x[..k] == y[..k] && x[k] < y[k]
  {
    var n, m := c as int, d as int;
    var x, y := EncodeChar(c), EncodeChar(d);
    if |x| < |y| {
      k := 0;
    } else if n < 0x80 {
      k := 0;
    } else if n < 0x800 {
      k := DigitsOrdered2(n, m);
    } else if n < 0x1_0000 {
      k := DigitsOrdered3(n, m);
    } else {
      k := DigitsOrdered4(n, m);
    }
  }

  /** Same-width encodings: the leading byte, then each continuation byte, in order. */
  lemma DigitsOrdered2(n: int, m: int) returns (k: nat)
    requires 0x80 <= n < m < 0x800
    ensures var x, y := EncodeChar(n as char), EncodeChar(m as char);
      k < 2 && |x| == |y| == 2 && x[..k] == y[..k] && x[k] < y[k]
  {
    if n / 0x40 < m / 0x40 { k := 0; } else { k := 1; }
  }

  lemma DigitsOrdered3(n: int, m: int) returns (k: nat)
    requires 0x800 <= n < m < 0x1_0000
    requires !(0xD800 <= n < 0xE000) && !(0xD800 <= m < 0xE000)
    ensures var x, y := EncodeChar(n as char), EncodeChar(m as char);
      k < 3 && |x| == |y| == 3 && x[..k] == y[..k] && x[k] < y[k]
  {
    var p, q := n / 0x40, m / 0x40;
    assert n / 0x1000 == p / 0x40 && m / 0x1000 == q / 0x40;
    if p / 0x40 < q / 0x40 {
      k := 0;
    } else if p % 0x40 < q % 0x40 {
      k := 1;
    } else {
      assert p == q;
      k := 2;
    }
  }

  lemma DigitsOrdered4(n: int, m: int) returns (k: nat)
    requires 0x1_0000 <= n < m < 0x11_0000
    ensures var x, y := EncodeChar(n as char), EncodeChar(m as char);
      k < 4 && |x| == |y| == 4 && x[..k] == y[..k] && x[k] < y[k]
  {
    var p, q := n / 0x40, m / 0x40;
    var p', q' := p / 0x40, q / 0x40;
    assert n / 0x1000 == p' && m / 0x1000 == q';
    assert n / 0x4_0000 == p' / 0x40 && m / 0x4_0000 == q' / 0x40;
    if p' / 0x40 < q' / 0x40 {
      k := 0;
    } else if p' % 0x40 < q' % 0x40 {
      k := 1;
    } else if p % 0x40 < q % 0x40 {
      assert p' == q';
      k := 2;
    } else {
      assert p' == q';
      assert p == q;
      k := 3;
    }
  }

  /** Distinct characters have distinct encodings. */
  lemma EncodeCharInjective(c: char, d: char)
    requires EncodeChar(c) == EncodeChar(d)
    ensures c == d
  {
    if c < d {
      var k := EncodeCharOrdered(c, d);
    } else if d < c {
      var k := EncodeCharOrdered(d, c);
    }
  }

  /** A shared prefix does not change the comparison. */
  lemma {:induction false} LexCmpSharedPrefix(x: seq<byte>, r: seq<byte>, s: seq<byte>)
    ensures Lex.LexCmp(x + r, x + s) == Lex.LexCmp(r, s)
    decreases |x|
  {
    if x == [] {
      assert x + r == r && x + s == s;
    } else {
      var a, b := x + r, x + s;
      assert a != [] && b != [] && a[0] == b[0];
      assert a[1..] == x[1..] + r && b[1..] == x[1..] + s;
      assert Lex.LexCmp(a, b) == Lex.LexCmp(a[1..], b[1..]);
      LexCmpSharedPrefix(x[1..], r, s);
    }
  }

  /** A difference inside both leading parts decides, whatever follows. */
  lemma LexCmpDecidedBefore(x: seq<byte>, r: seq<byte>, y: seq<byte>, s: seq<byte>, k: nat)
    requires k < |x| && k < |y| && x[..k] == y[..k] && x[k] < y[k]
    ensures Lex.LexCmp(x + r, y + s) == Less
  {
    assert (x + r)[..k] == x[..k] && (y + s)[..k] == y[..k];
    assert (x + r)[k] == x[k] && (y + s)[k] == y[k];
    Lex.LexCmpDecidedAt(x + r, y + s, k);
  }

  /**
    Comparing UTF-8 encodings byte by byte gives the code-point order of the
    texts (section 1 of RFC 3629), so byte order is text order.
  */
  lemma {:induction false} EncodePreservesOrder(a: string, b: string)
    ensures Lex.LexCmp(Encode(a), Encode(b)) == CodePointCmp(a, b)
    decreases |a|
  {
    if a == [] || b == [] {
    } else {
      var x, y := EncodeChar(a[0]), EncodeChar(b[0]);
      var r, s := Encode(a[1..]), Encode(b[1..]);
      if a[0] == b[0] {
        LexCmpSharedPrefix(x, r, s);
        EncodePreservesOrder(a[1..], b[1..]);
      } else if a[0] < b[0] {
        var k := EncodeCharOrdered(a[0], b[0]);
        LexCmpDecidedBefore(x, r, y, s, k);
      } else {
        var k := EncodeCharOrdered(b[0], a[0]);
        LexCmpDecidedBefore(y, s, x, r, k);
        Lex.LexCmpAntisymmetric(y + s, x + r);
      }
    }
  }
}
