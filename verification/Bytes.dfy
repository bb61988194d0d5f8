/** Bytes, big-endian numbers and alignment arithmetic. */
module Bytes {

  type byte = b: int | 0 <= b < 256

  /** 256^w: the number of values of a w-byte word. */
  function Span(w: nat): (r: nat)
    ensures r > 0
  {
    if w == 0 then 1 else 256 * Span(w - 1)
  }

  /** The low `w` bytes of `v`, most significant first. */
  function BigEndian(v: nat, w: nat): (s: seq<byte>)
    ensures |s| == w
  {
    if w == 0 then [] else BigEndian(v / 256, w - 1) + [v % 256]
  }

  /** The number a big-endian byte string denotes. */
  function Value(s: seq<byte>): (v: nat)
    ensures v < Span(|s|)
  {
    if s == [] then 0 else Value(s[..|s| - 1]) * 256 + s[|s| - 1]
  }

  lemma {:induction false} BigEndianValue(v: nat, w: nat)
    requires v < Span(w)
    ensures Value(BigEndian(v, w)) == v
  {
    if w > 0 {
      BigEndianValue(v / 256, w - 1);
      var s := BigEndian(v, w);
      assert s[..|s| - 1] == BigEndian(v / 256, w - 1);
    }
  }

  lemma {:induction false} ValueBigEndian(s: seq<byte>)
    ensures BigEndian(Value(s), |s|) == s
  {
    if s != [] {
      ValueBigEndian(s[..|s| - 1]);
      assert s == s[..|s| - 1] + [s[|s| - 1]];
    }
  }

  /** Appending one byte to a big-endian string shifts its value left by eight bits. */
  lemma ValueSnoc(s: seq<byte>, b: byte)
    ensures Value(s + [b]) == Value(s) * 256 + b
  {
    assert (s + [b])[..|s|] == s;
  }

  /** The natural sizes of the transfer syntax; all divide eight. */
  predicate NaturalSize(w: nat) {
    w == 1 || w == 2 || w == 4 || w == 8
  }

  /** Bytes to skip so that an offset `n` becomes a multiple of `a`. */
  function Pad(n: nat, a: nat): (p: nat)
    requires NaturalSize(a)
    ensures p < a && (n + p) % a == 0
  {
    if n % a == 0 then 0 else a - n % a
  }

  /** The remainder of a division is the only number below the divisor that leaves a multiple. */
  lemma RemainderByFour(n: nat, k: nat, r: nat)
    requires r < 4 && n == 4 * k + r
    ensures n % 4 == r
  {
    var d := k - n / 4;
    assert 4 * d == n % 4 - r;
    assert d == 0;
  }

  lemma RemainderByTwo(n: nat, k: nat, r: nat)
    requires r < 2 && n == 2 * k + r
    ensures n % 2 == r
  {
    var d := k - n / 2;
    assert 2 * d == n % 2 - r;
    assert d == 0;
  }

  lemma PadModEight(n: nat, m: nat, w: nat)
    requires NaturalSize(w)
    requires n % 8 == m % 8
    ensures Pad(n, w) == Pad(m, w)
  {
    var q, p, r := n / 8, m / 8, n % 8;
    assert n == 8 * q + r && m == 8 * p + r;
    RemainderByFour(n, 2 * q + r / 4, r % 4);
    RemainderByFour(m, 2 * p + r / 4, r % 4);
    RemainderByTwo(n, 4 * q + r / 2, r % 2);
    RemainderByTwo(m, 4 * p + r / 2, r % 2);
  }

  function Zeros(n: nat): (s: seq<byte>)
    ensures |s| == n
  {
    seq(n, _ => 0)
  }

  predicate IsAscii(s: string) {
    forall i :: 0 <= i < |s| ==> s[i] < '\U{0080}'
  }

  /** The bytes of a text without characters beyond ASCII. */
  function Ascii(s: string): (r: seq<byte>)
    requires IsAscii(s)
    ensures |r| == |s| && forall i :: 0 <= i < |s| ==> r[i] as char == s[i]
  {
    seq(|s|, i requires 0 <= i < |s| => s[i] as byte)
  }
}
