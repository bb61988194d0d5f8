/** The FNV-1a type tags: the schema compiler computes them with a loop in Python, the C++ library
    with a recursion over a NUL-terminated string. */
module Fnv {
  import opened Bytes

  const M: nat := 0x1_0000_0000
  const OFFSET: nat := 2166136261
  const PRIME: nat := 16777619

  type Tag = t: nat | t < 0x1_0000_0000

  function Two(w: nat): (r: nat)
    ensures r > 0
  {
    if w == 0 then 1 else 2 * Two(w - 1)
  }

  /** Exclusive or of the low `w` bits. */
  function Xor(a: nat, b: nat, w: nat): (r: nat)
    ensures r < Two(w)
  {
    if w == 0 then 0 else 2 * Xor(a / 2, b / 2, w - 1) + (if a % 2 != b % 2 then 1 else 0)
  }

  /** `(h ^ b) * prime` modulo 2^32: the operand `b` has eight bits, so it flips bits of the low
      byte only. Python masks an unbounded product, C++ lets `uint32_t` wrap around. */
  function Step(h: Tag, b: byte): Tag {
    ((h - h % 256 + LowByte(h, b)) * PRIME) % M
  }

  function LowByte(h: Tag, b: byte): (r: nat)
    ensures r < 256
  {
    assert Two(8) == 256 by {
      assert Two(4) == 16;
    }
    Xor(h % 256, b, 8)
  }

  function HashFrom(h: Tag, s: seq<byte>): Tag
    decreases s
  {
    if s == [] then h else HashFrom(Step(h, s[0]), s[1..])
  }

  /** The type tag of a name. */
  function Hash(name: seq<byte>): Tag {
    HashFrom(OFFSET, name)
  }

  // -- what a tag is ---------------------------------------------------------------------

  /** The bit of weight 2^k. */
  function Bit(n: nat, k: nat): bool {
    if k == 0 then n % 2 == 1 else Bit(n / 2, k - 1)
  }

  lemma {:induction false} NoBits(k: nat)
    ensures !Bit(0, k)
  {
    if k > 0 { NoBits(k - 1); }
  }

  lemma {:induction false} XorBits(a: nat, b: nat, w: nat, k: nat)
    requires k < w
    ensures Bit(Xor(a, b, w), k) <==> Bit(a, k) != Bit(b, k)
  {
    if k > 0 { XorBits(a / 2, b / 2, w - 1, k - 1); }
  }

  /** The low bits of a number and the others. */
  lemma {:induction false} SplitBits(q: nat, r: nat, w: nat, k: nat)
    requires r < Two(w)
    ensures Two(w) * q + r >= 0
    ensures Bit(Two(w) * q + r, k) <==> if k < w then Bit(r, k) else Bit(q, k - w)
    decreases w
  {
    if w > 0 {
      var n := Two(w) * q + r;
      assert n == 2 * (Two(w - 1) * q) + r by { assert Two(w) * q == 2 * (Two(w - 1) * q); }
      assert n / 2 == Two(w - 1) * q + r / 2 && n % 2 == r % 2;
      if k > 0 { SplitBits(q, r / 2, w - 1, k - 1); }
    }
  }

  lemma TwoEight()
    ensures Two(8) == 256
  {
    assert Two(4) == 16;
  }

  lemma StepBits(h: Tag, b: byte, k: nat)
    ensures Bit(h - h % 256 + LowByte(h, b), k) <==> Bit(h, k) != Bit(b, k)
  {
    hide Bit, Xor, Two;
    var q, r := h / 256, h % 256;
    TwoEight();
    SplitBits(q, r, 8, k);
    SplitBits(q, LowByte(h, b), 8, k);
    SplitBits(0, b, 8, k);
    assert h == 256 * q + r;
    if k < 8 { XorBits(r, b, 8, k); } else { NoBits(k - 8); }
  }

  /** The tag of the empty name, and how each further character changes it: exclusive or, then a
      product modulo 2^32 (the FNV-1a recurrence). */
  lemma TagIs(name: seq<byte>, b: byte) returns (x: Tag)
    ensures Hash([]) == 2166136261
    ensures forall k :: Bit(x, k) <==> Bit(Hash(name), k) != Bit(b, k)
    ensures Hash(name + [b]) == (x * 16777619) % 0x1_0000_0000
  {
    var h := Hash(name);
    x := h - h % 256 + LowByte(h, b);
    forall k
      ensures Bit(x, k) <==> Bit(h, k) != Bit(b, k)
    {
      StepBits(h, b, k);
    }
    HashFromSnoc(OFFSET, name, b);
  }

  // -- the C++ recursion ---------------------------------------------------------------

  /** `arcal::fnv1a32` on the memory a `const char*` points to. */
  function HashCString(memory: seq<byte>, h: Tag): Tag
    requires 0 in memory
    decreases memory
  {
    if memory[0] == 0 then h else HashCString(memory[1..], Step(h, memory[0]))
  }

  /** On a name without NUL the recursion agrees with the loop, whatever follows in memory. */
  lemma {:induction false} CStringAgrees(name: seq<byte>, rest: seq<byte>, h: Tag)
    requires 0 !in name
    ensures (name + [0] + rest)[|name|] == 0
    ensures HashCString(name + [0] + rest, h) == HashFrom(h, name)
    decreases name
  {
    hide Step;
    var memory := name + [0] + rest;
    assert memory[|name|] == 0;
    if name != [] {
      assert memory[0] == name[0] && memory[1..] == name[1..] + [0] + rest;
      CStringAgrees(name[1..], rest, Step(h, name[0]));
    }
  }

  // -- the Python loop -------------------------------------------------------------------

  lemma {:induction false} HashFromSnoc(h: Tag, s: seq<byte>, b: byte)
    ensures HashFrom(h, s + [b]) == Step(HashFrom(h, s), b)
    decreases s
  {
    hide Step;
    if s == [] {
      assert s + [b] == [b] && [b][1..] == [];
    } else {
      assert (s + [b])[0] == s[0] && (s + [b])[1..] == s[1..] + [b];
      HashFromSnoc(Step(h, s[0]), s[1..], b);
    }
  }

  method Fnv1a32(name: seq<byte>) returns (tag: Tag)
    ensures tag == Hash(name)
  {
    hide Step;
    tag := OFFSET;
    for i := 0 to |name|
      invariant tag == Hash(name[..i])
    {
      assert name[..i + 1] == name[..i] + [name[i]];
      HashFromSnoc(OFFSET, name[..i], name[i]);
      tag := Step(tag, name[i]);
    }
    assert name[..|name|] == name;
  }

  // -- collisions ----------------------------------------------------------------------------

  lemma {:induction false} XorInjective(a: nat, b: nat, c: nat, w: nat)
    requires a < Two(w) && b < Two(w) && Xor(a, c, w) == Xor(b, c, w)
    ensures a == b
  {
    if w > 0 {
      XorInjective(a / 2, b / 2, c / 2, w - 1);
    }
  }

  lemma {:induction false} XorSymmetric(a: nat, b: nat, w: nat)
    ensures Xor(a, b, w) == Xor(b, a, w)
  {
    if w > 0 {
      XorSymmetric(a / 2, b / 2, w - 1);
    }
  }

  lemma SameResidue(y: int, x: Tag, t: int)
    requires y == x + t * 0x1_0000_0000
    ensures y % 0x1_0000_0000 == x
  {
  }

  /** Multiplication by the odd prime can be undone modulo 2^32. */
  lemma PrimeCancels(x: Tag, r: Tag)
    requires r == (x * 16777619) % 0x1_0000_0000
    ensures (r * 899433627) % 0x1_0000_0000 == x
  {
    var k := x * 16777619 / 0x1_0000_0000;
    assert x * 16777619 == k * 0x1_0000_0000 + r;
    assert 16777619 * 899433627 == 1 + 3513497 * 0x1_0000_0000;
    SameResidue(r * 899433627, x, 3513497 * x - k * 899433627);
  }

  lemma StepInjective(g: Tag, h: Tag, a: byte, b: byte)
    requires Step(g, a) == Step(h, b)
    ensures g == h ==> a == b
    ensures a == b ==> g == h
  {
    hide Xor;
    var x: Tag, y: Tag := g - g % 256 + LowByte(g, a), h - h % 256 + LowByte(h, b);
    PrimeCancels(x, Step(g, a));
    PrimeCancels(y, Step(h, b));
    assert x == y;
    SplitLowByte(g, LowByte(g, a));
    SplitLowByte(h, LowByte(h, b));
    assert Two(8) == 256 by { assert Two(4) == 16; }
    if a == b {
      XorInjective(g % 256, h % 256, a, 8);
    }
    if g == h {
      XorSymmetric(g % 256, a, 8);
      XorSymmetric(g % 256, b, 8);
      XorInjective(a, b, g % 256, 8);
    }
  }

  lemma SplitLowByte(h: Tag, low: nat)
    requires low < 256
    ensures (h - h % 256 + low) % 256 == low && (h - h % 256 + low) / 256 == h / 256
  {
  }

  lemma {:induction false} SameTailKeepsApart(g: Tag, h: Tag, s: seq<byte>)
    requires g != h
    ensures HashFrom(g, s) != HashFrom(h, s)
    decreases s
  {
    hide Step;
    if s != [] {
      if Step(g, s[0]) == Step(h, s[0]) {
        StepInjective(g, h, s[0], s[0]);
      }
      SameTailKeepsApart(Step(g, s[0]), Step(h, s[0]), s[1..]);
    }
  }

  /** Names that differ in exactly one byte never share a tag. */
  lemma {:induction false} OneByteApart(h: Tag, before: seq<byte>, a: byte, b: byte, after: seq<byte>)
    requires a != b
    ensures HashFrom(h, before + [a] + after) != HashFrom(h, before + [b] + after)
    decreases before
  {
    hide Step;
    var s, t := before + [a] + after, before + [b] + after;
    if before == [] {
      assert s[0] == a && s[1..] == after && t[0] == b && t[1..] == after;
      if Step(h, a) == Step(h, b) {
        StepInjective(h, h, a, b);
      }
      SameTailKeepsApart(Step(h, a), Step(h, b), after);
    } else {
      assert s[0] == before[0] && s[1..] == before[1..] + [a] + after;
      assert t[0] == before[0] && t[1..] == before[1..] + [b] + after;
      OneByteApart(Step(h, before[0]), before[1..], a, b, after);
    }
  }
}
