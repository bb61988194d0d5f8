/** Primitive values and their CDR transfer syntax (section 15.3 of OMG formal/2002-06-51):
    big-endian, each value aligned to its own size counted from the start of the buffer. */
module CdrPrimitives {
  import opened Results
  import opened Bytes
  import Uuid

  datatype Width = W1 | W2 | W4 | W8 {
    function Size(): (w: nat)
      ensures NaturalSize(w)
    {
      match this case W1 => 1 case W2 => 2 case W4 => 4 case W8 => 8
    }
  }

  /** The C++ value types an XSD primitive maps to; floating point travels as its bit pattern. */
  datatype PrimType =
    | PBool
    | PInt(width: Width, signed: bool)
    | PFloat(width: Width)
    | PString
    | PBytes
    | PUuid

  datatype PrimVal =
    | BoolV(b: bool)
    | NumV(n: int)
    | TextV(s: seq<byte>)
    | UuidV(o: Uuid.Octets)

  /** The number of lengths a 32-bit length word can carry. */
  const U32: nat := 0x1_0000_0000

  lemma SpanFour()
    ensures Span(4) == U32
  {
    assert Span(1) == 256 && Span(2) == 0x1_0000 && Span(3) == 0x100_0000;
  }

  predicate InRange(w: Width, signed: bool, n: int) {
    var span: int := Span(w.Size());
    if signed then -span <= 2 * n < span else 0 <= n < span
  }

  predicate PrimOk(p: PrimType, v: PrimVal) {
    match p
    case PBool => v.BoolV?
    case PInt(w, signed) => v.NumV? && InRange(w, signed, v.n)
    case PFloat(w) => v.NumV? && InRange(w, false, v.n)
    case PString => v.TextV?
    case PBytes => v.TextV?
    case PUuid => v.UuidV?
  }

  /** Lengths travel in 32 bits, and a string counts its terminator. */
  predicate PrimFits(v: PrimVal) {
    v.TextV? ==> |v.s| + 1 < U32
  }

  /** `static_cast` to the unsigned type of the same width: two's complement. */
  function ToUnsigned(n: int, w: nat): (u: nat)
    requires n >= 0 ==> n < Span(w)
    requires n < 0 ==> n + Span(w) >= 0
    ensures u < Span(w)
  {
    if n < 0 then n + Span(w) else n
  }

  /** `static_cast` from the unsigned type back to the signed one. */
  function ToSigned(u: nat, w: nat): int
    requires u < Span(w)
  {
    if 2 * u < Span(w) then u else u - Span(w)
  }

  // -- encode: what is appended to a buffer that already holds `n` bytes --------

  function EncodeWord(u: nat, w: nat, n: nat): (e: seq<byte>)
    requires NaturalSize(w)
    ensures |e| == Pad(n, w) + w
  {
    Zeros(Pad(n, w)) + BigEndian(u, w)
  }

  function EncodeLength(len: nat, n: nat): (e: seq<byte>)
    ensures |e| == Pad(n, 4) + 4
  {
    EncodeWord(len % U32, 4, n)
  }

  function EncodeText(s: seq<byte>, n: nat): seq<byte> {
    EncodeLength(|s| + 1, n) + s + [0]
  }

  function EncodePrim(p: PrimType, v: PrimVal, n: nat): seq<byte>
    requires PrimOk(p, v)
  {
    match p
    case PBool => [if v.b then 1 else 0]
    case PInt(w, _) => EncodeWord(ToUnsigned(v.n, w.Size()), w.Size(), n)
    case PFloat(w) => EncodeWord(v.n, w.Size(), n)
    case PString => EncodeText(v.s, n)
    case PBytes => EncodeLength(|v.s|, n) + v.s
    case PUuid => EncodeText(Uuid.ToText(v.o), n)
  }

  // -- decode: the value read at an offset, and the offset after it -------------

  function DecodeWord(buf: seq<byte>, off: nat, w: nat): (r: Result<(nat, nat)>)
    requires NaturalSize(w)
    ensures r.Ok? ==> r.value.0 < Span(w) && off + w <= r.value.1 <= |buf|
  {
    var at := off + Pad(off, w);
    if at + w > |buf| then Err(Underrun) else Ok((Value(buf[at..at + w]), at + w))
  }

  function DecodeText(buf: seq<byte>, off: nat): (r: Result<(seq<byte>, nat)>)
    ensures r.Ok? ==> off + 4 <= r.value.1 <= |buf|
  {
    var (len, at) :- DecodeWord(buf, off, 4);
    if len == 0 then Ok(([], at))
    else if at + len > |buf| then Err(Underrun)
    else Ok((buf[at..at + len - 1], at + len))
  }

  function DecodePrim(p: PrimType, buf: seq<byte>, off: nat): (r: Result<(PrimVal, nat)>)
    ensures r.Ok? ==> PrimOk(p, r.value.0) && off < r.value.1 <= |buf|
  {
    match p
    case PBool =>
      if off + 1 > |buf| then Err(Underrun) else Ok((BoolV(buf[off] != 0), off + 1))
    case PInt(w, signed) =>
      var (u, next) :- DecodeWord(buf, off, w.Size());
      Ok((NumV(if signed then ToSigned(u, w.Size()) else u), next))
    case PFloat(w) =>
      var (u, next) :- DecodeWord(buf, off, w.Size());
      Ok((NumV(u), next))
    case PString =>
      var (s, next) :- DecodeText(buf, off);
      Ok((TextV(s), next))
    case PBytes =>
      var (len, at) :- DecodeWord(buf, off, 4);
      if at + len > |buf| then Err(Underrun) else Ok((TextV(buf[at..at + len]), at + len))
    case PUuid =>
      var (s, next) :- DecodeText(buf, off);
      match Uuid.FromText(s)
      case None => Err(BadText)
      case Some(o) => Ok((UuidV(o), next))
  }

  // -- laws ---------------------------------------------------------------------

  /** `e` stands in `buf` at offset `off`. */
  ghost predicate At(buf: seq<byte>, off: nat, e: seq<byte>) {
    off + |e| <= |buf| && buf[off..off + |e|] == e
  }

  lemma AtSplit(buf: seq<byte>, off: nat, a: seq<byte>, b: seq<byte>)
    ensures At(buf, off, a + b) <==> At(buf, off, a) && At(buf, off + |a|, b)
  {
    if off + |a| + |b| <= |buf| {
      var whole := buf[off..off + |a| + |b|];
      assert whole[..|a|] == buf[off..off + |a|];
      assert whole[|a|..] == buf[off + |a|..off + |a| + |b|];
      if whole == a + b {
        assert whole[..|a|] == a && whole[|a|..] == b;
      }
      assert whole == whole[..|a|] + whole[|a|..];
    }
  }

  /** Both `align` functions land on the same offset: the encoder pads a buffer of `n` bytes
      to where the decoder's cursor moves from `n`. */
  lemma WordRoundTrip(buf: seq<byte>, off: nat, u: nat, w: nat)
    requires NaturalSize(w) && u < Span(w)
    requires At(buf, off, EncodeWord(u, w, off))
    ensures DecodeWord(buf, off, w) == Ok((u, off + |EncodeWord(u, w, off)|))
  {
    var pad, digits := Pad(off, w), BigEndian(u, w);
    assert At(buf, off, Zeros(pad) + digits);
    AtSplit(buf, off, Zeros(pad), digits);
    assert buf[off + pad..off + pad + w] == digits;
    BigEndianValue(u, w);
  }

  lemma TextRoundTrip(buf: seq<byte>, off: nat, s: seq<byte>)
    requires |s| + 1 < U32
    requires At(buf, off, EncodeText(s, off))
    ensures DecodeText(buf, off) == Ok((s, off + |EncodeText(s, off)|))
  {
    hide DecodeWord, EncodeWord, Value, BigEndian, Pad;
    var len := EncodeLength(|s| + 1, off);
    assert EncodeText(s, off) == len + (s + [0]);
    AtSplit(buf, off, len, s + [0]);
    AtSplit(buf, off + |len|, s, [0]);
    SpanFour();
    WordRoundTrip(buf, off, |s| + 1, 4);
  }

  lemma BytesRoundTrip(buf: seq<byte>, off: nat, s: seq<byte>)
    requires |s| + 1 < U32
    requires At(buf, off, EncodeLength(|s|, off) + s)
    ensures DecodePrim(PBytes, buf, off) == Ok((TextV(s), off + |EncodeLength(|s|, off) + s|))
  {
    hide DecodeWord, EncodeWord, Value, BigEndian, Pad;
    AtSplit(buf, off, EncodeLength(|s|, off), s);
    SpanFour();
    WordRoundTrip(buf, off, |s|, 4);
  }

  /** Every primitive that fits the length word is read back from wherever it was written. */
  lemma PrimRoundTrip(p: PrimType, v: PrimVal, buf: seq<byte>, off: nat)
    requires PrimOk(p, v) && PrimFits(v)
    requires At(buf, off, EncodePrim(p, v, off))
    ensures DecodePrim(p, buf, off) == Ok((v, off + |EncodePrim(p, v, off)|))
  {
    hide DecodeWord, EncodeWord, DecodeText, EncodeText;
    match p
    case PBool =>
      assert buf[off] == buf[off..off + 1][0];
    case PInt(w, _) =>
      WordRoundTrip(buf, off, ToUnsigned(v.n, w.Size()), w.Size());
    case PFloat(w) =>
      WordRoundTrip(buf, off, v.n, w.Size());
    case PString =>
      TextRoundTrip(buf, off, v.s);
    case PBytes =>
      BytesRoundTrip(buf, off, v.s);
    case PUuid =>
      Uuid.TextRoundTrip(v.o);
      TextRoundTrip(buf, off, Uuid.ToText(v.o));
  }

  /** A string survives exactly when its length and terminator fit the 32-bit length word;
      otherwise the reader returns as much of it as the truncated length says. */
  lemma TextRoundTripIff(buf: seq<byte>, off: nat, s: seq<byte>)
    requires At(buf, off, EncodeText(s, off))
    ensures DecodeText(buf, off).Ok?
    ensures |s| + 1 < U32 <==> DecodeText(buf, off).value.0 == s
    ensures var len := (|s| + 1) % U32; DecodeText(buf, off).value.0 == s[..if len == 0 then 0 else len - 1]
  {
    if |s| + 1 < U32 {
      TextRoundTrip(buf, off, s);
    } else {
      TruncatedRead(buf, off, s);
    }
  }

  lemma TruncatedRead(buf: seq<byte>, off: nat, s: seq<byte>)
    requires At(buf, off, EncodeText(s, off))
    ensures var len := (|s| + 1) % U32;
      DecodeText(buf, off).Ok? && DecodeText(buf, off).value.0 == s[..if len == 0 then 0 else len - 1]
  {
    hide DecodeWord, EncodeWord, Value, BigEndian, Pad;
    var head := EncodeLength(|s| + 1, off);
    var len, at := (|s| + 1) % U32, off + |head|;
    assert EncodeText(s, off) == head + (s + [0]);
    AtSplit(buf, off, head, s + [0]);
    AtSplit(buf, at, s, [0]);
    SpanFour();
    WordRoundTrip(buf, off, len, 4);
    if len > 0 { assert buf[at..at + len - 1] == buf[at..at + |s|][..len - 1]; }
  }

  /** `buf` and `buf'` agree on the bytes before `k`. */
  ghost predicate AgreeTo(buf: seq<byte>, buf': seq<byte>, k: nat) {
    k <= |buf| && k <= |buf'| && buf[..k] == buf'[..k]
  }

  lemma AgreeOn(buf: seq<byte>, buf': seq<byte>, k: nat, a: nat, b: nat)
    requires AgreeTo(buf, buf', k) && a <= b <= k
    ensures b <= |buf| && b <= |buf'| && buf[a..b] == buf'[a..b]
  {
    assert buf[a..b] == buf[..k][a..b] == buf'[..k][a..b] == buf'[a..b];
  }

  lemma WordLocal(w: nat, buf: seq<byte>, buf': seq<byte>, off: nat, k: nat)
    requires NaturalSize(w)
    requires DecodeWord(buf, off, w).Ok? && DecodeWord(buf, off, w).value.1 <= k && AgreeTo(buf, buf', k)
    ensures DecodeWord(buf', off, w) == DecodeWord(buf, off, w)
  {
    hide Value;
    AgreeOn(buf, buf', k, off + Pad(off, w), off + Pad(off, w) + w);
  }

  lemma TextLocal(buf: seq<byte>, buf': seq<byte>, off: nat, k: nat)
    requires DecodeText(buf, off).Ok? && DecodeText(buf, off).value.1 <= k && AgreeTo(buf, buf', k)
    ensures DecodeText(buf', off) == DecodeText(buf, off)
  {
    hide DecodeWord, AgreeTo;
    WordLocal(4, buf, buf', off, k);
    var (len, at) := DecodeWord(buf, off, 4).value;
    if len > 0 {
      AgreeOn(buf, buf', k, at, at + len - 1);
      AgreeOn(buf, buf', k, at, at + len);
    }
  }

  /** A decode depends on no byte at or after the offset it stops at. */
  lemma PrimLocal(p: PrimType, buf: seq<byte>, buf': seq<byte>, off: nat)
    requires DecodePrim(p, buf, off).Ok?
    requires AgreeTo(buf, buf', DecodePrim(p, buf, off).value.1)
    ensures DecodePrim(p, buf', off) == DecodePrim(p, buf, off)
  {
    hide DecodeWord, DecodeText, AgreeTo;
    var k := DecodePrim(p, buf, off).value.1;
    match p
    case PBool =>
      AgreeOn(buf, buf', k, off, off + 1);
      assert buf[off] == buf[off..off + 1][0] == buf'[off..off + 1][0];
    case PInt(w, _) => WordLocal(w.Size(), buf, buf', off, k);
    case PFloat(w) => WordLocal(w.Size(), buf, buf', off, k);
    case PString => TextLocal(buf, buf', off, k);
    case PBytes =>
      WordLocal(4, buf, buf', off, k);
      var (len, at) := DecodeWord(buf, off, 4).value;
      AgreeOn(buf, buf', k, at, at + len);
    case PUuid => TextLocal(buf, buf', off, k);
  }

  /** Padding depends on the offset modulo eight, and nothing else does. */
  lemma PrimModEight(p: PrimType, v: PrimVal, n: nat, m: nat)
    requires PrimOk(p, v) && n % 8 == m % 8
    ensures EncodePrim(p, v, n) == EncodePrim(p, v, m)
  {
    match p
    case PBool =>
    case PInt(w, _) => PadModEight(n, m, w.Size());
    case PFloat(w) => PadModEight(n, m, w.Size());
    case PString => PadModEight(n, m, 4);
    case PBytes => PadModEight(n, m, 4);
    case PUuid => PadModEight(n, m, 4);
  }
}
