/** The encoders and decoders of CdrPrimitives.h as they run: a byte buffer that is appended to
    and a cursor that advances. Each is proved against its specification in `CdrPrimitives`. */
module CdrStreams {
  import opened Results
  import opened Bytes
  import opened CdrPrimitives
  import Uuid

  class ByteBuffer {
    var data: seq<byte>

    constructor ()
      ensures data == []
    {
      data := [];
    }

    method PushBack(b: byte)
      modifies this
      ensures data == old(data) + [b]
    {
      data := data + [b];
    }

    method Align(a: nat)
      requires NaturalSize(a)
      modifies this
      ensures data == old(data) + Zeros(Pad(|old(data)|, a))
    {
      ghost var n := |data|;
      while |data| % a != 0
        invariant n <= |data| <= n + Pad(n, a)
        invariant data == old(data) + Zeros(|data| - n)
        decreases n + Pad(n, a) - |data|
      {
        data := data + [0];
      }
    }

    method EncodeBool(b: bool)
      modifies this
      ensures data == old(data) + EncodePrim(PBool, BoolV(b), |old(data)|)
    {
      PushBack(if b then 1 else 0);
    }

    method EncodeUint8(v: nat)
      requires v < 0x100
      modifies this
      ensures data == old(data) + EncodeWord(v, 1, |old(data)|)
    {
      assert BigEndian(v, 1) == [v];
      PushBack(v);
    }

    method EncodeUint16(v: nat)
      requires v < 0x1_0000
      modifies this
      ensures data == old(data) + EncodeWord(v, 2, |old(data)|)
    {
      assert BigEndian(v, 2) == BigEndian(v / 256, 1) + [v % 256] == [v / 256, v % 256];
      Align(2);
      PushBack(v / 0x100);
      PushBack(v % 0x100);
    }

    method EncodeUint32(v: nat)
      requires v < U32
      modifies this
      ensures data == old(data) + EncodeWord(v, 4, |old(data)|)
    {
      hide BigEndian, Pad;
      FourBytes(v);
      Align(4);
      PushBack(v / 0x100_0000);
      PushBack(v / 0x1_0000 % 0x100);
      PushBack(v / 0x100 % 0x100);
      PushBack(v % 0x100);
    }

    method EncodeUint64(v: nat)
      requires v < Span(8)
      modifies this
      ensures data == old(data) + EncodeWord(v, 8, |old(data)|)
    {
      hide BigEndian, Pad;
      Align(8);
      ghost var start := data;
      var i := 8;
      assert BigEndian(ShiftBytes(v, 8), 0) == [];
      while i > 0
        invariant 0 <= i <= 8
        invariant data == start + BigEndian(ShiftBytes(v, i), 8 - i)
      {
        i := i - 1;
        ShiftByte(v, i, 8 - i);
        PushBack(ShiftBytes(v, i) % 0x100);
      }
    }

    method EncodeSized(v: nat, w: Width)
      requires v < Span(w.Size())
      modifies this
      ensures data == old(data) + EncodeWord(v, w.Size(), |old(data)|)
    {
      SpanFour();
      match w
      case W1 => EncodeUint8(v);
      case W2 => EncodeUint16(v);
      case W4 => EncodeUint32(v);
      case W8 => EncodeUint64(v);
    }

    /** `encode_uint32(buf, static_cast<uint32_t>(size))`: the cast drops the high bits. */
    method EncodeSize(len: nat)
      modifies this
      ensures data == old(data) + EncodeLength(len, |old(data)|)
    {
      EncodeUint32(len % U32);
    }

    method EncodeString(s: seq<byte>)
      modifies this
      ensures data == old(data) + EncodeText(s, |old(data)|)
      ensures |data| > |s| && data[|data| - 1] == 0 && data[|data| - 1 - |s|..|data| - 1] == s
      ensures DecodeWord(data, |old(data)|, 4) == Ok(((|s| + 1) % U32, |data| - 1 - |s|))
    {
      EncodeSize(|s| + 1);
      ghost var head := data;
      data := data + s;
      PushBack(0);
      assert data == head + s + [0];
      LengthReadsBack(old(data), |s| + 1, s + [0]);
      assert old(data) + EncodeLength(|s| + 1, |old(data)|) + (s + [0]) == data;
    }

    method EncodeUuid(o: Uuid.Octets)
      modifies this
      ensures data == old(data) + EncodePrim(PUuid, UuidV(o), |old(data)|)
      ensures |data| > 36 && data[|data| - 1] == 0 && Uuid.FromText(data[|data| - 37..|data| - 1]) == Some(o)
      ensures DecodeWord(data, |old(data)|, 4) == Ok((37, |data| - 37))
    {
      Uuid.TextRoundTrip(o);
      var text := Uuid.ToString(o);
      EncodeString(text);
    }

    method EncodeBytes(s: seq<byte>)
      modifies this
      ensures data == old(data) + EncodePrim(PBytes, TextV(s), |old(data)|)
    {
      EncodeSize(|s|);
      data := data + s;
    }

    method EncodeValue(p: PrimType, v: PrimVal)
      requires PrimOk(p, v)
      modifies this
      ensures data == old(data) + EncodePrim(p, v, |old(data)|)
    {
      match p
      case PBool => EncodeBool(v.b);
      case PInt(w, _) => EncodeSized(ToUnsigned(v.n, w.Size()), w);
      case PFloat(w) => EncodeSized(v.n, w);
      case PString => EncodeString(v.s);
      case PBytes => EncodeBytes(v.s);
      case PUuid => EncodeUuid(v.o);
    }
  }

  /** A length word that was appended reads back, whatever follows. */
  lemma LengthReadsBack(before: seq<byte>, len: nat, after: seq<byte>)
    ensures var n, buf := |before|, before + EncodeLength(len, |before|) + after;
      DecodeWord(buf, n, 4) == Ok((len % U32, |buf| - |after|))
  {
    hide DecodeWord, EncodeWord;
    SpanFour();
    var n, buf := |before|, before + EncodeLength(len, |before|) + after;
    assert At(buf, n, EncodeWord(len % U32, 4, n));
    WordRoundTrip(buf, n, len % U32, 4);
  }

  /** `v >> 8 * i` */
  function ShiftBytes(v: nat, i: nat): nat {
    if i == 0 then v else ShiftBytes(v, i - 1) / 256
  }

  lemma ShiftByte(v: nat, i: nat, w: nat)
    requires w > 0
    ensures BigEndian(ShiftBytes(v, i), w) == BigEndian(ShiftBytes(v, i + 1), w - 1) + [ShiftBytes(v, i) % 256]
  {
  }

  lemma FourBytes(v: nat)
    requires v < U32
    ensures BigEndian(v, 4) == [v / 0x100_0000, v / 0x1_0000 % 0x100, v / 0x100 % 0x100, v % 0x100]
  {
    assert BigEndian(v / 0x100_0000, 1) == [v / 0x100_0000];
    assert BigEndian(v / 0x1_0000, 2) == BigEndian(v / 0x100_0000, 1) + [v / 0x1_0000 % 0x100];
    assert BigEndian(v / 0x100, 3) == BigEndian(v / 0x1_0000, 2) + [v / 0x100 % 0x100];
  }

  class Cursor {
    const buf: seq<byte>
    var off: nat

    constructor (buf: seq<byte>, off: nat)
      ensures this.buf == buf && this.off == off
    {
      this.buf := buf;
      this.off := off;
    }

    /** What a decoding method reports: the value and the new offset of the specification, or its error. */
    ghost predicate Reports<T>(spec: Result<(T, nat)>, r: Result<T>)
      reads this
    {
      match spec
      case Ok((v, next)) => r == Ok(v) && off == next
      case Err(e) => r == Err(e)
    }

    method Align(a: nat)
      requires NaturalSize(a)
      modifies this
      ensures off == old(off) + Pad(old(off), a)
    {
      if a > 1 && off % a != 0 {
        off := off + (a - off % a);
      }
    }

    method DecodeBool() returns (r: Result<bool>)
      modifies this
      ensures match DecodePrim(PBool, buf, old(off))
              case Ok((v, next)) => r == Ok(v.b) && off == next
              case Err(e) => r == Err(e)
    {
      if off + 1 > |buf| {
        return Err(Underrun);
      }
      r := Ok(buf[off] != 0);
      off := off + 1;
    }

    method DecodeUint8() returns (r: Result<nat>)
      modifies this
      ensures Reports(DecodeWord(buf, old(off), 1), r)
    {
      if off + 1 > |buf| {
        return Err(Underrun);
      }
      ValueSnoc([], buf[off]);
      assert buf[off..off + 1] == [] + [buf[off]];
      r := Ok(buf[off]);
      off := off + 1;
    }

    method DecodeUint16() returns (r: Result<nat>)
      modifies this
      ensures Reports(DecodeWord(buf, old(off), 2), r)
    {
      Align(2);
      if off + 2 > |buf| {
        return Err(Underrun);
      }
      ValueOfSlice(buf, off, 1);
      ValueOfSlice(buf, off, 0);
      r := Ok(buf[off] as nat * 0x100 + buf[off + 1]);
      off := off + 2;
    }

    method DecodeUint32() returns (r: Result<nat>)
      modifies this
      ensures Reports(DecodeWord(buf, old(off), 4), r)
    {
      Align(4);
      if off + 4 > |buf| {
        return Err(Underrun);
      }
      ValueOfSlice(buf, off, 3);
      ValueOfSlice(buf, off, 2);
      ValueOfSlice(buf, off, 1);
      ValueOfSlice(buf, off, 0);
      r := Ok(buf[off] as nat * 0x100_0000 + buf[off + 1] as nat * 0x1_0000 + buf[off + 2] as nat * 0x100 + buf[off + 3]);
      off := off + 4;
    }

    method DecodeUint64() returns (r: Result<nat>)
      modifies this
      ensures Reports(DecodeWord(buf, old(off), 8), r)
    {
      Align(8);
      if off + 8 > |buf| {
        return Err(Underrun);
      }
      var v: nat := 0;
      for i := 0 to 8
        invariant off == old(off) + Pad(old(off), 8)
        invariant v == Value(buf[off..off + i])
      {
        ValueOfSlice(buf, off, i);
        v := v * 0x100 + buf[off + i];
      }
      off := off + 8;
      r := Ok(v);
    }

    method DecodeSized(w: Width) returns (r: Result<nat>)
      modifies this
      ensures Reports(DecodeWord(buf, old(off), w.Size()), r)
    {
      match w
      case W1 => r := DecodeUint8();
      case W2 => r := DecodeUint16();
      case W4 => r := DecodeUint32();
      case W8 => r := DecodeUint64();
    }

    method DecodeString() returns (r: Result<seq<byte>>)
      modifies this
      ensures Reports(DecodeText(buf, old(off)), r)
    {
      var len :- DecodeUint32();
      if len == 0 {
        return Ok([]);
      }
      if off + len > |buf| {
        return Err(Underrun);
      }
      r := Ok(buf[off..off + len - 1]);
      off := off + len;
    }

    method DecodeUuid() returns (r: Result<PrimVal>)
      modifies this
      ensures Reports(DecodePrim(PUuid, buf, old(off)), r)
    {
      var s :- DecodeString();
      var o := Uuid.FromString(s);
      match o
      case None => r := Err(BadText);
      case Some(u) => r := Ok(UuidV(u));
    }

    method DecodeBytes() returns (r: Result<PrimVal>)
      modifies this
      ensures Reports(DecodePrim(PBytes, buf, old(off)), r)
    {
      var len :- DecodeUint32();
      if off + len > |buf| {
        return Err(Underrun);
      }
      r := Ok(TextV(buf[off..off + len]));
      off := off + len;
    }

    method DecodeValue(p: PrimType) returns (r: Result<PrimVal>)
      modifies this
      ensures Reports(DecodePrim(p, buf, old(off)), r)
    {
      match p
      case PBool =>
        var b :- DecodeBool();
        r := Ok(BoolV(b));
      case PInt(w, signed) =>
        var u :- DecodeSized(w);
        r := Ok(NumV(if signed then ToSigned(u, w.Size()) else u));
      case PFloat(w) =>
        var u :- DecodeSized(w);
        r := Ok(NumV(u));
      case PString =>
        var s :- DecodeString();
        r := Ok(TextV(s));
      case PBytes =>
        r := DecodeBytes();
      case PUuid =>
        r := DecodeUuid();
    }
  }

  lemma ValueOfSlice(buf: seq<byte>, off: nat, i: nat)
    requires off + i < |buf|
    ensures Value(buf[off..off + i + 1]) == Value(buf[off..off + i]) * 256 + buf[off + i]
    ensures i == 0 ==> Value(buf[off..off + i]) == 0
  {
    assert buf[off..off + i + 1] == buf[off..off + i] + [buf[off + i]];
    ValueSnoc(buf[off..off + i], buf[off + i]);
  }
}
