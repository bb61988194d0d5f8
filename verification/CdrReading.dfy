/** What deserializing does, as a relation between a target, a stretch of bytes and what the target
    becomes: the transfer form, and beyond it whatever the reader lets pass. */
module CdrReading {
  import opened Results
  import opened Bytes
  import opened CdrPrimitives
  import opened Accessors
  import opened CdrCodec
  import opened CdrForm
  import Uuid

  // -- primitives --------------------------------------------------------------------------------

  /** An unsigned word; what was skipped to align it is not looked at. */
  predicate WordRead(buf: seq<byte>, off: nat, end: nat, w: nat, u: int)
    requires w > 0
  {
    0 <= u < Span(w) && Aligned(buf, off, end, w) && Digits(buf, end, w, u)
  }

  /** A length, and that many characters, of which the last is dropped whatever it is; a length of
      zero is taken for the empty string. */
  predicate TextRead(s: seq<byte>, buf: seq<byte>, off: nat, end: nat) {
    || (s == [] && WordRead(buf, off, end, 4, 0))
    || (off + |s| < end <= |buf| && WordRead(buf, off, end - 1 - |s|, 4, |s| + 1) && buf[end - 1 - |s|..end - 1] == s)
  }

  /** Any byte but zero is true; a number is what its digits say in its own range. */
  ghost predicate PrimRead(p: PrimType, v: PrimVal, buf: seq<byte>, off: nat, end: nat) {
    match p
    case PBool => end == off + 1 <= |buf| && v == BoolV(buf[off] != 0)
    case PInt(w, signed) =>
      v.NumV? && InRange(w, signed, v.n) && Aligned(buf, off, end, w.Size()) && Digits(buf, end, w.Size(), v.n)
    case PFloat(w) => v.NumV? && WordRead(buf, off, end, w.Size(), v.n)
    case PString => v.TextV? && TextRead(v.s, buf, off, end)
    case PBytes =>
      && v.TextV?
      && off + |v.s| <= end <= |buf|
      && WordRead(buf, off, end - |v.s|, 4, |v.s|)
      && buf[end - |v.s|..end] == v.s
    case PUuid => v.UuidV? && exists s :: TextRead(s, buf, off, end) && Uuid.FromText(s) == Some(v.o)
  }

  lemma WordReadIff(buf: seq<byte>, off: nat, end: nat, w: nat, u: nat)
    requires NaturalSize(w)
    ensures WordRead(buf, off, end, w, u) <==> DecodeWord(buf, off, w) == Ok((u, end))
  {
    hide Span, Pad, Digits, Value, BigEndian;
    AlignedIff(buf, off, end, w);
    if end == off + Pad(off, w) + w && end <= |buf| {
      var s := buf[end - w..end];
      DigitsIff(buf, end, w, u);
      ValueBigEndian(s);
      if u < Span(w) { BigEndianValue(u, w); }
    }
  }

  lemma WordReadEnds(buf: seq<byte>, off: nat, end: nat, w: nat, u: int)
    requires NaturalSize(w)
    ensures WordRead(buf, off, end, w, u) ==> DecodeWord(buf, off, w).Ok? && DecodeWord(buf, off, w).value == (u, end)
  {
    hide DecodeWord;
    if u >= 0 { WordReadIff(buf, off, end, w, u); }
  }

  lemma TextReadIff(s: seq<byte>, buf: seq<byte>, off: nat, end: nat)
    ensures TextRead(s, buf, off, end) <==> DecodeText(buf, off) == Ok((s, end))
  {
    hide WordRead, DecodeWord;
    forall at: nat, u: nat
      ensures WordRead(buf, off, at, 4, u) <==> DecodeWord(buf, off, 4) == Ok((u, at))
    {
      WordReadIff(buf, off, at, 4, u);
    }
  }

  lemma SignedRead(buf: seq<byte>, end: nat, w: Width, n: int, u: nat)
    requires w.Size() <= end <= |buf| && u < Span(w.Size())
    requires Digits(buf, end, w.Size(), u)
    ensures InRange(w, true, n) && Digits(buf, end, w.Size(), n) <==> n == ToSigned(u, w.Size())
  {
    hide Digits, Above, Span;
    var span := Span(w.Size());
    if InRange(w, true, n) && Digits(buf, end, w.Size(), n) {
      var m := if n < 0 then n + span else n;
      TwosComplement(buf, end, w.Size(), n);
      OneNumber(buf, end, w.Size(), m, u);
    }
    if n == ToSigned(u, w.Size()) {
      EvenSpan(w);
      if n < 0 { TwosComplement(buf, end, w.Size(), n); }
    }
  }

  lemma EvenSpan(w: Width)
    ensures Span(w.Size()) % 2 == 0
  {
    SpanNext(w.Size());
  }

  /** Digits determine the number. */
  lemma OneNumber(buf: seq<byte>, end: nat, w: nat, m: nat, u: nat)
    requires w <= end <= |buf| && m < Span(w) && u < Span(w)
    requires Digits(buf, end, w, m) && Digits(buf, end, w, u)
    ensures m == u
  {
    hide Digits, Span, BigEndian, Value;
    DigitsIff(buf, end, w, m);
    DigitsIff(buf, end, w, u);
    BigEndianValue(m, w);
    BigEndianValue(u, w);
  }

  lemma PrimReadIff(p: PrimType, v: PrimVal, buf: seq<byte>, off: nat, end: nat)
    ensures PrimRead(p, v, buf, off, end) <==> DecodePrim(p, buf, off) == Ok((v, end))
  {
    hide WordRead, DecodeWord, TextRead, DecodeText, Span, Uuid.FromText;
    match p
    case PBool =>
    case PInt(w, signed) => IntReadIff(w, signed, v, buf, off, end);
    case PFloat(w) =>
      if v.NumV? {
        WordReadEnds(buf, off, end, w.Size(), v.n);
        if v.n >= 0 { WordReadIff(buf, off, end, w.Size(), v.n); }
      }
    case PString => if v.TextV? { TextReadIff(v.s, buf, off, end); }
    case PBytes =>
      if v.TextV? && end >= |v.s| { WordReadIff(buf, off, end - |v.s|, 4, |v.s|); }
    case PUuid =>
      forall s
        ensures TextRead(s, buf, off, end) <==> DecodeText(buf, off) == Ok((s, end))
      {
        TextReadIff(s, buf, off, end);
      }
  }

  lemma IntReadIff(w: Width, signed: bool, v: PrimVal, buf: seq<byte>, off: nat, end: nat)
    ensures PrimRead(PInt(w, signed), v, buf, off, end) <==> DecodePrim(PInt(w, signed), buf, off) == Ok((v, end))
  {
    hide DecodeWord, Span, Digits, Above;
    var k := w.Size();
    AlignedDecodes(buf, off, end, k);
    if Aligned(buf, off, end, k) {
      var u := DecodeWord(buf, off, k).value.0;
      WordReadIff(buf, off, end, k, u);
      if v.NumV? {
        if signed {
          SignedRead(buf, end, w, v.n, u);
        } else if InRange(w, false, v.n) && Digits(buf, end, k, v.n) {
          OneNumber(buf, end, k, v.n, u);
        }
      }
    }
  }

  lemma AlignedDecodes(buf: seq<byte>, off: nat, end: nat, w: nat)
    requires NaturalSize(w)
    ensures Aligned(buf, off, end, w) <==> DecodeWord(buf, off, w).Ok? && DecodeWord(buf, off, w).value.1 == end
  {
    AlignedIff(buf, off, end, w);
  }

  // -- objects ---------------------------------------------------------------------------------------

  /** Reading the bytes of `buf` from `off` to `end` into `target` makes it `r`. Only what the bytes
      mention is assigned: an absent optional and an ordinal that names no variant leave the target
      as it was, and a list is refilled with new items. */
  ghost predicate Reads(reg: Registry, ty: Ty, target: Obj, r: Obj, buf: seq<byte>, off: nat, end: nat)
    decreases r, 1
  {
    match ty
    case PrimTy(p) => r.Leaf? && PrimRead(p, r.v, buf, off, end)
    case OptTy(e) =>
      && target.OptObj?
      && off < |buf|
      && if buf[off] == 0 then r == target && end == off + 1 else r.OptObj? && r.has && Reads(reg, e, target.o, r.o, buf, off + 1, end)
    case ListTy(e, max) =>
      && target.ListObj? && r.ListObj?
      && (max.Some? ==> |r.items| <= max.value)
      && exists at: nat :: WordRead(buf, off, at, 4, |r.items|) && ItemsRead(reg, e, r.items, buf, at, end)
    case NamedTy(t) =>
      t in reg &&
      match reg[t].handler
      case EnumHandler(_) => target.EnumObj? && r.EnumObj? && WordRead(buf, off, end, 4, r.item)
      case StructHandler(base, choice, fields) =>
        && target.StructObj? && r.StructObj? && base.Some? == target.base.Some? == r.base.Some?
        && exists a: nat, b: nat ::
          && (if base.Some? then Reads(reg, NamedTy(base.value), target.base.value, r.base.value, buf, off, a) else a == off)
          && ChoiceRead(reg, choice, target, r, buf, a, b)
          && MembersRead(reg, fields, target.fields, r.fields, buf, b, end)
  }

  ghost predicate ChoiceRead(reg: Registry, choice: Option<seq<Member>>, target: Obj, r: Obj, buf: seq<byte>, off: nat, end: nat)
    requires target.StructObj? && r.StructObj?
    decreases r, 0
  {
    match choice
    case None => end == off && r.ord == target.ord && r.variants == target.variants
    case Some(vs) =>
      && |vs| == |target.variants| == |r.variants|
      && exists at: nat, ord: nat ::
        && WordRead(buf, off, at, 4, ord)
        && if 1 <= ord <= |vs| then
             && r.ord == ord
             && (forall i :: 0 <= i < |vs| && i != ord - 1 ==> r.variants[i] == target.variants[i])
             && Reads(reg, vs[ord - 1].ty, target.variants[ord - 1], r.variants[ord - 1], buf, at, end)
           else
             end == at && r.ord == target.ord && r.variants == target.variants
  }

  ghost predicate MembersRead(reg: Registry, ms: seq<Member>, targets: seq<Obj>, rs: seq<Obj>, buf: seq<byte>, off: nat, end: nat)
    decreases rs, 0
  {
    && |ms| == |targets| == |rs|
    && if rs == [] then end == off
       else exists at: nat ::
         Reads(reg, ms[0].ty, targets[0], rs[0], buf, off, at) && MembersRead(reg, ms[1..], targets[1..], rs[1..], buf, at, end)
  }

  /** Each item is read into a new object. */
  ghost predicate ItemsRead(reg: Registry, elem: Ty, rs: seq<Obj>, buf: seq<byte>, off: nat, end: nat)
    decreases rs, 0
  {
    if rs == [] then end == off
    else exists at: nat ::
      Reads(reg, elem, Fresh(reg, elem), rs[0], buf, off, at) && ItemsRead(reg, elem, rs[1..], buf, at, end)
  }

  /** On any bytes and into any target, deserializing succeeds with an object and an offset exactly
      when the relation holds. */
  lemma {:induction false} ReadsIff(reg: Registry, ty: Ty, target: Obj, r: Obj, buf: seq<byte>, off: nat, end: nat)
    requires off <= |buf|
    ensures Reads(reg, ty, target, r, buf, off, end) <==> Decode(reg, ty, target, buf, off) == Ok((r, end))
    decreases r, 2
  {
    hide PrimRead, DecodePrim, WordRead, DecodeWord, DecodeNamed, DecodeItems, ItemsRead, MembersRead, ChoiceRead;
    match ty
    case PrimTy(p) => if r.Leaf? { PrimReadIff(p, r.v, buf, off, end); }
    case OptTy(e) =>
      FlagDecodes(buf, off);
      if r.OptObj? && target.OptObj? && off < |buf| { ReadsIff(reg, e, target.o, r.o, buf, off + 1, end); }
    case ListTy(e, max) =>
      if r.ListObj? && target.ListObj? { ListReadIff(reg, e, max, target, r, buf, off, end); }
    case NamedTy(t) =>
      if t in reg { NamedReadIff(reg, t, target, r, buf, off, end); }
  }

  lemma FlagDecodes(buf: seq<byte>, off: nat)
    ensures DecodePrim(PBool, buf, off) == if off < |buf| then Ok((BoolV(buf[off] != 0), off + 1)) else Err(Underrun)
  {
  }

  lemma {:induction false} ListReadIff(reg: Registry, e: Ty, max: Option<nat>, target: Obj, r: Obj, buf: seq<byte>, off: nat, end: nat)
    requires off <= |buf| && target.ListObj? && r.ListObj?
    ensures Reads(reg, ListTy(e, max), target, r, buf, off, end) <==> Decode(reg, ListTy(e, max), target, buf, off) == Ok((r, end))
    decreases r, 1
  {
    hide WordRead, DecodeWord, DecodeItems, ItemsRead;
    forall at: nat
      ensures WordRead(buf, off, at, 4, |r.items|) <==> DecodeWord(buf, off, 4) == Ok((|r.items|, at))
    {
      WordReadIff(buf, off, at, 4, |r.items|);
    }
    if DecodeWord(buf, off, 4).Ok? {
      var (cnt, at) := DecodeWord(buf, off, 4).value;
      if cnt == |r.items| { ItemsReadIff(reg, e, max, 0, r.items, buf, at, end); }
    }
  }

  lemma {:induction false} ItemsReadIff(reg: Registry, elem: Ty, max: Option<nat>, size: nat, rs: seq<Obj>,
                                        buf: seq<byte>, off: nat, end: nat)
    requires off <= |buf|
    ensures (max.Some? && rs != [] ==> size + |rs| <= max.value) && ItemsRead(reg, elem, rs, buf, off, end) <==>
      DecodeItems(reg, elem, max, |rs|, size, buf, off) == Ok((rs, end))
    decreases rs, 0
  {
    hide Reads, Decode, Fresh;
    if rs != [] {
      var target := Fresh(reg, elem);
      forall at: nat
        ensures Reads(reg, elem, target, rs[0], buf, off, at) <==> Decode(reg, elem, target, buf, off) == Ok((rs[0], at))
      {
        ReadsIff(reg, elem, target, rs[0], buf, off, at);
      }
      if Decode(reg, elem, target, buf, off).Ok? {
        var at := Decode(reg, elem, target, buf, off).value.1;
        ItemsReadIff(reg, elem, max, size + 1, rs[1..], buf, at, end);
        FirstAndRest(rs, Decode(reg, elem, target, buf, off).value.0, DecodeItems(reg, elem, max, |rs| - 1, size + 1, buf, at));
      }
    }
  }

  /** A sequence is its first element and the rest. */
  lemma FirstAndRest(rs: seq<Obj>, x: Obj, tail: Result<(seq<Obj>, nat)>)
    requires rs != []
    ensures tail.Ok? ==> ([x] + tail.value.0 == rs <==> x == rs[0] && tail.value.0 == rs[1..])
  {
    if tail.Ok? && [x] + tail.value.0 == rs {
      assert rs[1..] == tail.value.0 && rs[0] == x;
    }
    assert rs == [rs[0]] + rs[1..];
  }

  lemma {:induction false} MembersReadIff(reg: Registry, ms: seq<Member>, targets: seq<Obj>, rs: seq<Obj>,
                                          buf: seq<byte>, off: nat, end: nat)
    requires off <= |buf|
    ensures MembersRead(reg, ms, targets, rs, buf, off, end) <==> DecodeMembers(reg, ms, targets, buf, off) == Ok((rs, end))
    decreases rs, 0
  {
    hide Reads, Decode;
    if rs != [] && |ms| == |targets| == |rs| {
      forall at: nat
        ensures Reads(reg, ms[0].ty, targets[0], rs[0], buf, off, at) <==> Decode(reg, ms[0].ty, targets[0], buf, off) == Ok((rs[0], at))
      {
        ReadsIff(reg, ms[0].ty, targets[0], rs[0], buf, off, at);
      }
      if Decode(reg, ms[0].ty, targets[0], buf, off).Ok? {
        var at := Decode(reg, ms[0].ty, targets[0], buf, off).value.1;
        MembersReadIff(reg, ms[1..], targets[1..], rs[1..], buf, at, end);
        FirstAndRest(rs, Decode(reg, ms[0].ty, targets[0], buf, off).value.0, DecodeMembers(reg, ms[1..], targets[1..], buf, at));
      }
    }
  }

  lemma {:induction false} ChoiceReadIff(reg: Registry, choice: Option<seq<Member>>, target: Obj, r: Obj,
                                         buf: seq<byte>, off: nat, end: nat)
    requires off <= |buf| && target.StructObj? && r.StructObj?
    ensures ChoiceRead(reg, choice, target, r, buf, off, end) <==>
      var c := DecodeChoice(reg, choice, target, buf, off);
      c.Ok? && c.value.1 == end && c.value.0.ord == r.ord && c.value.0.variants == r.variants
    decreases r, 0
  {
    hide Reads, Decode, WordRead, DecodeWord;
    if choice.Some? && |choice.value| == |target.variants| {
      var vs := choice.value;
      forall at: nat, ord: nat
        ensures WordRead(buf, off, at, 4, ord) <==> DecodeWord(buf, off, 4) == Ok((ord, at))
      {
        WordReadIff(buf, off, at, 4, ord);
      }
      if DecodeWord(buf, off, 4).Ok? {
        var (ord, at) := DecodeWord(buf, off, 4).value;
        if 1 <= ord <= |vs| && |r.variants| == |vs| {
          var k := ord - 1;
          ReadsIff(reg, vs[k].ty, target.variants[k], r.variants[k], buf, at, end);
          var v := Decode(reg, vs[k].ty, target.variants[k], buf, at);
          if v.Ok? {
            OneChanged(target.variants, k, v.value.0, r.variants);
          }
        }
      }
    }
  }

  lemma OneChanged(s: seq<Obj>, k: nat, x: Obj, t: seq<Obj>)
    requires k < |s| == |t|
    ensures s[k := x] == t <==> t[k] == x && forall i :: 0 <= i < |s| && i != k ==> t[i] == s[i]
  {
  }

  lemma {:induction false} NamedReadIff(reg: Registry, t: Name, target: Obj, r: Obj, buf: seq<byte>, off: nat, end: nat)
    requires off <= |buf| && t in reg
    ensures Reads(reg, NamedTy(t), target, r, buf, off, end) <==> DecodeNamed(reg, reg[t].handler, target, buf, off) == Ok((r, end))
    decreases r, 1
  {
    hide Decode, DecodeMembers, DecodeChoice, DecodeWord, WordRead, MembersRead, ChoiceRead;
    match reg[t].handler
    case EnumHandler(_) => if r.EnumObj? { WordReadIff(buf, off, end, 4, r.item); }
    case StructHandler(base, choice, fields) =>
      if r.StructObj? && target.StructObj? && base.Some? == target.base.Some? == r.base.Some? {
        var b := if base.Some? then DecodeBase(reg, base.value, target, buf, off) else Ok((None, off));
        forall a: nat
          ensures (if base.Some? then Reads(reg, NamedTy(base.value), target.base.value, r.base.value, buf, off, a) else a == off) <==>
            b == Ok((r.base, a))
        {
          if base.Some? { ReadsIff(reg, NamedTy(base.value), target.base.value, r.base.value, buf, off, a); }
        }
        if b.Ok? {
          var at := b.value.1;
          var c := DecodeChoice(reg, choice, target, buf, at);
          forall at': nat
            ensures ChoiceRead(reg, choice, target, r, buf, at, at') <==>
              c.Ok? && c.value.1 == at' && c.value.0.ord == r.ord && c.value.0.variants == r.variants
          {
            ChoiceReadIff(reg, choice, target, r, buf, at, at');
          }
          if c.Ok? {
            var at' := c.value.1;
            MembersReadIff(reg, fields, target.fields, r.fields, buf, at', end);
            if DecodeNamed(reg, reg[t].handler, target, buf, off) == Ok((r, end)) {
              assert ChoiceRead(reg, choice, target, r, buf, at, at') && MembersRead(reg, fields, target.fields, r.fields, buf, at', end);
            }
          }
        }
      }
  }
}
