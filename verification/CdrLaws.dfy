/** Laws of the transfer syntax beyond the round trip: position independence modulo eight,
    determinacy, locality, and safety on arbitrary bytes. */
module CdrLaws {
  import opened Results
  import opened Bytes
  import opened CdrPrimitives
  import opened Accessors
  import opened CdrCodec
  import CdrRoundTrip

  // -- the bytes depend on what shows, and on the buffer size modulo eight --------------------------

  lemma {:induction false} EncodeDepends(reg: Registry, ty: Ty, a: Obj, b: Obj, n: nat, m: nat)
    requires WellTyped(reg, ty, a) && WellTyped(reg, ty, b) && SameObs(a, b)
    requires n % 8 == m % 8
    ensures Encode(reg, ty, a, n) == Encode(reg, ty, b, m)
    decreases a, 2
  {
    hide EncodeNamed, EncodeItems, EncodePrim, EncodeLength, Pad, PrimOk;
    match ty
    case PrimTy(p) => PrimModEight(p, a.v, n, m);
    case OptTy(e) =>
      AddModEight(n, m, 1);
      if a.has { EncodeDepends(reg, e, a.o, b.o, n + 1, m + 1); }
    case ListTy(e, _) =>
      LengthModEight(|a.items|, n, m);
      AddModEight(n, m, |EncodeLength(|a.items|, n)|);
      EncodeItemsDepend(reg, e, a.items, b.items, n + |EncodeLength(|a.items|, n)|, m + |EncodeLength(|a.items|, n)|);
    case NamedTy(t) => EncodeNamedDepends(reg, t, a, b, n, m);
  }

  lemma LengthModEight(len: nat, n: nat, m: nat)
    requires n % 8 == m % 8
    ensures EncodeLength(len, n) == EncodeLength(len, m)
  {
    PadModEight(n, m, 4);
  }

  lemma {:induction false} EncodeNamedDepends(reg: Registry, t: Name, a: Obj, b: Obj, n: nat, m: nat)
    requires WellTyped(reg, NamedTy(t), a) && WellTyped(reg, NamedTy(t), b) && SameObs(a, b)
    requires n % 8 == m % 8
    ensures EncodeNamed(reg, reg[t].handler, a, n) == EncodeNamed(reg, reg[t].handler, b, m)
    decreases a, 1
  {
    hide Encode, EncodeMembers, EncodeChoice, EncodeWord, Pad;
    match reg[t].handler
    case EnumHandler(_) => WordModEight(a.item, n, m);
    case StructHandler(base, choice, fields) =>
      var k := 0;
      if base.Some? {
        EncodeDepends(reg, NamedTy(base.value), a.base.value, b.base.value, n, m);
        CdrRoundTrip.EncodeSucceeds(reg, NamedTy(base.value), a.base.value, n);
        k := |Encode(reg, NamedTy(base.value), a.base.value, n).value|;
      }
      AddModEight(n, m, k);
      EncodeChoiceDepends(reg, choice, a, b, n + k, m + k);
      if EncodeChoice(reg, choice, a, n + k).Ok? {
        k := k + |EncodeChoice(reg, choice, a, n + k).value|;
        AddModEight(n, m, k);
        EncodeMembersDepend(reg, fields, a.fields, b.fields, n + k, m + k);
      }
  }

  lemma AddModEight(n: nat, m: nat, k: nat)
    requires n % 8 == m % 8
    ensures (n + k) % 8 == (m + k) % 8
  {
  }

  lemma WordModEight(u: nat, n: nat, m: nat)
    requires n % 8 == m % 8
    ensures EncodeWord(u, 4, n) == EncodeWord(u, 4, m)
  {
    PadModEight(n, m, 4);
  }

  lemma {:induction false} EncodeChoiceDepends(reg: Registry, choice: Option<seq<Member>>, a: Obj, b: Obj, n: nat, m: nat)
    requires a.StructObj? && ChoiceTyped(reg, choice, a) && b.StructObj? && ChoiceTyped(reg, choice, b)
    requires a.ord == b.ord && (a.ord >= 1 ==> SameObs(a.variants[a.ord - 1], b.variants[a.ord - 1]))
    requires n % 8 == m % 8
    ensures EncodeChoice(reg, choice, a, n) == EncodeChoice(reg, choice, b, m)
    decreases a, 0
  {
    hide Encode, EncodeWord, WellTyped, SameObs, Pad;
    WordModEight(a.ord, n, m);
    if a.ord >= 1 {
      var k := |EncodeWord(a.ord, 4, n)|;
      AddModEight(n, m, k);
      EncodeDepends(reg, choice.value[a.ord - 1].ty, a.variants[a.ord - 1], b.variants[a.ord - 1], n + k, m + k);
    }
  }

  lemma {:induction false} EncodeMembersDepend(reg: Registry, ms: seq<Member>, as_: seq<Obj>, bs: seq<Obj>, n: nat, m: nat)
    requires MembersTyped(reg, ms, as_) && MembersTyped(reg, ms, bs)
    requires forall i :: 0 <= i < |as_| ==> SameObs(as_[i], bs[i])
    requires n % 8 == m % 8
    ensures EncodeMembers(reg, ms, as_, n) == EncodeMembers(reg, ms, bs, m)
    decreases as_, 0
  {
    hide Encode, WellTyped, SameObs;
    if as_ != [] {
      EncodeDepends(reg, ms[0].ty, as_[0], bs[0], n, m);
      if Encode(reg, ms[0].ty, as_[0], n).Ok? {
        var k := |Encode(reg, ms[0].ty, as_[0], n).value|;
        AddModEight(n, m, k);
        EncodeMembersDepend(reg, ms[1..], as_[1..], bs[1..], n + k, m + k);
      }
    }
  }

  lemma {:induction false} EncodeItemsDepend(reg: Registry, elem: Ty, as_: seq<Obj>, bs: seq<Obj>, n: nat, m: nat)
    requires ItemsTyped(reg, elem, as_) && ItemsTyped(reg, elem, bs)
    requires |as_| == |bs| && forall i :: 0 <= i < |as_| ==> SameObs(as_[i], bs[i])
    requires n % 8 == m % 8
    ensures EncodeItems(reg, elem, as_, n) == EncodeItems(reg, elem, bs, m)
    decreases as_, 0
  {
    hide Encode, WellTyped, SameObs;
    if as_ != [] {
      EncodeDepends(reg, elem, as_[0], bs[0], n, m);
      if Encode(reg, elem, as_[0], n).Ok? {
        var k := |Encode(reg, elem, as_[0], n).value|;
        AddModEight(n, m, k);
        EncodeItemsDepend(reg, elem, as_[1..], bs[1..], n + k, m + k);
      }
    }
  }

  // -- an encoding determines what it encodes ----------------------------------------------------------

  /** Encodings of one type from one offset are prefix-free: if one is a prefix of the other, they
      are equal and the two objects cannot be told apart. */
  lemma PrefixFree(reg: Registry, ty: Ty, a: Obj, b: Obj, n: nat)
    requires WellFormed(reg) && Known(reg, ty)
    requires WellTyped(reg, ty, a) && Fits(a) && WellTyped(reg, ty, b) && Fits(b)
    requires Encode(reg, ty, a, n).Ok? && Encode(reg, ty, b, n).Ok?
    requires Encode(reg, ty, a, n).value <= Encode(reg, ty, b, n).value
    ensures Encode(reg, ty, a, n) == Encode(reg, ty, b, n) && SameObs(a, b)
  {
    hide Encode, Decode, WellTyped, Fits, SameObs, WellFormed, Known, Fresh;
    var x, y := Encode(reg, ty, a, n).value, Encode(reg, ty, b, n).value;
    var prefix := Zeros(n);
    var suffix := y[|x|..];
    CdrRoundTrip.FreshRoundTrip(reg, ty, a, prefix, suffix);
    CdrRoundTrip.FreshRoundTrip(reg, ty, b, prefix, []);
    assert prefix + x + suffix == prefix + y + [];
    var r := Decode(reg, ty, Fresh(reg, ty), prefix + y + [], n).value;
    assert |x| == |y|;
    assert x == y;
    SameObsSymmetric(r.0, a);
    SameObsTransitive(a, r.0, b);
  }

  /** Two objects have the same encoding exactly when getters cannot tell them apart. */
  lemma SameBytesIff(reg: Registry, ty: Ty, a: Obj, b: Obj, n: nat)
    requires WellFormed(reg) && Known(reg, ty)
    requires WellTyped(reg, ty, a) && Fits(a) && WellTyped(reg, ty, b) && Fits(b)
    ensures Encode(reg, ty, a, n) == Encode(reg, ty, b, n) <==> SameObs(a, b)
  {
    CdrRoundTrip.EncodeSucceeds(reg, ty, a, n);
    if Encode(reg, ty, a, n) == Encode(reg, ty, b, n) {
      PrefixFree(reg, ty, a, b, n);
    }
    if SameObs(a, b) {
      EncodeDepends(reg, ty, a, b, n, n);
    }
  }

  // -- a decode reads nothing past where it stops --------------------------------------------------------

  lemma AgreeLess(buf: seq<byte>, buf': seq<byte>, j: nat, k: nat)
    requires j <= k && AgreeTo(buf, buf', k)
    ensures AgreeTo(buf, buf', j)
  {
    assert buf[..j] == buf[..k][..j] == buf'[..k][..j] == buf'[..j];
  }

  /** A successful decode depends only on the bytes before its final offset. */
  lemma {:induction false} DecodeLocal(reg: Registry, ty: Ty, target: Obj, buf: seq<byte>, buf': seq<byte>, off: nat)
    requires off <= |buf|
    requires Decode(reg, ty, target, buf, off).Ok?
    requires AgreeTo(buf, buf', Decode(reg, ty, target, buf, off).value.1)
    ensures Decode(reg, ty, target, buf', off) == Decode(reg, ty, target, buf, off)
    decreases |buf| - off, 0, target, 2
  {
    hide AgreeTo, DecodeNamed, DecodeItems, DecodePrim, DecodeWord;
    var end := Decode(reg, ty, target, buf, off).value.1;
    assert end <= |buf'| by { Bounded(buf, buf', end); }
    match ty
    case PrimTy(p) =>
      Bounded(buf, buf', end);
      PrimLocal(p, buf, buf', off);
    case OptTy(e) =>
      var (flag, at) := DecodePrim(PBool, buf, off).value;
      AgreeLess(buf, buf', at, end);
      Bounded(buf, buf', at);
      PrimLocal(PBool, buf, buf', off);
      if flag.b {
        DecodeLocal(reg, e, target.o, buf, buf', at);
      }
    case ListTy(e, max) =>
      var (cnt, at) := DecodeWord(buf, off, 4).value;
      AgreeLess(buf, buf', at, end);
      Bounded(buf, buf', at);
      WordLocal(4, buf, buf', off, end);
      DecodeItemsLocal(reg, e, max, cnt, 0, buf, buf', at);
    case NamedTy(t) =>
      DecodeNamedLocal(reg, reg[t].handler, target, buf, buf', off);
  }

  lemma Bounded(buf: seq<byte>, buf': seq<byte>, k: nat)
    requires AgreeTo(buf, buf', k)
    ensures k <= |buf| && k <= |buf'| && buf[..k] == buf'[..k]
  {
  }

  lemma {:induction false} DecodeNamedLocal(reg: Registry, h: Handler, target: Obj, buf: seq<byte>, buf': seq<byte>, off: nat)
    requires off <= |buf| && off <= |buf'|
    requires DecodeNamed(reg, h, target, buf, off).Ok?
    requires AgreeTo(buf, buf', DecodeNamed(reg, h, target, buf, off).value.1)
    ensures DecodeNamed(reg, h, target, buf', off) == DecodeNamed(reg, h, target, buf, off)
    decreases |buf| - off, 0, target, 1
  {
    hide AgreeTo, Decode, DecodeMembers, DecodeChoice, DecodeWord;
    var end := DecodeNamed(reg, h, target, buf, off).value.1;
    match h
    case EnumHandler(_) =>
      WordLocal(4, buf, buf', off, end);
    case StructHandler(base, choice, fields) =>
      var at := off;
      if base.Some? {
        at := Decode(reg, NamedTy(base.value), target.base.value, buf, off).value.1;
      }
      var at' := DecodeChoice(reg, choice, target, buf, at).value.1;
      AgreeLess(buf, buf', at, end);
      AgreeLess(buf, buf', at', end);
      Bounded(buf, buf', at);
      Bounded(buf, buf', at');
      if base.Some? {
        DecodeLocal(reg, NamedTy(base.value), target.base.value, buf, buf', off);
      }
      DecodeChoiceLocal(reg, choice, target, buf, buf', at);
      DecodeMembersLocal(reg, fields, target.fields, buf, buf', at');
  }

  lemma {:induction false} DecodeChoiceLocal(reg: Registry, choice: Option<seq<Member>>, target: Obj, buf: seq<byte>, buf': seq<byte>, off: nat)
    requires target.StructObj?
    requires off <= |buf| && off <= |buf'|
    requires DecodeChoice(reg, choice, target, buf, off).Ok?
    requires AgreeTo(buf, buf', DecodeChoice(reg, choice, target, buf, off).value.1)
    ensures DecodeChoice(reg, choice, target, buf', off) == DecodeChoice(reg, choice, target, buf, off)
    decreases |buf| - off, 0, target, 0
  {
    hide AgreeTo, Decode, DecodeWord;
    if choice.Some? {
      var end := DecodeChoice(reg, choice, target, buf, off).value.1;
      var (ord, at) := DecodeWord(buf, off, 4).value;
      AgreeLess(buf, buf', at, end);
      Bounded(buf, buf', at);
      WordLocal(4, buf, buf', off, end);
      if 1 <= ord <= |choice.value| {
        DecodeLocal(reg, choice.value[ord - 1].ty, target.variants[ord - 1], buf, buf', at);
      }
    }
  }

  lemma {:induction false} DecodeMembersLocal(reg: Registry, ms: seq<Member>, targets: seq<Obj>, buf: seq<byte>, buf': seq<byte>, off: nat)
    requires off <= |buf| && off <= |buf'|
    requires DecodeMembers(reg, ms, targets, buf, off).Ok?
    requires AgreeTo(buf, buf', DecodeMembers(reg, ms, targets, buf, off).value.1)
    ensures DecodeMembers(reg, ms, targets, buf', off) == DecodeMembers(reg, ms, targets, buf, off)
    decreases |buf| - off, 0, targets, 0
  {
    hide AgreeTo, Decode;
    if targets != [] {
      var end := DecodeMembers(reg, ms, targets, buf, off).value.1;
      var at := Decode(reg, ms[0].ty, targets[0], buf, off).value.1;
      AgreeLess(buf, buf', at, end);
      Bounded(buf, buf', at);
      DecodeLocal(reg, ms[0].ty, targets[0], buf, buf', off);
      DecodeMembersLocal(reg, ms[1..], targets[1..], buf, buf', at);
    }
  }

  lemma {:induction false} DecodeItemsLocal(reg: Registry, elem: Ty, max: Option<nat>, cnt: nat, size: nat, buf: seq<byte>, buf': seq<byte>, off: nat)
    requires off <= |buf| && off <= |buf'|
    requires DecodeItems(reg, elem, max, cnt, size, buf, off).Ok?
    requires AgreeTo(buf, buf', DecodeItems(reg, elem, max, cnt, size, buf, off).value.1)
    ensures DecodeItems(reg, elem, max, cnt, size, buf', off) == DecodeItems(reg, elem, max, cnt, size, buf, off)
    decreases |buf| - off, 1, cnt
  {
    hide AgreeTo, Decode, Fresh;
    if cnt > 0 {
      var end := DecodeItems(reg, elem, max, cnt, size, buf, off).value.1;
      var at := Decode(reg, elem, Fresh(reg, elem), buf, off).value.1;
      AgreeLess(buf, buf', at, end);
      Bounded(buf, buf', at);
      DecodeLocal(reg, elem, Fresh(reg, elem), buf, buf', off);
      DecodeItemsLocal(reg, elem, max, cnt - 1, size + 1, buf, buf', at);
    }
  }

  /** Every proper prefix of an encoding is rejected, whatever the target. */
  lemma TruncationDetected(reg: Registry, ty: Ty, target: Obj, o: Obj, prefix: seq<byte>, k: nat)
    requires WellFormed(reg) && Known(reg, ty)
    requires WellTyped(reg, ty, target) && WellTyped(reg, ty, o) && Fits(o)
    requires Encode(reg, ty, o, |prefix|).Ok? && k < |Encode(reg, ty, o, |prefix|).value|
    ensures Decode(reg, ty, target, prefix + Encode(reg, ty, o, |prefix|).value[..k], |prefix|).Err?
  {
    hide Encode, Decode, WellTyped, Fits, SameObs, NoLeak, WellFormed, Known;
    var e := Encode(reg, ty, o, |prefix|).value;
    var cut, whole := prefix + e[..k], prefix + e + [];
    CdrRoundTrip.RoundTrip(reg, ty, target, o, prefix, []);
    if Decode(reg, ty, target, cut, |prefix|).Ok? {
      var end := Decode(reg, ty, target, cut, |prefix|).value.1;
      assert cut == whole[..|cut|];
      assert cut[..end] == whole[..end];
      DecodeLocal(reg, ty, target, cut, whole, |prefix|);
    }
  }

  // -- arbitrary bytes never make an ill-typed object ------------------------------------------------------

  /** Whatever the bytes, a decode that succeeds leaves an object of its type in the target: every
      number in range and no bounded list beyond its maximum. */
  lemma {:induction false} DecodeTyped(reg: Registry, ty: Ty, target: Obj, buf: seq<byte>, off: nat)
    requires WellFormed(reg) && Known(reg, ty) && WellTyped(reg, ty, target)
    requires off <= |buf| && Decode(reg, ty, target, buf, off).Ok?
    ensures WellTyped(reg, ty, Decode(reg, ty, target, buf, off).value.0)
    decreases |buf| - off, 0, target, 2
  {
    hide DecodeNamed, DecodeItems, DecodeWord, WellFormed;
    match ty
    case PrimTy(_) =>
    case OptTy(e) =>
      var (flag, at) := DecodePrim(PBool, buf, off).value;
      if flag.b { DecodeTyped(reg, e, target.o, buf, at); }
    case ListTy(e, max) =>
      var (cnt, at) := DecodeWord(buf, off, 4).value;
      DecodeItemsTyped(reg, e, max, cnt, 0, buf, at);
    case NamedTy(t) => DecodeNamedTyped(reg, t, target, buf, off);
  }

  lemma {:induction false} DecodeNamedTyped(reg: Registry, t: Name, target: Obj, buf: seq<byte>, off: nat)
    requires WellFormed(reg) && t in reg && WellTyped(reg, NamedTy(t), target)
    requires off <= |buf| && DecodeNamed(reg, reg[t].handler, target, buf, off).Ok?
    ensures WellTyped(reg, NamedTy(t), DecodeNamed(reg, reg[t].handler, target, buf, off).value.0)
    decreases |buf| - off, 0, target, 1
  {
    hide Decode, DecodeMembers, DecodeChoice, DecodeWord;
    SpanFour();
    match reg[t].handler
    case EnumHandler(_) =>
    case StructHandler(base, choice, fields) =>
      assert HandlerKnown(reg, reg[t].handler);
      var at := off;
      if base.Some? {
        DecodeTyped(reg, NamedTy(base.value), target.base.value, buf, off);
        at := Decode(reg, NamedTy(base.value), target.base.value, buf, off).value.1;
      }
      DecodeChoiceTyped(reg, choice, target, buf, at);
      var at' := DecodeChoice(reg, choice, target, buf, at).value.1;
      DecodeMembersTyped(reg, fields, target.fields, buf, at');
  }

  lemma {:induction false} DecodeChoiceTyped(reg: Registry, choice: Option<seq<Member>>, target: Obj, buf: seq<byte>, off: nat)
    requires WellFormed(reg) && (choice.Some? ==> AllKnown(reg, choice.value))
    requires target.StructObj? && ChoiceTyped(reg, choice, target)
    requires off <= |buf| && DecodeChoice(reg, choice, target, buf, off).Ok?
    ensures ChoiceTyped(reg, choice, DecodeChoice(reg, choice, target, buf, off).value.0)
    decreases |buf| - off, 0, target, 0
  {
    hide Decode, DecodeWord, WellTyped, WellFormed;
    if choice.Some? {
      var (ord, at) := DecodeWord(buf, off, 4).value;
      if 1 <= ord <= |choice.value| {
        DecodeTyped(reg, choice.value[ord - 1].ty, target.variants[ord - 1], buf, at);
      }
    }
  }

  lemma {:induction false} DecodeMembersTyped(reg: Registry, ms: seq<Member>, targets: seq<Obj>, buf: seq<byte>, off: nat)
    requires WellFormed(reg) && AllKnown(reg, ms) && MembersTyped(reg, ms, targets)
    requires off <= |buf| && DecodeMembers(reg, ms, targets, buf, off).Ok?
    ensures MembersTyped(reg, ms, DecodeMembers(reg, ms, targets, buf, off).value.0)
    decreases |buf| - off, 0, targets, 0
  {
    hide Decode, WellTyped, WellFormed, Known;
    if targets != [] {
      var (o, at) := Decode(reg, ms[0].ty, targets[0], buf, off).value;
      DecodeTyped(reg, ms[0].ty, targets[0], buf, off);
      DecodeMembersTyped(reg, ms[1..], targets[1..], buf, at);
      var os := DecodeMembers(reg, ms[1..], targets[1..], buf, at).value.0;
      forall i | 0 <= i < |targets|
        ensures WellTyped(reg, ms[i].ty, ([o] + os)[i])
      {
        if i > 0 { assert ms[i] == ms[1..][i - 1]; }
      }
    }
  }

  lemma {:induction false} DecodeItemsTyped(reg: Registry, elem: Ty, max: Option<nat>, cnt: nat, size: nat, buf: seq<byte>, off: nat)
    requires WellFormed(reg) && Known(reg, elem)
    requires max.Some? ==> size <= max.value
    requires off <= |buf| && DecodeItems(reg, elem, max, cnt, size, buf, off).Ok?
    ensures ItemsTyped(reg, elem, DecodeItems(reg, elem, max, cnt, size, buf, off).value.0)
    ensures max.Some? ==> size + cnt <= max.value
    decreases |buf| - off, 1, cnt
  {
    hide Decode, WellTyped, WellFormed, Known, Fresh;
    if cnt > 0 {
      FreshTyped(reg, elem);
      var (o, at) := Decode(reg, elem, Fresh(reg, elem), buf, off).value;
      DecodeTyped(reg, elem, Fresh(reg, elem), buf, off);
      DecodeItemsTyped(reg, elem, max, cnt - 1, size + 1, buf, at);
    }
  }
}
