/** Two registries that agree on a closed set of types speak the same bytes about them, and no
    lookup misses. */
module CdrAgreement {
  import opened Results
  import opened Bytes
  import opened CdrPrimitives
  import opened Accessors
  import opened CdrCodec

  /** `small` registers some of the types of `big`, with the same code and default constructors. */
  ghost predicate Part(small: Registry, big: Registry) {
    Closed(small) && forall t :: t in small ==> t in big && small[t] == big[t]
  }

  lemma {:induction false} FreshAgrees(small: Registry, big: Registry, ty: Ty)
    requires Part(small, big) && Known(small, ty)
    ensures Fresh(small, ty) == Fresh(big, ty)
  {
    match ty
    case PrimTy(_) =>
    case NamedTy(_) =>
    case OptTy(e) => FreshAgrees(small, big, e);
    case ListTy(_, _) =>
  }

  /** Serializing any object, well typed or not. */
  lemma {:induction false} EncodeAgrees(small: Registry, big: Registry, ty: Ty, o: Obj, n: nat)
    requires Part(small, big) && Known(small, ty)
    ensures Encode(small, ty, o, n) == Encode(big, ty, o, n)
    ensures Encode(small, ty, o, n) != Err(NoHandler)
    decreases o, 2
  {
    hide EncodeItems, EncodePrim, EncodeLength, EncodeNamed;
    match ty
    case PrimTy(_) =>
    case OptTy(e) => if o.OptObj? && o.has { EncodeAgrees(small, big, e, o.o, n + 1); }
    case ListTy(e, _) =>
      if o.ListObj? { EncodeItemsAgree(small, big, e, o.items, n + |EncodeLength(|o.items|, n)|); }
    case NamedTy(t) => EncodeNamedAgrees(small, big, small[t].handler, o, n);
  }

  lemma {:induction false} EncodeNamedAgrees(small: Registry, big: Registry, h: Handler, o: Obj, n: nat)
    requires Part(small, big) && HandlerKnown(small, h)
    ensures EncodeNamed(small, h, o, n) == EncodeNamed(big, h, o, n)
    ensures EncodeNamed(small, h, o, n) != Err(NoHandler)
    decreases o, 1
  {
    hide Encode, EncodeMembers, EncodeChoice, EncodeWord, Part;
    match h
    case EnumHandler(_) =>
    case StructHandler(base, choice, fields) =>
      if o.StructObj? && base.Some? == o.base.Some? {
        var k := 0;
        if base.Some? {
          EncodeAgrees(small, big, NamedTy(base.value), o.base.value, n);
          if Encode(small, NamedTy(base.value), o.base.value, n).Err? { return; }
          k := |Encode(small, NamedTy(base.value), o.base.value, n).value|;
        }
        EncodeChoiceAgrees(small, big, choice, o, n + k);
        if EncodeChoice(small, choice, o, n + k).Ok? {
          EncodeMembersAgree(small, big, fields, o.fields, n + k + |EncodeChoice(small, choice, o, n + k).value|);
        }
      }
  }

  lemma {:induction false} EncodeChoiceAgrees(small: Registry, big: Registry, choice: Option<seq<Member>>, o: Obj, n: nat)
    requires Part(small, big) && (choice.Some? ==> AllKnown(small, choice.value))
    requires o.StructObj?
    ensures EncodeChoice(small, choice, o, n) == EncodeChoice(big, choice, o, n)
    ensures EncodeChoice(small, choice, o, n) != Err(NoHandler)
    decreases o, 0
  {
    hide Encode, EncodeWord, Part;
    if choice.Some? && |choice.value| == |o.variants| && o.ord < U32 && 1 <= o.ord <= |o.variants| {
      EncodeAgrees(small, big, choice.value[o.ord - 1].ty, o.variants[o.ord - 1], n + |EncodeWord(o.ord, 4, n)|);
    }
  }

  lemma {:induction false} EncodeMembersAgree(small: Registry, big: Registry, ms: seq<Member>, os: seq<Obj>, n: nat)
    requires Part(small, big) && AllKnown(small, ms)
    ensures EncodeMembers(small, ms, os, n) == EncodeMembers(big, ms, os, n)
    ensures EncodeMembers(small, ms, os, n) != Err(NoHandler)
    decreases os, 0
  {
    hide Encode, Part, Known;
    if |ms| == |os| && os != [] {
      EncodeAgrees(small, big, ms[0].ty, os[0], n);
      if Encode(small, ms[0].ty, os[0], n).Ok? {
        EncodeMembersAgree(small, big, ms[1..], os[1..], n + |Encode(small, ms[0].ty, os[0], n).value|);
      }
    }
  }

  lemma {:induction false} EncodeItemsAgree(small: Registry, big: Registry, elem: Ty, os: seq<Obj>, n: nat)
    requires Part(small, big) && Known(small, elem)
    ensures EncodeItems(small, elem, os, n) == EncodeItems(big, elem, os, n)
    ensures EncodeItems(small, elem, os, n) != Err(NoHandler)
    decreases os, 0
  {
    hide Encode, Part, Known;
    if os != [] {
      EncodeAgrees(small, big, elem, os[0], n);
      if Encode(small, elem, os[0], n).Ok? {
        EncodeItemsAgree(small, big, elem, os[1..], n + |Encode(small, elem, os[0], n).value|);
      }
    }
  }

  /** Deserializing any bytes into any target. */
  lemma {:induction false} DecodeAgrees(small: Registry, big: Registry, ty: Ty, target: Obj, buf: seq<byte>, off: nat)
    requires Part(small, big) && Known(small, ty) && off <= |buf|
    ensures Decode(small, ty, target, buf, off) == Decode(big, ty, target, buf, off)
    ensures Decode(small, ty, target, buf, off) != Err(NoHandler)
    decreases |buf| - off, 0, target, 2
  {
    hide DecodeItems, DecodeNamed;
    match ty
    case PrimTy(_) =>
    case OptTy(e) =>
      if target.OptObj? && DecodePrim(PBool, buf, off).Ok? {
        DecodeAgrees(small, big, e, target.o, buf, DecodePrim(PBool, buf, off).value.1);
      }
    case ListTy(e, max) =>
      if target.ListObj? && DecodeWord(buf, off, 4).Ok? {
        var (cnt, at) := DecodeWord(buf, off, 4).value;
        DecodeItemsAgree(small, big, e, max, cnt, 0, buf, at);
      }
    case NamedTy(t) => DecodeNamedAgrees(small, big, small[t].handler, target, buf, off);
  }

  lemma {:induction false} DecodeNamedAgrees(small: Registry, big: Registry, h: Handler, target: Obj, buf: seq<byte>, off: nat)
    requires Part(small, big) && HandlerKnown(small, h) && off <= |buf|
    ensures DecodeNamed(small, h, target, buf, off) == DecodeNamed(big, h, target, buf, off)
    ensures DecodeNamed(small, h, target, buf, off) != Err(NoHandler)
    decreases |buf| - off, 0, target, 1
  {
    hide Decode, DecodeMembers, DecodeChoice, DecodeWord, Part;
    match h
    case EnumHandler(_) => WordNeverMisses(buf, off);
    case StructHandler(base, choice, fields) =>
      if target.StructObj? && base.Some? == target.base.Some? {
        var at := off;
        if base.Some? {
          DecodeAgrees(small, big, NamedTy(base.value), target.base.value, buf, off);
          if Decode(small, NamedTy(base.value), target.base.value, buf, off).Err? { return; }
          at := Decode(small, NamedTy(base.value), target.base.value, buf, off).value.1;
        }
        DecodeChoiceAgrees(small, big, choice, target, buf, at);
        if DecodeChoice(small, choice, target, buf, at).Ok? {
          DecodeMembersAgree(small, big, fields, target.fields, buf, DecodeChoice(small, choice, target, buf, at).value.1);
        }
      }
  }

  lemma WordNeverMisses(buf: seq<byte>, off: nat)
    ensures DecodeWord(buf, off, 4) != Err(NoHandler)
  {
  }

  lemma {:induction false} DecodeChoiceAgrees(small: Registry, big: Registry, choice: Option<seq<Member>>, target: Obj, buf: seq<byte>, off: nat)
    requires Part(small, big) && (choice.Some? ==> AllKnown(small, choice.value))
    requires target.StructObj? && off <= |buf|
    ensures DecodeChoice(small, choice, target, buf, off) == DecodeChoice(big, choice, target, buf, off)
    ensures DecodeChoice(small, choice, target, buf, off) != Err(NoHandler)
    decreases |buf| - off, 0, target, 0
  {
    hide Decode, DecodeWord, Part;
    WordNeverMisses(buf, off);
    if choice.Some? && |choice.value| == |target.variants| && DecodeWord(buf, off, 4).Ok? {
      var (ord, at) := DecodeWord(buf, off, 4).value;
      if 1 <= ord <= |choice.value| {
        DecodeAgrees(small, big, choice.value[ord - 1].ty, target.variants[ord - 1], buf, at);
      }
    }
  }

  lemma {:induction false} DecodeMembersAgree(small: Registry, big: Registry, ms: seq<Member>, targets: seq<Obj>, buf: seq<byte>, off: nat)
    requires Part(small, big) && AllKnown(small, ms) && off <= |buf|
    ensures DecodeMembers(small, ms, targets, buf, off) == DecodeMembers(big, ms, targets, buf, off)
    ensures DecodeMembers(small, ms, targets, buf, off) != Err(NoHandler)
    decreases |buf| - off, 0, targets, 0
  {
    hide Decode, Part, Known;
    if |ms| == |targets| && targets != [] {
      DecodeAgrees(small, big, ms[0].ty, targets[0], buf, off);
      if Decode(small, ms[0].ty, targets[0], buf, off).Ok? {
        DecodeMembersAgree(small, big, ms[1..], targets[1..], buf, Decode(small, ms[0].ty, targets[0], buf, off).value.1);
      }
    }
  }

  lemma {:induction false} DecodeItemsAgree(small: Registry, big: Registry, elem: Ty, max: Option<nat>, cnt: nat, size: nat, buf: seq<byte>, off: nat)
    requires Part(small, big) && Known(small, elem) && off <= |buf|
    ensures DecodeItems(small, elem, max, cnt, size, buf, off) == DecodeItems(big, elem, max, cnt, size, buf, off)
    ensures DecodeItems(small, elem, max, cnt, size, buf, off) != Err(NoHandler)
    decreases |buf| - off, 1, cnt
  {
    hide Decode, Part, Known, Fresh;
    if cnt > 0 {
      FreshAgrees(small, big, elem);
      DecodeAgrees(small, big, elem, Fresh(small, elem), buf, off);
      var first := Decode(small, elem, Fresh(small, elem), buf, off);
      if first.Ok? {
        var at := first.value.1;
        if max.None? || size < max.value {
          DecodeItemsAgree(small, big, elem, max, cnt - 1, size + 1, buf, at);
        }
      }
    }
  }
}
