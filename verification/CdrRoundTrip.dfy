/** Serializing and deserializing: the round trip into any target, when stale state leaks
    through it, and that an encoding determines what it encodes. */
module CdrRoundTrip {
  import opened Results
  import opened Bytes
  import opened CdrPrimitives
  import opened Accessors
  import opened CdrCodec

  // -- encoding succeeds on every well-typed object --------------------------------------------

  lemma {:induction false} EncodeSucceeds(reg: Registry, ty: Ty, o: Obj, n: nat)
    requires WellTyped(reg, ty, o)
    ensures Encode(reg, ty, o, n).Ok?
    decreases o, 2
  {
    hide EncodeNamed, EncodeItems;
    match ty
    case PrimTy(_) =>
    case OptTy(e) => if o.has { EncodeSucceeds(reg, e, o.o, n + 1); }
    case ListTy(e, _) => EncodeItemsSucceeds(reg, e, o.items, n + |EncodeLength(|o.items|, n)|);
    case NamedTy(t) => EncodeNamedSucceeds(reg, t, o, n);
  }

  lemma {:induction false} EncodeNamedSucceeds(reg: Registry, t: Name, o: Obj, n: nat)
    requires WellTyped(reg, NamedTy(t), o)
    ensures EncodeNamed(reg, reg[t].handler, o, n).Ok?
    decreases o, 1
  {
    hide Encode, EncodeMembers;
    match reg[t].handler
    case EnumHandler(_) =>
    case StructHandler(base, choice, fields) =>
      var b := [];
      if base.Some? {
        EncodeSucceeds(reg, NamedTy(base.value), o.base.value, n);
        b := Encode(reg, NamedTy(base.value), o.base.value, n).value;
      }
      if choice.Some? && 1 <= o.ord {
        var ord := EncodeWord(o.ord, 4, n + |b|);
        EncodeSucceeds(reg, choice.value[o.ord - 1].ty, o.variants[o.ord - 1], n + |b| + |ord|);
      }
      var c := EncodeChoice(reg, choice, o, n + |b|).value;
      EncodeMembersSucceeds(reg, fields, o.fields, n + |b| + |c|);
  }

  lemma {:induction false} EncodeMembersSucceeds(reg: Registry, ms: seq<Member>, os: seq<Obj>, n: nat)
    requires MembersTyped(reg, ms, os)
    ensures EncodeMembers(reg, ms, os, n).Ok?
    decreases os, 0
  {
    hide Encode, WellTyped;
    if os != [] {
      EncodeSucceeds(reg, ms[0].ty, os[0], n);
      EncodeMembersSucceeds(reg, ms[1..], os[1..], n + |Encode(reg, ms[0].ty, os[0], n).value|);
    }
  }

  lemma {:induction false} EncodeItemsSucceeds(reg: Registry, elem: Ty, os: seq<Obj>, n: nat)
    requires ItemsTyped(reg, elem, os)
    ensures EncodeItems(reg, elem, os, n).Ok?
    decreases os, 0
  {
    hide Encode, WellTyped;
    if os != [] {
      EncodeSucceeds(reg, elem, os[0], n);
      EncodeItemsSucceeds(reg, elem, os[1..], n + |Encode(reg, elem, os[0], n).value|);
    }
  }

  // -- the round trip ------------------------------------------------------------------------------

  /** Wherever the bytes of `o` stand, decoding them into any target of the type overlays `o` on
      the target and stops right after them. */
  lemma {:induction false} DecodeEncoded(reg: Registry, ty: Ty, target: Obj, o: Obj, buf: seq<byte>, off: nat)
    requires WellFormed(reg) && Known(reg, ty)
    requires WellTyped(reg, ty, target) && WellTyped(reg, ty, o) && Fits(o)
    requires off <= |buf|
    requires Encode(reg, ty, o, off).Ok? && At(buf, off, Encode(reg, ty, o, off).value)
    ensures Decode(reg, ty, target, buf, off) ==
            Ok((Overlay(reg, ty, target, o), off + |Encode(reg, ty, o, off).value|))
    decreases o, 2
  {
    hide At, EncodeNamed, DecodeNamed, OverlayNamed, EncodeItems, DecodeItems, OverlayItems, DecodeWord, EncodeWord, WellFormed;
    match ty
    case PrimTy(p) =>
      PrimRoundTrip(p, o.v, buf, off);
    case OptTy(elem) =>
      if o.has {
        var inner := Encode(reg, elem, o.o, off + 1).value;
        AtSplit(buf, off, [1], inner);
        PrimRoundTrip(PBool, BoolV(true), buf, off);
        DecodeEncoded(reg, elem, target.o, o.o, buf, off + 1);
      } else {
        PrimRoundTrip(PBool, BoolV(false), buf, off);
      }
    case ListTy(elem, max) =>
      var len := EncodeLength(|o.items|, off);
      var items := EncodeItems(reg, elem, o.items, off + |len|).value;
      AtSplit(buf, off, len, items);
      SpanFour();
      WordRoundTrip(buf, off, |o.items|, 4);
      DecodeEncodedItems(reg, elem, max, 0, o.items, buf, off + |len|);
    case NamedTy(t) =>
      DecodeEncodedNamed(reg, t, target, o, buf, off);
  }

  lemma {:induction false} DecodeEncodedNamed(reg: Registry, t: Name, target: Obj, o: Obj, buf: seq<byte>, off: nat)
    requires WellFormed(reg) && t in reg
    requires WellTyped(reg, NamedTy(t), target) && WellTyped(reg, NamedTy(t), o) && Fits(o)
    requires off <= |buf|
    requires EncodeNamed(reg, reg[t].handler, o, off).Ok? && At(buf, off, EncodeNamed(reg, reg[t].handler, o, off).value)
    ensures DecodeNamed(reg, reg[t].handler, target, buf, off) ==
            Ok((OverlayNamed(reg, reg[t].handler, target, o), off + |EncodeNamed(reg, reg[t].handler, o, off).value|))
    decreases o, 1
  {
    hide At, Encode, Decode, Overlay, EncodeMembers, DecodeMembers, OverlayMembers, DecodeWord, EncodeWord,
         EncodeChoice, DecodeChoice, OverlayChoice;
    SpanFour();
    match reg[t].handler
    case EnumHandler(_) =>
      WordRoundTrip(buf, off, o.item, 4);
    case StructHandler(base, choice, fields) =>
      assert HandlerKnown(reg, reg[t].handler);
      var b := if base.Some? then Encode(reg, NamedTy(base.value), o.base.value, off).value else [];
      var c := EncodeChoice(reg, choice, o, off + |b|).value;
      var f := EncodeMembers(reg, fields, o.fields, off + |b| + |c|).value;
      AtSplit(buf, off, b + c, f);
      AtSplit(buf, off, b, c);
      if base.Some? {
        DecodeEncoded(reg, NamedTy(base.value), target.base.value, o.base.value, buf, off);
      }
      DecodeEncodedChoice(reg, choice, target, o, buf, off + |b|);
      DecodeEncodedMembers(reg, fields, target.fields, o.fields, buf, off + |b| + |c|);
  }

  lemma {:induction false} DecodeEncodedChoice(reg: Registry, choice: Option<seq<Member>>, target: Obj, o: Obj, buf: seq<byte>, off: nat)
    requires WellFormed(reg) && (choice.Some? ==> AllKnown(reg, choice.value))
    requires target.StructObj? && ChoiceTyped(reg, choice, target)
    requires o.StructObj? && ChoiceTyped(reg, choice, o)
    requires 1 <= o.ord <= |o.variants| ==> Fits(o.variants[o.ord - 1])
    requires off <= |buf|
    requires EncodeChoice(reg, choice, o, off).Ok? && At(buf, off, EncodeChoice(reg, choice, o, off).value)
    ensures DecodeChoice(reg, choice, target, buf, off) ==
            Ok((OverlayChoice(reg, choice, target, o), off + |EncodeChoice(reg, choice, o, off).value|))
    decreases o, 0
  {
    hide At, Encode, Decode, Overlay, DecodeWord, EncodeWord, WellTyped, WellFormed;
    if choice.Some? {
      SpanFour();
      var ord := EncodeWord(o.ord, 4, off);
      if o.ord >= 1 {
        var ty := choice.value[o.ord - 1].ty;
        var v := Encode(reg, ty, o.variants[o.ord - 1], off + |ord|).value;
        AtSplit(buf, off, ord, v);
        WordRoundTrip(buf, off, o.ord, 4);
        DecodeEncoded(reg, ty, target.variants[o.ord - 1], o.variants[o.ord - 1], buf, off + |ord|);
      } else {
        WordRoundTrip(buf, off, o.ord, 4);
      }
    }
  }

  lemma {:induction false} DecodeEncodedMembers(reg: Registry, ms: seq<Member>, targets: seq<Obj>, os: seq<Obj>, buf: seq<byte>, off: nat)
    requires WellFormed(reg) && AllKnown(reg, ms)
    requires MembersTyped(reg, ms, targets) && MembersTyped(reg, ms, os)
    requires forall i :: 0 <= i < |os| ==> Fits(os[i])
    requires off <= |buf|
    requires EncodeMembers(reg, ms, os, off).Ok? && At(buf, off, EncodeMembers(reg, ms, os, off).value)
    ensures DecodeMembers(reg, ms, targets, buf, off) ==
            Ok((OverlayMembers(reg, ms, targets, os), off + |EncodeMembers(reg, ms, os, off).value|))
    decreases os, 0
  {
    hide At, Encode, Decode, Overlay, WellTyped, Fits, Known, WellFormed;
    if os != [] {
      var a := Encode(reg, ms[0].ty, os[0], off).value;
      var b := EncodeMembers(reg, ms[1..], os[1..], off + |a|).value;
      AtSplit(buf, off, a, b);
      DecodeEncoded(reg, ms[0].ty, targets[0], os[0], buf, off);
      DecodeEncodedMembers(reg, ms[1..], targets[1..], os[1..], buf, off + |a|);
    }
  }

  lemma {:induction false} DecodeEncodedItems(reg: Registry, elem: Ty, max: Option<nat>, size: nat, os: seq<Obj>, buf: seq<byte>, off: nat)
    requires WellFormed(reg) && Known(reg, elem)
    requires ItemsTyped(reg, elem, os) && (max.Some? ==> size + |os| <= max.value)
    requires forall i :: 0 <= i < |os| ==> Fits(os[i])
    requires off <= |buf|
    requires EncodeItems(reg, elem, os, off).Ok? && At(buf, off, EncodeItems(reg, elem, os, off).value)
    ensures DecodeItems(reg, elem, max, |os|, size, buf, off) ==
            Ok((OverlayItems(reg, elem, os), off + |EncodeItems(reg, elem, os, off).value|))
    decreases os, 0
  {
    hide At, Encode, Decode, Overlay, WellTyped, Fits, Known, WellFormed, Fresh;
    if os != [] {
      var a := Encode(reg, elem, os[0], off).value;
      var b := EncodeItems(reg, elem, os[1..], off + |a|).value;
      AtSplit(buf, off, a, b);
      FreshTyped(reg, elem);
      DecodeEncoded(reg, elem, Fresh(reg, elem), os[0], buf, off);
      DecodeEncodedItems(reg, elem, max, size + 1, os[1..], buf, off + |a|);
    }
  }

  // -- what shows through an overlay ------------------------------------------------------------------

  lemma {:induction false} CleanNeverLeaks(reg: Registry, ty: Ty, target: Obj, o: Obj)
    requires WellTyped(reg, ty, target) && WellTyped(reg, ty, o) && Clean(target)
    ensures NoLeak(target, o)
    decreases o
  {
    match ty
    case PrimTy(_) =>
    case OptTy(e) => if o.has { CleanNeverLeaks(reg, e, target.o, o.o); }
    case ListTy(_, _) =>
    case NamedTy(t) =>
      match reg[t].handler
      case EnumHandler(_) =>
      case StructHandler(base, choice, fields) =>
        if base.Some? { CleanNeverLeaks(reg, NamedTy(base.value), target.base.value, o.base.value); }
        if o.ord >= 1 {
          CleanNeverLeaks(reg, choice.value[o.ord - 1].ty, target.variants[o.ord - 1], o.variants[o.ord - 1]);
        }
        forall i | 0 <= i < |o.fields| { CleanNeverLeaks(reg, fields[i].ty, target.fields[i], o.fields[i]); }
  }

  /** The overlay is a well-typed object, and it looks like `o` exactly when nothing stale leaks. */
  lemma {:induction false} OverlayShows(reg: Registry, ty: Ty, target: Obj, o: Obj)
    requires WellFormed(reg) && Known(reg, ty)
    requires WellTyped(reg, ty, target) && WellTyped(reg, ty, o)
    ensures WellTyped(reg, ty, Overlay(reg, ty, target, o))
    ensures SameObs(Overlay(reg, ty, target, o), o) <==> NoLeak(target, o)
    decreases o, 2
  {
    hide OverlayNamed, OverlayItems, WellFormed;
    match ty
    case PrimTy(_) =>
    case OptTy(e) => if o.has { OverlayShows(reg, e, target.o, o.o); }
    case ListTy(e, _) => OverlayItemsShow(reg, e, o.items);
    case NamedTy(t) => OverlayNamedShows(reg, t, target, o);
  }

  lemma {:induction false} OverlayNamedShows(reg: Registry, t: Name, target: Obj, o: Obj)
    requires WellFormed(reg) && t in reg
    requires WellTyped(reg, NamedTy(t), target) && WellTyped(reg, NamedTy(t), o)
    ensures WellTyped(reg, NamedTy(t), OverlayNamed(reg, reg[t].handler, target, o))
    ensures SameObs(OverlayNamed(reg, reg[t].handler, target, o), o) <==> NoLeak(target, o)
    decreases o, 1
  {
    hide Overlay, OverlayMembers, OverlayChoice;
    match reg[t].handler
    case EnumHandler(_) =>
    case StructHandler(base, choice, fields) =>
      assert HandlerKnown(reg, reg[t].handler);
      if base.Some? { OverlayShows(reg, NamedTy(base.value), target.base.value, o.base.value); }
      OverlayChoiceShows(reg, choice, target, o);
      OverlayMembersShow(reg, fields, target.fields, o.fields);
  }

  lemma {:induction false} OverlayChoiceShows(reg: Registry, choice: Option<seq<Member>>, target: Obj, o: Obj)
    requires WellFormed(reg) && (choice.Some? ==> AllKnown(reg, choice.value))
    requires target.StructObj? && ChoiceTyped(reg, choice, target)
    requires o.StructObj? && ChoiceTyped(reg, choice, o)
    ensures var r := OverlayChoice(reg, choice, target, o);
            && ChoiceTyped(reg, choice, r)
            && ((r.ord == o.ord && (o.ord >= 1 ==> SameObs(r.variants[o.ord - 1], o.variants[o.ord - 1]))) <==>
                (if o.ord >= 1 then NoLeak(target.variants[o.ord - 1], o.variants[o.ord - 1]) else target.ord == 0))
    decreases o, 0
  {
    hide Overlay, WellTyped, WellFormed, SameObs, NoLeak;
    if o.ord >= 1 {
      OverlayShows(reg, choice.value[o.ord - 1].ty, target.variants[o.ord - 1], o.variants[o.ord - 1]);
    }
  }

  lemma {:induction false} OverlayMembersShow(reg: Registry, ms: seq<Member>, targets: seq<Obj>, os: seq<Obj>)
    requires WellFormed(reg) && AllKnown(reg, ms)
    requires MembersTyped(reg, ms, targets) && MembersTyped(reg, ms, os)
    ensures var r := OverlayMembers(reg, ms, targets, os);
            MembersTyped(reg, ms, r) &&
            forall i :: 0 <= i < |os| ==> (SameObs(r[i], os[i]) <==> NoLeak(targets[i], os[i]))
    decreases os, 0
  {
    hide Overlay, WellTyped, WellFormed, SameObs, NoLeak, Known;
    if os != [] {
      OverlayShows(reg, ms[0].ty, targets[0], os[0]);
      OverlayMembersShow(reg, ms[1..], targets[1..], os[1..]);
      var r, r' := OverlayMembers(reg, ms, targets, os), OverlayMembers(reg, ms[1..], targets[1..], os[1..]);
      forall i | 0 <= i < |os|
        ensures WellTyped(reg, ms[i].ty, r[i]) && (SameObs(r[i], os[i]) <==> NoLeak(targets[i], os[i]))
      {
        if i > 0 {
          assert r[i] == r'[i - 1] && os[i] == os[1..][i - 1] && targets[i] == targets[1..][i - 1] && ms[i] == ms[1..][i - 1];
        }
      }
    }
  }

  lemma {:induction false} OverlayItemsShow(reg: Registry, elem: Ty, os: seq<Obj>)
    requires WellFormed(reg) && Known(reg, elem) && ItemsTyped(reg, elem, os)
    ensures var r := OverlayItems(reg, elem, os);
            ItemsTyped(reg, elem, r) && forall i :: 0 <= i < |os| ==> SameObs(r[i], os[i])
    decreases os, 0
  {
    hide Overlay, WellTyped, WellFormed, SameObs, NoLeak, Known, Fresh;
    if os != [] {
      FreshTyped(reg, elem);
      CleanNeverLeaks(reg, elem, Fresh(reg, elem), os[0]);
      OverlayShows(reg, elem, Fresh(reg, elem), os[0]);
      OverlayItemsShow(reg, elem, os[1..]);
      var r, r' := OverlayItems(reg, elem, os), OverlayItems(reg, elem, os[1..]);
      forall i | 0 <= i < |os|
        ensures WellTyped(reg, elem, r[i]) && SameObs(r[i], os[i])
      {
        if i > 0 {
          assert r[i] == r'[i - 1] && os[i] == os[1..][i - 1];
        }
      }
    }
  }

  // -- main results --------------------------------------------------------------------------------------

  /** Serialize, then deserialize between any prefix and suffix into any target: the cursor ends
      right after the bytes, and the result looks like the object exactly when nothing leaks. */
  lemma RoundTrip(reg: Registry, ty: Ty, target: Obj, o: Obj, prefix: seq<byte>, suffix: seq<byte>)
    requires WellFormed(reg) && Known(reg, ty)
    requires WellTyped(reg, ty, target) && WellTyped(reg, ty, o) && Fits(o)
    ensures Encode(reg, ty, o, |prefix|).Ok?
    ensures var e := Encode(reg, ty, o, |prefix|).value;
            var r := Decode(reg, ty, target, prefix + e + suffix, |prefix|);
            && r.Ok? && r.value.1 == |prefix| + |e|
            && WellTyped(reg, ty, r.value.0)
            && (SameObs(r.value.0, o) <==> NoLeak(target, o))
  {
    EncodeSucceeds(reg, ty, o, |prefix|);
    var e := Encode(reg, ty, o, |prefix|).value;
    var buf := prefix + e + suffix;
    assert At(buf, |prefix|, e);
    DecodeEncoded(reg, ty, target, o, buf, |prefix|);
    OverlayShows(reg, ty, target, o);
  }

  /** Into a fresh object, what was sent is what getters return. */
  lemma FreshRoundTrip(reg: Registry, ty: Ty, o: Obj, prefix: seq<byte>, suffix: seq<byte>)
    requires WellFormed(reg) && Known(reg, ty) && WellTyped(reg, ty, o) && Fits(o)
    ensures Encode(reg, ty, o, |prefix|).Ok?
    ensures var e := Encode(reg, ty, o, |prefix|).value;
            var r := Decode(reg, ty, Fresh(reg, ty), prefix + e + suffix, |prefix|);
            r.Ok? && r.value.1 == |prefix| + |e| && SameObs(r.value.0, o)
  {
    FreshTyped(reg, ty);
    CleanNeverLeaks(reg, ty, Fresh(reg, ty), o);
    RoundTrip(reg, ty, Fresh(reg, ty), o, prefix, suffix);
  }

  /** A target is safe to decode any object into exactly when it is clean. */
  lemma {:induction false} UncleanLeaks(reg: Registry, ty: Ty, target: Obj) returns (o: Obj)
    requires WellTyped(reg, ty, target) && !Clean(target)
    ensures WellTyped(reg, ty, o) && !NoLeak(target, o)
    decreases target
  {
    match ty
    case PrimTy(_) => assert false;
    case ListTy(_, _) => assert false;
    case OptTy(e) =>
      if target.has {
        o := OptObj(false, target.o);
      } else {
        var i := UncleanLeaks(reg, e, target.o);
        o := OptObj(true, i);
      }
    case NamedTy(t) =>
      assert target.StructObj?;
      var StructHandler(base, choice, fields) := reg[t].handler;
      if target.ord != 0 {
        o := target.(ord := 0);
      } else if base.Some? && !Clean(target.base.value) {
        var b := UncleanLeaks(reg, NamedTy(base.value), target.base.value);
        o := target.(base := Some(b));
      } else if k :| 0 <= k < |target.variants| && !Clean(target.variants[k]) {
        var v := UncleanLeaks(reg, choice.value[k].ty, target.variants[k]);
        o := target.(ord := k + 1, variants := target.variants[k := v]);
        assert o.variants[o.ord - 1] == v;
      } else {
        var k :| 0 <= k < |target.fields| && !Clean(target.fields[k]);
        var f := UncleanLeaks(reg, fields[k].ty, target.fields[k]);
        o := target.(fields := target.fields[k := f]);
        assert o.fields[k] == f;
      }
  }

  lemma CleanIff(reg: Registry, ty: Ty, target: Obj)
    requires WellTyped(reg, ty, target)
    ensures Clean(target) <==> forall o :: WellTyped(reg, ty, o) ==> NoLeak(target, o)
  {
    if Clean(target) {
      forall o | WellTyped(reg, ty, o)
        ensures NoLeak(target, o)
      {
        CleanNeverLeaks(reg, ty, target, o);
      }
    } else {
      var o := UncleanLeaks(reg, ty, target);
    }
  }

  /** A reused object keeps the optional of the previous message. */
  lemma StaleOptionalLeaks()
    ensures var reg: Registry := map[];
            var ty := OptTy(PrimTy(PBool));
            var old_, sent := OptObj(true, Leaf(BoolV(true))), OptObj(false, Leaf(BoolV(false)));
            && Encode(reg, ty, sent, 0) == Ok([0])
            && Decode(reg, ty, old_, [0], 0) == Ok((old_, 1))
            && !SameObs(old_, sent)
  {
  }
}
