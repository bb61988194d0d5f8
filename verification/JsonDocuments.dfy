/** JSON documents: when a written document reads back, and what ties it to the CDR form. */
module JsonDocuments {
  import opened Results
  import opened Bytes
  import opened CdrPrimitives
  import opened Accessors
  import opened CdrCodec
  import opened CdrRoundTrip
  import opened CdrLaws
  import opened JsonText
  import opened JsonCodec
  import opened JsonRoundTrip
  import Fnv

  // -- the tree of an object is printable ------------------------------------------------------

  predicate SlotsUtf8(slots: seq<Slot>) {
    forall i :: 0 <= i < |slots| && slots[i].value.Some? ==> Utf8(slots[i].name) && AllUtf8(slots[i].value.value)
  }

  predicate SlotsFit(slots: seq<Slot>) {
    forall i :: 0 <= i < |slots| && slots[i].value.Some? ==> NumbersFit(slots[i].value.value)
  }

  predicate MembersFit(ms: seq<Field>) {
    forall i :: 0 <= i < |ms| ==> NumbersFit(ms[i].value)
  }

  lemma {:induction false} PresentPrintable(slots: seq<Slot>)
    ensures MembersUtf8(Present(slots)) <==> SlotsUtf8(slots)
    ensures SlotsFit(slots) ==> MembersFit(Present(slots))
  {
    hide Utf8, AllUtf8, NumbersFit;
    if slots != [] {
      var front, last, all := slots[..|slots| - 1], slots[|slots| - 1], Present(slots);
      PresentPrintable(front);
      assert slots == front + [last];
      if last.value.Some? {
        assert all == Present(front) + [Field(last.name, last.value.value)];
        assert all[|all| - 1] == Field(last.name, last.value.value) && slots[|slots| - 1] == last;
        assert forall i :: 0 <= i < |all| - 1 ==> all[i] == Present(front)[i];
      } else {
        assert all == Present(front);
      }
    }
  }

  /** The tree of an object holds 64-bit integers only, and is UTF-8 exactly when the object's
      strings are. */
  lemma {:induction false} TreePrintable(reg: Registry, ty: Ty, o: Obj)
    requires JsonWritable(reg) && WellTyped(reg, ty, o) && MemberTy(ty) && (ty.OptTy? ==> o.has) && NoFloats(reg, ty, o)
    ensures NumbersFit(ToJson(reg, ty, o))
    ensures AllUtf8(ToJson(reg, ty, o)) <==> TextsUtf8(reg, ty, o)
    decreases o, 3
  {
    hide JsonWritable, Slots, Present, ItemsJson, Utf8, FlatNames;
    match ty
    case PrimTy(p) => PrimComesBack(p, o.v);
    case OptTy(e) => TreePrintable(reg, e, o.o);
    case ListTy(e, _) => ItemsPrintable(reg, e, o.items);
    case NamedTy(t) =>
      match reg[t].handler
      case EnumHandler(values) => NamesUtf8(reg, t, o.item);
      case StructHandler(_, _, _) =>
        SlotsPrintable(reg, t, o);
        PresentPrintable(Slots(reg, t, o));
  }

  lemma NamesUtf8(reg: Registry, t: Name, item: nat)
    requires JsonWritable(reg) && t in reg && reg[t].handler.EnumHandler?
    ensures Utf8(ItemName(reg[t].handler.values, item))
  {
    hide Utf8;
    assert JsonHandler(reg, reg[t].handler);
    AsciiIsUtf8(NOT_SET);
    AsciiIsUtf8(INVALID);
  }

  lemma {:induction false} SlotsPrintable(reg: Registry, t: Name, o: Obj)
    requires JsonWritable(reg) && WellTyped(reg, NamedTy(t), o) && reg[t].handler.StructHandler? && NoFloats(reg, NamedTy(t), o)
    ensures SlotsFit(Slots(reg, t, o))
    ensures SlotsUtf8(Slots(reg, t, o)) <==> TextsUtf8(reg, NamedTy(t), o)
    decreases o, 2
  {
    hide ToJson, FieldSlots, VariantSlots, FlatNames, Utf8;
    var StructHandler(base, choice, fields) := reg[t].handler;
    assert JsonHandler(reg, reg[t].handler);
    StructEvery(reg, t, o, NotFloat);
    StructEvery(reg, t, o, TextUtf8);
    var a := if base.Some? then Slots(reg, base.value, o.base.value) else [];
    var b := if choice.Some? then VariantSlots(reg, choice.value, o.variants, o.ord) else [];
    var c := FieldSlots(reg, fields, o.fields);
    if base.Some? { SlotsPrintable(reg, base.value, o.base.value); }
    if choice.Some? { VariantsPrintable(reg, choice.value, o); }
    FieldsPrintable(reg, fields, o.fields);
    assert Slots(reg, t, o) == a + b + c;
    ConcatPrintable(a + b, c);
    ConcatPrintable(a, b);
  }

  lemma ConcatPrintable(a: seq<Slot>, b: seq<Slot>)
    ensures SlotsFit(a) && SlotsFit(b) ==> SlotsFit(a + b)
    ensures SlotsUtf8(a + b) <==> SlotsUtf8(a) && SlotsUtf8(b)
  {
    hide Utf8, AllUtf8, NumbersFit;
    var c := a + b;
    assert forall i :: 0 <= i < |a| ==> a[i] == c[i];
    assert forall i :: 0 <= i < |b| ==> b[i] == c[|a| + i];
  }

  lemma {:induction false} VariantsPrintable(reg: Registry, vs: seq<Member>, o: Obj)
    requires JsonWritable(reg) && o.StructObj? && MembersTyped(reg, vs, o.variants) && o.ord <= |vs|
    requires SafeMembers(vs) && forall i :: 0 <= i < |vs| ==> Simple(vs[i].ty)
    requires o.ord >= 1 ==> NoFloats(reg, vs[o.ord - 1].ty, o.variants[o.ord - 1])
    ensures SlotsFit(VariantSlots(reg, vs, o.variants, o.ord))
    ensures SlotsUtf8(VariantSlots(reg, vs, o.variants, o.ord)) <==>
      (o.ord >= 1 ==> TextsUtf8(reg, vs[o.ord - 1].ty, o.variants[o.ord - 1]))
    decreases o, 1
  {
    hide ToJson, VariantSlots, JsonWritable, Every, WellTyped, AllUtf8, NumbersFit, Utf8;
    if o.ord >= 1 { TreePrintable(reg, vs[o.ord - 1].ty, o.variants[o.ord - 1]); }
    forall i | 0 <= i < |vs|
      ensures VariantSlots(reg, vs, o.variants, o.ord)[i] ==
        Slot(vs[i].name, if o.ord == i + 1 then Some(ToJson(reg, vs[i].ty, o.variants[i])) else None)
    {
      VariantSlotAt(reg, vs, o.variants, o.ord, i);
    }
  }

  lemma {:induction false} FieldsPrintable(reg: Registry, ms: seq<Member>, os: seq<Obj>)
    requires JsonWritable(reg) && MembersTyped(reg, ms, os) && SafeMembers(ms) && MembersEvery(reg, ms, os, NotFloat)
    ensures SlotsFit(FieldSlots(reg, ms, os))
    ensures SlotsUtf8(FieldSlots(reg, ms, os)) <==> forall i :: 0 <= i < |os| ==> TextsUtf8(reg, ms[i].ty, os[i])
    decreases os, 1
  {
    hide ToJson, JsonWritable, AllUtf8, NumbersFit, Utf8, Every;
    if os != [] {
      var slots := FieldSlots(reg, ms, os);
      var absent := ms[0].ty.OptTy? && !os[0].has;
      if absent { AbsentText(reg, ms[0].ty, os[0]); } else { TreePrintable(reg, ms[0].ty, os[0]); }
      FieldsPrintable(reg, ms[1..], os[1..]);
      assert slots == [slots[0]] + FieldSlots(reg, ms[1..], os[1..]);
      ConcatPrintable([slots[0]], FieldSlots(reg, ms[1..], os[1..]));
      assert SafeName(ms[0].name);
      assert SlotsUtf8([slots[0]]) <==> TextsUtf8(reg, ms[0].ty, os[0]) by {
        assert [slots[0]][0] == slots[0];
      }
      assert forall i :: 1 <= i < |os| ==> os[i] == os[1..][i - 1] && ms[i] == ms[1..][i - 1];
    }
  }

  lemma AbsentText(reg: Registry, ty: Ty, o: Obj)
    requires WellTyped(reg, ty, o) && ty.OptTy? && !o.has
    ensures TextsUtf8(reg, ty, o)
  {
  }

  lemma {:induction false} ItemsPrintable(reg: Registry, elem: Ty, os: seq<Obj>)
    requires JsonWritable(reg) && ItemsTyped(reg, elem, os) && Simple(elem) && ItemsEvery(reg, elem, os, NotFloat)
    ensures var js := ItemsJson(reg, elem, os);
      && (forall i :: 0 <= i < |js| ==> NumbersFit(js[i]))
      && (ItemsUtf8(js) <==> forall i :: 0 <= i < |os| ==> TextsUtf8(reg, elem, os[i]))
    decreases os, 1
  {
    hide ToJson, JsonWritable, AllUtf8, NumbersFit, WellTyped, Every;
    if os != [] {
      TreePrintable(reg, elem, os[0]);
      ItemsPrintable(reg, elem, os[1..]);
      var js := ItemsJson(reg, elem, os);
      assert js[1..] == ItemsJson(reg, elem, os[1..]);
      Utf8Split(js, []);
      assert forall i :: 1 <= i < |os| ==> os[i] == os[1..][i - 1] && js[i] == js[1..][i - 1];
    }
  }

  // -- documents --------------------------------------------------------------------------------------

  /** `JsonExternalizer::write`. */
  function WriteText(reg: Registry, t: Name, o: Obj): seq<byte>
    requires WellTyped(reg, NamedTy(t), o)
  {
    Print(ToJson(reg, NamedTy(t), o))
  }

  /** `JsonExternalizer::read` into an object of type `t`, which it resets first. */
  function ReadText(reg: Registry, t: Name, text: seq<byte>): Result<Obj> {
    var (j, rest) :- ParseValue(text);
    if rest != [] then Err(BadJson) else FromJson(reg, NamedTy(t), Fresh(reg, NamedTy(t)), j)
  }

  /** A written document that shows no floating-point number reads back as what was written if, and
      only if, its visible strings are UTF-8 and its visible enumeration items have names of their
      own. */
  lemma DocumentReadsBackIff(reg: Registry, t: Name, o: Obj)
    requires JsonReady(reg) && WellTyped(reg, NamedTy(t), o) && NoFloats(reg, NamedTy(t), o)
    ensures var r, ok := ReadText(reg, t, WriteText(reg, t, o)), TextsUtf8(reg, NamedTy(t), o) && EnumsNamed(reg, NamedTy(t), o);
      && (ok <==> r.Ok? && SameObs(r.value, o))
      && (ok ==> r == Ok(Overlay(reg, NamedTy(t), Fresh(reg, NamedTy(t)), o)))
  {
    hide ParseValue, Print, ToJson, FromJson, Overlay, SameObs, Every, WellTyped, FlatNames;
    var ty := NamedTy(t);
    var j := ToJson(reg, ty, o);
    assert t in reg by { TypedIsKnown(reg, t, o); }
    FreshTyped(reg, ty);
    TreePrintable(reg, ty, o);
    PrintedParses(j, []);
    assert Print(j) + [] == Print(j);
    JsonReadsBack(reg, ty, Fresh(reg, ty), o);
    CleanNeverLeaks(reg, ty, Fresh(reg, ty), o);
    OverlayShows(reg, ty, Fresh(reg, ty), o);
  }

  lemma TypedIsKnown(reg: Registry, t: Name, o: Obj)
    requires WellTyped(reg, NamedTy(t), o)
    ensures t in reg
  {
  }

  /** Both transfer forms of a message that JSON can carry give back the very same object. */
  lemma CodecsAgree(reg: Registry, t: Name, o: Obj, prefix: seq<byte>, suffix: seq<byte>)
    requires JsonReady(reg) && WellTyped(reg, NamedTy(t), o) && NoFloats(reg, NamedTy(t), o) && Fits(o)
    requires TextsUtf8(reg, NamedTy(t), o) && EnumsNamed(reg, NamedTy(t), o)
    ensures Encode(reg, NamedTy(t), o, |prefix|).Ok?
    ensures var ty, e := NamedTy(t), Encode(reg, NamedTy(t), o, |prefix|).value;
      var d := Decode(reg, ty, Fresh(reg, ty), prefix + e + suffix, |prefix|);
      && d.Ok? && d.value.1 == |prefix| + |e|
      && ReadText(reg, t, WriteText(reg, t, o)) == Ok(d.value.0)
  {
    hide WriteText, ReadText, Overlay, WellTyped, Fits, Encode, Decode, FlatNames, Every;
    var ty := NamedTy(t);
    DocumentReadsBackIff(reg, t, o);
    assert t in reg by { TypedIsKnown(reg, t, o); }
    FreshTyped(reg, ty);
    EncodeSucceeds(reg, ty, o, |prefix|);
    var e := Encode(reg, ty, o, |prefix|).value;
    var buf := prefix + e + suffix;
    assert At(buf, |prefix|, e);
    DecodeEncoded(reg, ty, Fresh(reg, ty), o, buf, |prefix|);
  }

  // -- equal to getters, equal in JSON --------------------------------------------------------------------

  lemma {:induction false} SameJson(reg: Registry, ty: Ty, a: Obj, b: Obj)
    requires WellTyped(reg, ty, a) && WellTyped(reg, ty, b) && SameObs(a, b)
    ensures ToJson(reg, ty, a) == ToJson(reg, ty, b)
    decreases a, 2
  {
    hide Slots, ItemsJson, Present;
    match ty
    case PrimTy(_) =>
    case OptTy(e) => if a.has { SameJson(reg, e, a.o, b.o); }
    case ListTy(e, _) => SameItems(reg, e, a.items, b.items);
    case NamedTy(t) =>
      match reg[t].handler
      case EnumHandler(_) =>
      case StructHandler(_, _, _) => SameSlots(reg, t, a, b);
  }

  lemma {:induction false} SameSlots(reg: Registry, t: Name, a: Obj, b: Obj)
    requires WellTyped(reg, NamedTy(t), a) && WellTyped(reg, NamedTy(t), b) && SameObs(a, b)
    requires reg[t].handler.StructHandler?
    ensures Slots(reg, t, a) == Slots(reg, t, b)
    decreases a, 1
  {
    hide ToJson, FieldSlots, VariantSlots;
    var StructHandler(base, choice, fields) := reg[t].handler;
    if base.Some? && reg[base.value].handler.StructHandler? { SameSlots(reg, base.value, a.base.value, b.base.value); }
    if choice.Some? { SameVariants(reg, choice.value, a.variants, b.variants, a.ord); }
    SameFields(reg, fields, a.fields, b.fields);
  }

  lemma {:induction false} SameVariants(reg: Registry, vs: seq<Member>, as_: seq<Obj>, bs: seq<Obj>, ord: int)
    requires MembersTyped(reg, vs, as_) && MembersTyped(reg, vs, bs)
    requires 1 <= ord <= |as_| ==> SameObs(as_[ord - 1], bs[ord - 1])
    ensures VariantSlots(reg, vs, as_, ord) == VariantSlots(reg, vs, bs, ord)
    decreases as_, 0
  {
    hide ToJson, SameObs, WellTyped;
    if vs != [] {
      if ord == 1 { SameJson(reg, vs[0].ty, as_[0], bs[0]); }
      SameVariants(reg, vs[1..], as_[1..], bs[1..], ord - 1);
    }
  }

  lemma {:induction false} SameFields(reg: Registry, ms: seq<Member>, as_: seq<Obj>, bs: seq<Obj>)
    requires MembersTyped(reg, ms, as_) && MembersTyped(reg, ms, bs)
    requires forall i :: 0 <= i < |as_| ==> SameObs(as_[i], bs[i])
    ensures FieldSlots(reg, ms, as_) == FieldSlots(reg, ms, bs)
    decreases as_, 0
  {
    hide ToJson;
    if ms != [] {
      SameJson(reg, ms[0].ty, as_[0], bs[0]);
      SameFields(reg, ms[1..], as_[1..], bs[1..]);
    }
  }

  lemma {:induction false} SameItems(reg: Registry, elem: Ty, as_: seq<Obj>, bs: seq<Obj>)
    requires ItemsTyped(reg, elem, as_) && ItemsTyped(reg, elem, bs) && |as_| == |bs|
    requires forall i :: 0 <= i < |as_| ==> SameObs(as_[i], bs[i])
    ensures ItemsJson(reg, elem, as_) == ItemsJson(reg, elem, bs)
    decreases as_, 0
  {
    hide ToJson, SameObs, WellTyped;
    if as_ != [] {
      SameJson(reg, elem, as_[0], bs[0]);
      SameItems(reg, elem, as_[1..], bs[1..]);
    }
  }

  /** Among messages that JSON can carry, equal texts mean equal to getters, and conversely. */
  lemma SameTextIff(reg: Registry, t: Name, a: Obj, b: Obj)
    requires JsonReady(reg) && WellTyped(reg, NamedTy(t), a) && WellTyped(reg, NamedTy(t), b)
    requires NoFloats(reg, NamedTy(t), a) && NoFloats(reg, NamedTy(t), b)
    requires TextsUtf8(reg, NamedTy(t), a) && EnumsNamed(reg, NamedTy(t), a)
    requires TextsUtf8(reg, NamedTy(t), b) && EnumsNamed(reg, NamedTy(t), b)
    ensures WriteText(reg, t, a) == WriteText(reg, t, b) <==> SameObs(a, b)
  {
    hide ReadText, ToJson, Overlay, WellTyped, SameObs, FlatNames, Every;
    if SameObs(a, b) { SameJson(reg, NamedTy(t), a, b); }
    DocumentReadsBackIff(reg, t, a);
    DocumentReadsBackIff(reg, t, b);
    if WriteText(reg, t, a) == WriteText(reg, t, b) {
      var r := ReadText(reg, t, WriteText(reg, t, a)).value;
      SameObsSymmetric(r, a);
      SameObsTransitive(a, r, b);
    }
  }

  // -- from a CDR payload to the JSON that is delivered ------------------------------------------------------

  /** `publishDecoded`: nothing is delivered for an unknown tag or a payload that does not decode;
      otherwise the message is decoded into a new object and its type name and JSON are delivered. */
  function PublishDecoded(reg: Registry, types: map<Fnv.Tag, Name>, tag: Fnv.Tag, data: seq<byte>): Option<(Name, seq<byte>)>
    requires WellFormed(reg) && types.Values <= reg.Keys
  {
    if tag !in types then None
    else
      var t := types[tag];
      assert t in types.Values;
      FreshTyped(reg, NamedTy(t));
      match Decode(reg, NamedTy(t), Fresh(reg, NamedTy(t)), data, 0)
      case Err(_) => None
      case Ok((o, _)) =>
        DecodeTyped(reg, NamedTy(t), Fresh(reg, NamedTy(t)), data, 0);
        Some((t, WriteText(reg, t, o)))
  }

  /** What is delivered for a payload is the JSON of the message serialized into it, whatever
      follows in the buffer and whether or not that JSON can be read back; a payload cut short is
      never delivered. */
  lemma PublishedAsWritten(reg: Registry, types: map<Fnv.Tag, Name>, t: Name, o: Obj, suffix: seq<byte>, k: nat)
    requires WellFormed(reg) && types.Values <= reg.Keys && WellTyped(reg, NamedTy(t), o) && NoFloats(reg, NamedTy(t), o) && Fits(o)
    requires Fnv.Hash(t) in types && types[Fnv.Hash(t)] == t
    ensures Encode(reg, NamedTy(t), o, 0).Ok?
    ensures var e := Encode(reg, NamedTy(t), o, 0).value;
      && PublishDecoded(reg, types, Fnv.Hash(t), e + suffix) == Some((t, WriteText(reg, t, o)))
      && (k < |e| ==> PublishDecoded(reg, types, Fnv.Hash(t), e[..k]) == None)
  {
    hide Overlay, WellTyped, Fits, Encode, Decode, SameObs, ToJson, Print, NoLeak, FlatNames, Fnv.Hash;
    var ty := NamedTy(t);
    var target := Fresh(reg, ty);
    assert t in reg by { TypedIsKnown(reg, t, o); }
    FreshTyped(reg, ty);
    CleanNeverLeaks(reg, ty, target, o);
    RoundTrip(reg, ty, target, o, [], suffix);
    var e := Encode(reg, ty, o, 0).value;
    assert [] + e + suffix == e + suffix;
    SameJson(reg, ty, Decode(reg, ty, target, e + suffix, 0).value.0, o);
    if k < |e| {
      TruncationDetected(reg, ty, target, o, [], k);
      assert [] + e[..k] == e[..k];
    }
  }
}
