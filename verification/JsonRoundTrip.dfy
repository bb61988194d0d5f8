/** Writing JSON and reading it back. */
module JsonRoundTrip {
  import opened Results
  import opened CdrPrimitives
  import opened Accessors
  import opened CdrCodec
  import opened JsonText
  import opened JsonCodec

  // -- schemas that JSON can carry ------------------------------------------------------------

  /** A member name that `emit_key` may write as it is. */
  predicate SafeName(name: Name) {
    Utf8(name) && forall i :: 0 <= i < |name| ==> name[i] >= 32 && name[i] != 34 && name[i] != 92
  }

  /** A type that stands for one value, not an optional or a list. */
  predicate Simple(ty: Ty) {
    ty.PrimTy? || ty.NamedTy?
  }

  predicate MemberTy(ty: Ty) {
    match ty
    case OptTy(e) => Simple(e)
    case ListTy(e, _) => Simple(e)
    case _ => Simple(ty)
  }

  predicate SafeMembers(ms: seq<Member>) {
    forall i :: 0 <= i < |ms| ==> SafeName(ms[i].name) && MemberTy(ms[i].ty)
  }

  function Names(ms: seq<Member>): (r: seq<Name>)
    ensures |r| == |ms| && forall i :: 0 <= i < |ms| ==> r[i] == ms[i].name
  {
    if ms == [] then [] else [ms[0].name] + Names(ms[1..])
  }

  /** The names of all members that a structure writes, inherited ones first. */
  function FlatNames(reg: Registry, t: Name, o: Obj): seq<Name>
    requires WellTyped(reg, NamedTy(t), o)
    decreases o
  {
    match reg[t].handler
    case EnumHandler(_) => []
    case StructHandler(base, choice, fields) =>
      (if base.Some? then FlatNames(reg, base.value, o.base.value) else [])
      + (if choice.Some? then Names(choice.value) else [])
      + Names(fields)
  }

  predicate Distinct(names: seq<Name>) {
    forall i, j :: 0 <= i < j < |names| ==> names[i] != names[j]
  }

  /** What the writer of a type relies on: keys that need no escapes, bases that are structures. */
  predicate JsonHandler(reg: Registry, h: Handler) {
    match h
    case EnumHandler(values) => forall i :: 0 <= i < |values| ==> Utf8(values[i])
    case StructHandler(base, choice, fields) =>
      && (base.Some? ==> base.value in reg && reg[base.value].handler.StructHandler?)
      && (choice.Some? ==> SafeMembers(choice.value) && forall i :: 0 <= i < |choice.value| ==> Simple(choice.value[i].ty))
      && SafeMembers(fields)
  }

  ghost predicate JsonWritable(reg: Registry) {
    forall t :: t in reg ==> JsonHandler(reg, reg[t].handler)
  }

  /** What the reader relies on besides: names that stay distinct when bases are flattened. */
  ghost predicate JsonReady(reg: Registry) {
    && WellFormed(reg)
    && JsonWritable(reg)
    && (forall t :: t in reg ==> Distinct(FlatNames(reg, t, reg[t].proto)))
  }

  /** The names of a type do not depend on the object. */
  lemma {:induction false} FlatNamesSame(reg: Registry, t: Name, a: Obj, b: Obj)
    requires WellTyped(reg, NamedTy(t), a) && WellTyped(reg, NamedTy(t), b)
    ensures FlatNames(reg, t, a) == FlatNames(reg, t, b)
    decreases a
  {
    match reg[t].handler
    case EnumHandler(_) =>
    case StructHandler(base, _, _) =>
      if base.Some? { FlatNamesSame(reg, base.value, a.base.value, b.base.value); }
  }

  // -- visible leaves ------------------------------------------------------------------------------

  datatype LeafView = PrimLeaf(p: PrimType, v: PrimVal) | EnumLeaf(values: seq<Name>, item: nat)

  /** Every leaf that getters can reach satisfies the test. */
  predicate Every(reg: Registry, ty: Ty, o: Obj, ok: LeafView -> bool)
    requires WellTyped(reg, ty, o)
    decreases o
  {
    match ty
    case PrimTy(p) => ok(PrimLeaf(p, o.v))
    case OptTy(e) => o.has ==> Every(reg, e, o.o, ok)
    case ListTy(e, _) => forall i :: 0 <= i < |o.items| ==> Every(reg, e, o.items[i], ok)
    case NamedTy(t) =>
      match reg[t].handler
      case EnumHandler(values) => ok(EnumLeaf(values, o.item))
      case StructHandler(base, choice, fields) =>
        && (base.Some? ==> Every(reg, NamedTy(base.value), o.base.value, ok))
        && (choice.Some? && o.ord >= 1 ==> Every(reg, choice.value[o.ord - 1].ty, o.variants[o.ord - 1], ok))
        && forall i :: 0 <= i < |o.fields| ==> Every(reg, fields[i].ty, o.fields[i], ok)
  }

  /** An enumeration item that its name brings back. */
  predicate ItemNamed(v: LeafView) {
    v.EnumLeaf? ==> Named(v.values, v.item)
  }

  /** A string that is UTF-8. */
  predicate TextUtf8(v: LeafView) {
    v.PrimLeaf? && v.p.PString? && v.v.TextV? ==> Utf8(v.v.s)
  }

  /** Not floating point, whose JSON text is not modelled. */
  predicate NotFloat(v: LeafView) {
    v.PrimLeaf? ==> !v.p.PFloat?
  }

  predicate NoFloats(reg: Registry, ty: Ty, o: Obj)
    requires WellTyped(reg, ty, o)
  {
    Every(reg, ty, o, NotFloat)
  }

  predicate EnumsNamed(reg: Registry, ty: Ty, o: Obj)
    requires WellTyped(reg, ty, o)
  {
    Every(reg, ty, o, ItemNamed)
  }

  predicate TextsUtf8(reg: Registry, ty: Ty, o: Obj)
    requires WellTyped(reg, ty, o)
  {
    Every(reg, ty, o, TextUtf8)
  }

  // -- members are found under their names -------------------------------------------------------------

  function Lookup(all: seq<Field>, name: Name): Option<Json> {
    match Find(all, name) case None => None case Some(i) => Some(all[i].value)
  }

  /** Looking up a member gives what was written for it, or nothing if nothing was. */
  predicate Answers(slots: seq<Slot>, all: seq<Field>) {
    forall i :: 0 <= i < |slots| ==> Lookup(all, slots[i].name) == slots[i].value
  }

  lemma {:induction false} NotPresent(slots: seq<Slot>, name: Name)
    requires forall i :: 0 <= i < |slots| ==> slots[i].name != name
    ensures Find(Present(slots), name).None?
  {
    if slots != [] {
      var front, last := slots[..|slots| - 1], slots[|slots| - 1];
      NotPresent(front, name);
      var all := Present(slots);
      if last.value.Some? {
        assert all[..|all| - 1] == Present(front);
      } else {
        assert all == Present(front);
      }
    }
  }

  /** Members of one name carry one value. */
  predicate Unambiguous(slots: seq<Slot>) {
    forall i, j :: 0 <= i < |slots| && 0 <= j < |slots| && slots[i].name == slots[j].name ==> slots[i].value == slots[j].value
  }

  /** Every member is found as it was written exactly when no two of one name differ; a member of a
      derived type shadows the inherited one of the same name. */
  lemma {:induction false} AnswersIff(slots: seq<Slot>)
    ensures Answers(slots, Present(slots)) <==> Unambiguous(slots)
  {
    if Answers(slots, Present(slots)) {
      assert forall i :: 0 <= i < |slots| ==> Lookup(Present(slots), slots[i].name) == slots[i].value;
    } else if Unambiguous(slots) {
      UnambiguousAnswers(slots);
    }
  }

  lemma {:induction false} UnambiguousAnswers(slots: seq<Slot>)
    requires Unambiguous(slots)
    ensures Answers(slots, Present(slots))
  {
    if slots != [] {
      var front, last := slots[..|slots| - 1], slots[|slots| - 1];
      assert slots == front + [last] && forall i :: 0 <= i < |front| ==> front[i] == slots[i];
      UnambiguousAnswers(front);
      var all := Present(slots);
      forall i | 0 <= i < |slots|
        ensures Lookup(all, slots[i].name) == slots[i].value
      {
        LookupSnoc(front, last, slots[i].name);
        if k :| 0 <= k < |front| && front[k].name == slots[i].name {
          assert Lookup(Present(front), front[k].name) == front[k].value == slots[k].value == slots[i].value;
        } else {
          NotPresent(front, slots[i].name);
        }
      }
    }
  }

  /** Looking among one more slot: the last one first, then the others. */
  lemma LookupSnoc(front: seq<Slot>, last: Slot, name: Name)
    ensures Lookup(Present(front + [last]), name) ==
      if last.value.Some? && last.name == name then last.value else Lookup(Present(front), name)
  {
    var slots := front + [last];
    assert slots[..|slots| - 1] == front;
    if last.value.Some? {
      var all := Present(slots);
      assert all == Present(front) + [Field(last.name, last.value.value)];
      assert all[..|all| - 1] == Present(front);
    } else {
      assert Present(slots) == Present(front);
    }
  }

  /** The slots of a structure carry the names of its type. */
  lemma {:induction false} SlotNames(reg: Registry, t: Name, o: Obj)
    requires WellTyped(reg, NamedTy(t), o)
    ensures var slots, names := Slots(reg, t, o), FlatNames(reg, t, o);
      |slots| == |names| && forall i :: 0 <= i < |slots| ==> slots[i].name == names[i]
    decreases o
  {
    hide ToJson;
    match reg[t].handler
    case EnumHandler(_) =>
    case StructHandler(base, choice, fields) =>
      if base.Some? { SlotNames(reg, base.value, o.base.value); }
      if choice.Some? { VariantSlotNames(reg, choice.value, o.variants, o.ord); }
      FieldSlotNames(reg, fields, o.fields);
  }

  lemma {:induction false} VariantSlotNames(reg: Registry, vs: seq<Member>, os: seq<Obj>, ord: int)
    requires MembersTyped(reg, vs, os)
    ensures var slots := VariantSlots(reg, vs, os, ord); forall i :: 0 <= i < |vs| ==> slots[i].name == vs[i].name
    decreases os
  {
    hide ToJson;
    if vs != [] { VariantSlotNames(reg, vs[1..], os[1..], ord - 1); }
  }

  lemma {:induction false} FieldSlotNames(reg: Registry, ms: seq<Member>, os: seq<Obj>)
    requires MembersTyped(reg, ms, os)
    ensures var slots := FieldSlots(reg, ms, os); forall i :: 0 <= i < |ms| ==> slots[i].name == ms[i].name
    decreases os
  {
    hide ToJson;
    if ms != [] { FieldSlotNames(reg, ms[1..], os[1..]); }
  }

  lemma StructAnswers(reg: Registry, t: Name, o: Obj)
    requires JsonReady(reg) && WellTyped(reg, NamedTy(t), o)
    ensures Answers(Slots(reg, t, o), Present(Slots(reg, t, o)))
  {
    hide WellFormed, Slots, FlatNames;
    assert WellTyped(reg, NamedTy(t), reg[t].proto) by { HandlerTyped(reg, t); }
    FlatNamesSame(reg, t, o, reg[t].proto);
    SlotNames(reg, t, o);
    UnambiguousAnswers(Slots(reg, t, o));
  }

  lemma HandlerTyped(reg: Registry, t: Name)
    requires WellFormed(reg) && t in reg
    ensures WellTyped(reg, NamedTy(t), reg[t].proto) && HandlerKnown(reg, reg[t].handler)
  {
  }

  // -- reading undoes writing ------------------------------------------------------------------------------

  predicate MembersEvery(reg: Registry, ms: seq<Member>, os: seq<Obj>, ok: LeafView -> bool)
    requires MembersTyped(reg, ms, os)
  {
    forall i :: 0 <= i < |os| ==> Every(reg, ms[i].ty, os[i], ok)
  }

  predicate ItemsEvery(reg: Registry, elem: Ty, os: seq<Obj>, ok: LeafView -> bool)
    requires ItemsTyped(reg, elem, os)
  {
    forall i :: 0 <= i < |os| ==> Every(reg, elem, os[i], ok)
  }

  predicate SameAll(rs: seq<Obj>, os: seq<Obj>) {
    |rs| == |os| && forall i :: 0 <= i < |os| ==> SameObs(rs[i], os[i])
  }

  /** The tree of `o` read into a clean target overlays `o` on it if every item in `o` is named;
      otherwise reading fails or gives something else. */
  ghost predicate ReadsBack(reg: Registry, ty: Ty, target: Obj, o: Obj, r: Result<Obj>)
    requires WellTyped(reg, ty, o)
  {
    if EnumsNamed(reg, ty, o) then r == Ok(Overlay(reg, ty, target, o)) else r.Ok? ==> !SameObs(r.value, o)
  }

  lemma {:induction false} JsonReadsBack(reg: Registry, ty: Ty, target: Obj, o: Obj)
    requires JsonReady(reg) && Known(reg, ty) && MemberTy(ty)
    requires WellTyped(reg, ty, target) && WellTyped(reg, ty, o) && Clean(target)
    requires (ty.OptTy? ==> o.has) && NoFloats(reg, ty, o)
    ensures ReadsBack(reg, ty, target, o, FromJson(reg, ty, target, ToJson(reg, ty, o)))
    decreases o, 3
  {
    hide JsonReady, Slots, FromFields, OverlayNamed, Present, ItemsJson, FromItems, OverlayItems, FlatNames, Find;
    match ty
    case PrimTy(p) => PrimComesBack(p, o.v);
    case OptTy(e) => JsonReadsBack(reg, e, target.o, o.o);
    case ListTy(e, max) => ItemsReadBack(reg, e, max, 0, o.items);
    case NamedTy(t) =>
      match reg[t].handler
      case EnumHandler(_) => EnumReadsBack(reg, t, target, o);
      case StructHandler(_, _, _) =>
        StructAnswers(reg, t, o);
        FieldsReadBack(reg, t, target, o, Present(Slots(reg, t, o)));
  }

  lemma EnumReadsBack(reg: Registry, t: Name, target: Obj, o: Obj)
    requires t in reg && reg[t].handler.EnumHandler? && WellTyped(reg, NamedTy(t), o)
    ensures ReadsBack(reg, NamedTy(t), target, o, FromJson(reg, NamedTy(t), target, ToJson(reg, NamedTy(t), o)))
  {
    hide ItemOf;
    var values := reg[t].handler.values;
    var r := FromJson(reg, NamedTy(t), target, ToJson(reg, NamedTy(t), o));
    assert ToJson(reg, NamedTy(t), o) == JStr(ItemName(values, o.item));
    assert EnumsNamed(reg, NamedTy(t), o) <==> Named(values, o.item);
    assert r == match ItemOf(values, ItemName(values, o.item)) case None => Err(BadJson) case Some(i) => Ok(EnumObj(i));
    assert Overlay(reg, NamedTy(t), target, o) == o;
  }

  /** A structure's leaves are those of its base, its chosen variant and its members. */
  lemma StructEvery(reg: Registry, t: Name, o: Obj, ok: LeafView -> bool)
    requires WellTyped(reg, NamedTy(t), o) && reg[t].handler.StructHandler?
    ensures var StructHandler(base, choice, fields) := reg[t].handler;
      Every(reg, NamedTy(t), o, ok) <==>
        && (base.Some? ==> Every(reg, NamedTy(base.value), o.base.value, ok))
        && (choice.Some? && o.ord >= 1 ==> Every(reg, choice.value[o.ord - 1].ty, o.variants[o.ord - 1], ok))
        && MembersEvery(reg, fields, o.fields, ok)
  {
  }

  lemma NamedOverlay(reg: Registry, t: Name, target: Obj, o: Obj)
    requires t in reg
    ensures Overlay(reg, NamedTy(t), target, o) == OverlayNamed(reg, reg[t].handler, target, o)
  {
  }

  lemma {:induction false} FieldsReadBack(reg: Registry, t: Name, target: Obj, o: Obj, all: seq<Field>)
    requires JsonReady(reg) && t in reg && reg[t].handler.StructHandler?
    requires WellTyped(reg, NamedTy(t), target) && WellTyped(reg, NamedTy(t), o) && Clean(target)
    requires Answers(Slots(reg, t, o), all) && NoFloats(reg, NamedTy(t), o)
    ensures ReadsBack(reg, NamedTy(t), target, o, FromFields(reg, t, target, all))
    decreases o, 2
  {
    hide ToJson, FromJson, FieldSlots, VariantSlots, FromVariants, FromMembers, OverlayMembers, FlatNames, Find, Overlay,
         Every, MembersEvery, Slots, Answers;
    var StructHandler(base, choice, fields) := reg[t].handler;
    assert JsonHandler(reg, reg[t].handler) && HandlerKnown(reg, reg[t].handler) by { HandlerTyped(reg, t); }
    AnswersSplit(reg, t, o, all);
    StructEvery(reg, t, o, ItemNamed);
    StructEvery(reg, t, o, NotFloat);
    if base.Some? { FieldsReadBack(reg, base.value, target.base.value, o.base.value, all); }
    if choice.Some? { ChoiceReadsBack(reg, choice.value, target, o, all); }
    MembersReadBack(reg, fields, target.fields, o.fields, all);
    var r := FromFields(reg, t, target, all);
    if EnumsNamed(reg, NamedTy(t), o) {
      var b := if base.Some? then Some(Overlay(reg, NamedTy(base.value), target.base.value, o.base.value)) else None;
      var c, fs := OverlayChoice(reg, choice, target, o), OverlayMembers(reg, fields, target.fields, o.fields);
      assert choice.Some? ==> choice == Some(choice.value);
      assert base.Some? ==> FromBase(reg, base.value, target, all) == Ok(b);
      assert r == Ok(StructObj(b, c.ord, c.variants, fs));
      NamedOverlay(reg, t, target, o);
    } else if r.Ok? {
      SameParts(r.value, o);
    }
  }

  lemma SameParts(a: Obj, b: Obj)
    requires a.StructObj? && b.StructObj?
    ensures SameObs(a, b) ==>
      && (a.base.Some? ==> b.base.Some? && SameObs(a.base.value, b.base.value))
      && (1 <= a.ord <= |a.variants| ==> a.ord <= |b.variants| && SameObs(a.variants[a.ord - 1], b.variants[a.ord - 1]))
      && SameAll(a.fields, b.fields)
  {
  }

  lemma AnswersSplit(reg: Registry, t: Name, o: Obj, all: seq<Field>)
    requires WellTyped(reg, NamedTy(t), o) && reg[t].handler.StructHandler?
    requires Answers(Slots(reg, t, o), all)
    ensures var StructHandler(base, choice, fields) := reg[t].handler;
      && (base.Some? ==> Answers(Slots(reg, base.value, o.base.value), all))
      && (choice.Some? ==> Answers(VariantSlots(reg, choice.value, o.variants, o.ord), all))
      && Answers(FieldSlots(reg, fields, o.fields), all)
  {
    hide ToJson, FieldSlots, VariantSlots, Lookup;
    var StructHandler(base, choice, fields) := reg[t].handler;
    var a := if base.Some? then Slots(reg, base.value, o.base.value) else [];
    var b := if choice.Some? then VariantSlots(reg, choice.value, o.variants, o.ord) else [];
    var c := FieldSlots(reg, fields, o.fields);
    assert Slots(reg, t, o) == a + b + c;
    ConcatAnswers(a + b, c, all);
    ConcatAnswers(a, b, all);
  }

  lemma ConcatAnswers(a: seq<Slot>, b: seq<Slot>, all: seq<Field>)
    requires Answers(a + b, all)
    ensures Answers(a, all) && Answers(b, all)
  {
    hide Lookup;
    var c := a + b;
    assert forall i :: 0 <= i < |a| ==> a[i] == c[i];
    assert forall i :: 0 <= i < |b| ==> b[i] == c[|a| + i];
  }

  /** Of the variants only the chosen one is found. */
  lemma {:induction false} VariantSlotAt(reg: Registry, vs: seq<Member>, os: seq<Obj>, ord: int, i: nat)
    requires MembersTyped(reg, vs, os) && i < |vs|
    ensures VariantSlots(reg, vs, os, ord)[i] == Slot(vs[i].name, if ord == i + 1 then Some(ToJson(reg, vs[i].ty, os[i])) else None)
    decreases os
  {
    hide ToJson;
    if i > 0 { VariantSlotAt(reg, vs[1..], os[1..], ord - 1, i - 1); }
  }

  lemma {:induction false} VariantsRead(reg: Registry, vs: seq<Member>, k: nat, target: Obj, matched: nat, o: Obj, all: seq<Field>)
    requires target.StructObj? && |target.variants| == |vs| && k <= |vs|
    requires o.StructObj? && MembersTyped(reg, vs, o.variants) && o.ord <= |vs|
    requires Answers(VariantSlots(reg, vs, o.variants, o.ord), all)
    requires matched <= if o.ord <= k then 1 else 0
    ensures FromVariants(reg, vs, k, target, matched, all) ==
      if o.ord <= k then Ok(target)
      else
        var r := FromJson(reg, vs[o.ord - 1].ty, target.variants[o.ord - 1], ToJson(reg, vs[o.ord - 1].ty, o.variants[o.ord - 1]));
        if r.Err? then r else Ok(target.(ord := o.ord, variants := target.variants[o.ord - 1 := r.value]))
    decreases |vs| - k
  {
    hide ToJson, FromJson, VariantSlots, Find, WellTyped;
    if k < |vs| {
      VariantSlotAt(reg, vs, o.variants, o.ord, k);
      assert Lookup(all, vs[k].name) == VariantSlots(reg, vs, o.variants, o.ord)[k].value;
      if k + 1 == o.ord {
        var r := FromJson(reg, vs[k].ty, target.variants[k], ToJson(reg, vs[k].ty, o.variants[k]));
        if r.Ok? {
          VariantsRead(reg, vs, k + 1, target.(ord := k + 1, variants := target.variants[k := r.value]), matched + 1, o, all);
        }
      } else {
        VariantsRead(reg, vs, k + 1, target, matched, o, all);
      }
    }
  }

  lemma {:induction false} ChoiceReadsBack(reg: Registry, vs: seq<Member>, target: Obj, o: Obj, all: seq<Field>)
    requires JsonReady(reg) && AllKnown(reg, vs) && (forall i :: 0 <= i < |vs| ==> Simple(vs[i].ty))
    requires target.StructObj? && ChoiceTyped(reg, Some(vs), target) && Clean(target)
    requires o.StructObj? && ChoiceTyped(reg, Some(vs), o)
    requires Answers(VariantSlots(reg, vs, o.variants, o.ord), all)
    requires o.ord >= 1 ==> NoFloats(reg, vs[o.ord - 1].ty, o.variants[o.ord - 1])
    ensures var r := FromVariants(reg, vs, 0, target, 0, all);
      if o.ord >= 1 ==> EnumsNamed(reg, vs[o.ord - 1].ty, o.variants[o.ord - 1])
      then r == Ok(OverlayChoice(reg, Some(vs), target, o))
      else r.Ok? ==> r.value.ord == o.ord && |r.value.variants| == |o.variants| && !SameObs(r.value.variants[o.ord - 1], o.variants[o.ord - 1])
    decreases o, 1
  {
    hide ToJson, FromJson, VariantSlots, FromVariants, Overlay, WellTyped, JsonReady, Find, Answers, Every, SameObs;
    VariantsRead(reg, vs, 0, target, 0, o, all);
    if o.ord >= 1 {
      JsonReadsBack(reg, vs[o.ord - 1].ty, target.variants[o.ord - 1], o.variants[o.ord - 1]);
    }
  }

  lemma {:induction false} MembersReadBack(reg: Registry, ms: seq<Member>, targets: seq<Obj>, os: seq<Obj>, all: seq<Field>)
    requires JsonReady(reg) && AllKnown(reg, ms) && (forall i :: 0 <= i < |ms| ==> MemberTy(ms[i].ty))
    requires MembersTyped(reg, ms, targets) && MembersTyped(reg, ms, os)
    requires forall i :: 0 <= i < |targets| ==> Clean(targets[i])
    requires Answers(FieldSlots(reg, ms, os), all) && MembersEvery(reg, ms, os, NotFloat)
    ensures var r := FromMembers(reg, ms, targets, all);
      if MembersEvery(reg, ms, os, ItemNamed) then r == Ok(OverlayMembers(reg, ms, targets, os)) else r.Ok? ==> !SameAll(r.value, os)
    decreases os, 1
  {
    hide ToJson, FromJson, FromMember, Overlay, WellTyped, JsonReady, Find, Lookup, Clean, Known, MemberTy, Every, SameObs;
    if os != [] {
      var slots := FieldSlots(reg, ms, os);
      assert slots[1..] == FieldSlots(reg, ms[1..], os[1..]);
      assert slots == [slots[0]] + slots[1..];
      ConcatAnswers([slots[0]], slots[1..], all);
      MemberReadsBack(reg, ms[0], targets[0], os[0], all);
      MembersReadBack(reg, ms[1..], targets[1..], os[1..], all);
      assert os == [os[0]] + os[1..] && ms == [ms[0]] + ms[1..];
      var r := FromMembers(reg, ms, targets, all);
      if r.Ok? {
        assert r.value[1..] == FromMembers(reg, ms[1..], targets[1..], all).value;
        assert r.value == [r.value[0]] + r.value[1..];
      }
    }
  }

  lemma {:induction false} MemberReadsBack(reg: Registry, m: Member, target: Obj, o: Obj, all: seq<Field>)
    requires JsonReady(reg) && Known(reg, m.ty) && MemberTy(m.ty)
    requires WellTyped(reg, m.ty, target) && WellTyped(reg, m.ty, o) && Clean(target)
    requires Lookup(all, m.name) == if m.ty.OptTy? && !o.has then None else Some(ToJson(reg, m.ty, o))
    requires NoFloats(reg, m.ty, o)
    ensures ReadsBack(reg, m.ty, target, o, FromMember(reg, m, target, all))
    decreases o, 4
  {
    hide ToJson, FromJson, JsonReady, Find;
    if !m.ty.OptTy? || o.has {
      JsonReadsBack(reg, m.ty, target, o);
    }
  }

  lemma {:induction false} ItemsReadBack(reg: Registry, elem: Ty, max: Option<nat>, size: nat, os: seq<Obj>)
    requires JsonReady(reg) && Known(reg, elem) && Simple(elem)
    requires ItemsTyped(reg, elem, os) && (max.Some? ==> size + |os| <= max.value)
    requires ItemsEvery(reg, elem, os, NotFloat)
    ensures var r := FromItems(reg, elem, max, ItemsJson(reg, elem, os), size);
      if ItemsEvery(reg, elem, os, ItemNamed) then r == Ok(OverlayItems(reg, elem, os)) else r.Ok? ==> !SameAll(r.value, os)
    decreases os, 1
  {
    hide ToJson, FromJson, Overlay, WellTyped, JsonReady, Clean, Known, Every, SameObs, Fresh;
    if os != [] {
      assert Clean(Fresh(reg, elem)) && WellTyped(reg, elem, Fresh(reg, elem)) by { ReadyIsWellFormed(reg); FreshTyped(reg, elem); }
      JsonReadsBack(reg, elem, Fresh(reg, elem), os[0]);
      ItemsReadBack(reg, elem, max, size + 1, os[1..]);
      var js := ItemsJson(reg, elem, os);
      assert js[1..] == ItemsJson(reg, elem, os[1..]);
      assert os == [os[0]] + os[1..];
      var r := FromItems(reg, elem, max, js, size);
      if r.Ok? {
        assert r.value[1..] == FromItems(reg, elem, max, js[1..], size + 1).value;
        assert r.value == [r.value[0]] + r.value[1..];
      }
    }
  }

  lemma ReadyIsWellFormed(reg: Registry)
    requires JsonReady(reg)
    ensures WellFormed(reg)
  {
  }
}
