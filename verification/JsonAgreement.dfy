/** JSON under part of a registry and under the whole: a subset library reads and writes what the
    full library does. */
module JsonAgreement {
  import opened Results
  import opened Bytes
  import opened Accessors
  import opened CdrAgreement
  import opened JsonText
  import opened JsonCodec
  import opened JsonRoundTrip
  import opened JsonDocuments
  import SchemaSubset

  // -- writing -------------------------------------------------------------------------------------

  lemma {:induction false} TypedAgrees(small: Registry, big: Registry, ty: Ty, o: Obj)
    requires Part(small, big) && Known(small, ty)
    ensures WellTyped(small, ty, o) <==> WellTyped(big, ty, o)
    decreases o
  {
    match ty
    case PrimTy(_) =>
    case OptTy(e) => if o.OptObj? { TypedAgrees(small, big, e, o.o); }
    case ListTy(e, _) => if o.ListObj? { forall i | 0 <= i < |o.items| { TypedAgrees(small, big, e, o.items[i]); } }
    case NamedTy(t) =>
      assert small[t] == big[t] && HandlerKnown(small, small[t].handler);
      match small[t].handler
      case EnumHandler(_) =>
      case StructHandler(base, choice, fields) =>
        if o.StructObj? {
          if base.Some? && o.base.Some? { TypedAgrees(small, big, NamedTy(base.value), o.base.value); }
          if choice.Some? && |o.variants| == |choice.value| {
            forall i | 0 <= i < |o.variants| { TypedAgrees(small, big, choice.value[i].ty, o.variants[i]); }
          }
          if |o.fields| == |fields| {
            forall i | 0 <= i < |o.fields| { TypedAgrees(small, big, fields[i].ty, o.fields[i]); }
          }
        }
  }

  lemma {:induction false} ToJsonAgrees(small: Registry, big: Registry, ty: Ty, o: Obj)
    requires Part(small, big) && Known(small, ty) && WellTyped(small, ty, o) && WellTyped(big, ty, o)
    ensures ToJson(small, ty, o) == ToJson(big, ty, o)
    decreases o, 2
  {
    hide Slots, ItemsJson, Present;
    match ty
    case PrimTy(_) =>
    case OptTy(e) => if o.has { ToJsonAgrees(small, big, e, o.o); }
    case ListTy(e, _) => ItemsJsonAgree(small, big, e, o.items);
    case NamedTy(t) => if small[t].handler.StructHandler? { SlotsAgree(small, big, t, o); }
  }

  lemma {:induction false} SlotsAgree(small: Registry, big: Registry, t: Name, o: Obj)
    requires Part(small, big) && t in small && WellTyped(small, NamedTy(t), o) && WellTyped(big, NamedTy(t), o)
    ensures Slots(small, t, o) == Slots(big, t, o)
    decreases o, 1
  {
    hide ToJson, FieldSlots, VariantSlots;
    assert small[t] == big[t] && HandlerKnown(small, small[t].handler);
    match small[t].handler
    case EnumHandler(_) =>
    case StructHandler(base, choice, fields) =>
      if base.Some? { SlotsAgree(small, big, base.value, o.base.value); }
      if choice.Some? { VariantSlotsAgree(small, big, choice.value, o.variants, o.ord); }
      FieldSlotsAgree(small, big, fields, o.fields);
  }

  lemma {:induction false} VariantSlotsAgree(small: Registry, big: Registry, vs: seq<Member>, os: seq<Obj>, ord: int)
    requires Part(small, big) && AllKnown(small, vs) && MembersTyped(small, vs, os) && MembersTyped(big, vs, os)
    ensures VariantSlots(small, vs, os, ord) == VariantSlots(big, vs, os, ord)
    decreases os, 0
  {
    hide ToJson, WellTyped, Known, Part;
    if vs != [] {
      if ord == 1 { ToJsonAgrees(small, big, vs[0].ty, os[0]); }
      VariantSlotsAgree(small, big, vs[1..], os[1..], ord - 1);
    }
  }

  lemma {:induction false} FieldSlotsAgree(small: Registry, big: Registry, ms: seq<Member>, os: seq<Obj>)
    requires Part(small, big) && AllKnown(small, ms) && MembersTyped(small, ms, os) && MembersTyped(big, ms, os)
    ensures FieldSlots(small, ms, os) == FieldSlots(big, ms, os)
    decreases os, 0
  {
    hide ToJson, Known, Part;
    if ms != [] {
      ToJsonAgrees(small, big, ms[0].ty, os[0]);
      FieldSlotsAgree(small, big, ms[1..], os[1..]);
    }
  }

  lemma {:induction false} ItemsJsonAgree(small: Registry, big: Registry, elem: Ty, os: seq<Obj>)
    requires Part(small, big) && Known(small, elem) && ItemsTyped(small, elem, os) && ItemsTyped(big, elem, os)
    ensures ItemsJson(small, elem, os) == ItemsJson(big, elem, os)
    decreases os, 0
  {
    hide ToJson, WellTyped, Known, Part;
    if os != [] {
      ToJsonAgrees(small, big, elem, os[0]);
      ItemsJsonAgree(small, big, elem, os[1..]);
    }
  }

  // -- reading ---------------------------------------------------------------------------------------

  /** Reading any tree into any target. */
  lemma {:induction false} FromJsonAgrees(small: Registry, big: Registry, ty: Ty, target: Obj, j: Json)
    requires Part(small, big) && Known(small, ty)
    ensures FromJson(small, ty, target, j) == FromJson(big, ty, target, j)
    ensures FromJson(small, ty, target, j) != Err(NoHandler)
    decreases j, 0, target, 2
  {
    hide FromFields, FromItems;
    match ty
    case PrimTy(p) => PrimNeverMisses(j);
    case OptTy(e) => if target.OptObj? { FromJsonAgrees(small, big, e, target.o, j); }
    case ListTy(e, max) => if j.JArr? { FromItemsAgree(small, big, e, max, j.items, 0); }
    case NamedTy(t) =>
      if j.JObj? && small[t].handler.StructHandler? { FromFieldsAgree(small, big, t, target, j.members); }
  }

  lemma PrimNeverMisses(j: Json)
    ensures forall p :: ParsePrim(p, j) != Err(NoHandler)
  {
    forall p
      ensures ParsePrim(p, j) != Err(NoHandler)
    {
      if p.PBytes? && j.JStr? && |j.s| % 2 == 0 { HexNeverMisses(j.s, |j.s| / 2); }
    }
  }

  lemma {:induction false} HexNeverMisses(t: seq<byte>, i: nat)
    requires 2 * i <= |t|
    ensures HexPairs(t, i) != Err(NoHandler)
  {
    if i > 0 { HexNeverMisses(t, i - 1); }
  }

  lemma {:induction false} FromFieldsAgree(small: Registry, big: Registry, t: Name, target: Obj, all: seq<Field>)
    requires Part(small, big) && t in small
    ensures FromFields(small, t, target, all) == FromFields(big, t, target, all)
    ensures FromFields(small, t, target, all) != Err(NoHandler)
    decreases all, 2, target, 1
  {
    hide FromVariants, FromMembers, FromJson;
    assert small[t] == big[t] && HandlerKnown(small, small[t].handler);
    match small[t].handler
    case EnumHandler(_) =>
    case StructHandler(base, choice, fields) =>
      if target.StructObj? && base.Some? == target.base.Some? {
        if base.Some? { FromFieldsAgree(small, big, base.value, target.base.value, all); }
        if choice.Some? { FromVariantsAgree(small, big, choice.value, 0, target, 0, all); }
        FromMembersAgree(small, big, fields, target.fields, all);
      }
  }

  lemma {:induction false} FromVariantsAgree(small: Registry, big: Registry, vs: seq<Member>, k: nat, target: Obj, matched: nat, all: seq<Field>)
    requires Part(small, big) && AllKnown(small, vs) && target.StructObj? && k <= |vs|
    ensures FromVariants(small, vs, k, target, matched, all) == FromVariants(big, vs, k, target, matched, all)
    ensures FromVariants(small, vs, k, target, matched, all) != Err(NoHandler)
    decreases all, 1, |vs| - k
  {
    hide FromJson, Known, Part, Find;
    if |vs| == |target.variants| && k < |vs| {
      match Find(all, vs[k].name)
      case None => FromVariantsAgree(small, big, vs, k + 1, target, matched, all);
      case Some(i) =>
        FromJsonAgrees(small, big, vs[k].ty, target.variants[k], all[i].value);
        var v := FromJson(small, vs[k].ty, target.variants[k], all[i].value);
        if v.Ok? {
          FromVariantsAgree(small, big, vs, k + 1, target.(ord := k + 1, variants := target.variants[k := v.value]), matched + 1, all);
        }
    }
  }

  lemma {:induction false} FromMembersAgree(small: Registry, big: Registry, ms: seq<Member>, targets: seq<Obj>, all: seq<Field>)
    requires Part(small, big) && AllKnown(small, ms)
    ensures FromMembers(small, ms, targets, all) == FromMembers(big, ms, targets, all)
    ensures FromMembers(small, ms, targets, all) != Err(NoHandler)
    decreases all, 0, targets, 0
  {
    hide FromJson, Known, Part, Find;
    if |ms| == |targets| && ms != [] {
      var at := Find(all, ms[0].name);
      if at.Some? { FromJsonAgrees(small, big, ms[0].ty, targets[0], all[at.value].value); }
      FromMembersAgree(small, big, ms[1..], targets[1..], all);
    }
  }

  lemma {:induction false} FromItemsAgree(small: Registry, big: Registry, elem: Ty, max: Option<nat>, js: seq<Json>, size: nat)
    requires Part(small, big) && Known(small, elem)
    ensures FromItems(small, elem, max, js, size) == FromItems(big, elem, max, js, size)
    ensures FromItems(small, elem, max, js, size) != Err(NoHandler)
    decreases js, 2
  {
    hide FromJson, Known, Part, Fresh;
    if js != [] {
      FreshAgrees(small, big, elem);
      FromJsonAgrees(small, big, elem, Fresh(small, elem), js[0]);
      FromItemsAgree(small, big, elem, max, js[1..], size + 1);
    }
  }

  lemma {:induction false} UnescapeNeverMisses(s: seq<byte>)
    ensures Unescape(s) != Err(NoHandler)
    decreases |s|
  {
    if s != [] {
      UnescapeNeverMisses(s[1..]);
      if |s| >= 2 { UnescapeNeverMisses(s[2..]); }
      if |s| >= 6 { UnescapeNeverMisses(s[6..]); }
    }
  }

  lemma {:induction false} ParseNeverMisses(s: seq<byte>)
    ensures ParseValue(s) != Err(NoHandler)
    decreases |s|, 0
  {
    hide ParseMembers, ParseItems, Unescape, Utf8;
    if s != [] {
      UnescapeNeverMisses(s[1..]);
      MembersNeverMiss(s[1..]);
      ItemsNeverMiss(s[1..]);
    }
  }

  lemma {:induction false} MembersNeverMiss(s: seq<byte>)
    ensures ParseMembers(s) != Err(NoHandler)
    decreases |s|, 1
  {
    hide ParseValue, Unescape, Utf8;
    if s != [] && s[0] == 34 {
      UnescapeNeverMisses(s[1..]);
      if ParseString(s[1..]).Ok? {
        var r := ParseString(s[1..]).value.1;
        if r != [] && r[0] == 58 {
          ParseNeverMisses(r[1..]);
          if ParseValue(r[1..]).Ok? && ParseValue(r[1..]).value.1 != [] {
            MembersNeverMiss(ParseValue(r[1..]).value.1[1..]);
          }
        }
      }
    }
  }

  lemma {:induction false} ItemsNeverMiss(s: seq<byte>)
    ensures ParseItems(s) != Err(NoHandler)
    decreases |s|, 1
  {
    hide ParseValue;
    ParseNeverMisses(s);
    if ParseValue(s).Ok? && ParseValue(s).value.1 != [] {
      ItemsNeverMiss(ParseValue(s).value.1[1..]);
    }
  }

  // -- subset libraries ----------------------------------------------------------------------------------

  /** For every schema and selection the subset library and the full one write the same JSON for a
      message of a selected type and read any text alike, and no lookup misses. */
  lemma JsonCompatible(s: SchemaSubset.Schema, roots: seq<Name>, required: set<Name>, t: Name, o: Obj, text: seq<byte>)
    requires SchemaSubset.Compiles(s) && SchemaSubset.IsClosure(s.types, roots, required)
    requires t in required && SchemaSubset.Concrete(s, t)
    requires WellTyped(SchemaSubset.Generate(s), NamedTy(t), o)
    ensures SchemaSubset.Compiles(SchemaSubset.Subset(s, required))
    ensures var sub, full := SchemaSubset.Generate(SchemaSubset.Subset(s, required)), SchemaSubset.Generate(s);
      && WellTyped(sub, NamedTy(t), o)
      && (NoFloats(full, NamedTy(t), o) ==> WriteText(sub, t, o) == WriteText(full, t, o))
      && ReadText(sub, t, text) == ReadText(full, t, text)
      && ReadText(sub, t, text) != Err(NoHandler)
  {
    hide SchemaSubset.ClosedTypes, SchemaSubset.Compiles, ToJson, FromJson, WellTyped, ParseValue, Print;
    SchemaSubset.SubsetIsPart(s, required);
    var sub, full := SchemaSubset.Generate(SchemaSubset.Subset(s, required)), SchemaSubset.Generate(s);
    TypedAgrees(sub, full, NamedTy(t), o);
    ToJsonAgrees(sub, full, NamedTy(t), o);
    FreshAgrees(sub, full, NamedTy(t));
    ParseNeverMisses(text);
    if ParseValue(text).Ok? {
      FromJsonAgrees(sub, full, NamedTy(t), Fresh(sub, NamedTy(t)), ParseValue(text).value.0);
    }
  }
}
