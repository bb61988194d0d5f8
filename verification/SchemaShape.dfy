/** What the generated code of a schema is, member by member, in terms of the schema alone; and what
    that makes of optional members and lists on the wire. */
module SchemaShape {
  import opened Results
  import opened Bytes
  import opened CdrPrimitives
  import opened Accessors
  import opened CdrCodec
  import opened SchemaSubset

  /** A type name stands for an XSD primitive, for the primitive that a restriction restricts, or
      for the class generated under that name. */
  predicate StandsFor(s: Schema, typeName: Name, ty: Ty) {
    || (typeName in s.prims && ty == PrimTy(s.prims[typeName]))
    || (typeName !in s.prims && typeName in s.types && s.types[typeName].RestrictionModel? && ty == PrimTy(s.types[typeName].prim))
    || (typeName !in s.prims && Concrete(s, typeName) && ty == NamedTy(typeName))
  }

  /** A member that may be left out: optional, not a list, not a UUID. */
  predicate MayBeAbsent(s: Schema, f: FieldModel) {
    f.optional && f.list == NotList && f.typeName != s.uuid
  }

  predicate FieldShape(s: Schema, f: FieldModel, m: Member) {
    && m.name == f.name
    && (m.ty.OptTy? <==> MayBeAbsent(s, f))
    && (m.ty.ListTy? <==> f.list != NotList)
    && (m.ty.ListTy? ==>
         && (m.ty.maxOccurs.None? <==> f.list == Unbounded)
         && (m.ty.maxOccurs.Some? ==> f.list == Bounded(m.ty.maxOccurs.value)))
    && StandsFor(s, f.typeName, if m.ty.OptTy? || m.ty.ListTy? then m.ty.elem else m.ty)
  }

  predicate VariantShape(s: Schema, v: FieldModel, m: Member) {
    m.name == v.name && StandsFor(s, v.typeName, m.ty)
  }

  /** The generated class of a complex type: its base unless that is a primitive, its choice, its
      fields, all in the order of the schema. */
  predicate ClassShape(s: Schema, tm: TypeModel, h: Handler) {
    && tm.ComplexModel? && h.StructHandler?
    && (h.base.Some? <==> tm.base.Some? && tm.base.value !in s.prims)
    && (h.base.Some? ==> h.base == tm.base)
    && (h.choice.Some? <==> tm.choices != [])
    && (h.choice.Some? ==>
         && |h.choice.value| == |tm.choices[0]|
         && forall i :: 0 <= i < |tm.choices[0]| ==> VariantShape(s, tm.choices[0][i], h.choice.value[i]))
    && |h.fields| == |tm.fields|
    && forall i :: 0 <= i < |tm.fields| ==> FieldShape(s, tm.fields[i], h.fields[i])
  }

  lemma ReferenceStandsFor(s: Schema, owner: Name, n: Name, byValue: bool)
    requires RefCompiles(s, owner, n, byValue)
    ensures StandsFor(s, n, Resolve(s, n))
  {
  }

  /** For every schema that compiles the registry holds exactly its enumerations and complex types;
      an enumeration with its items in order, and a complex type with the class of the schema. */
  lemma GeneratedShape(s: Schema, n: Name)
    requires Compiles(s)
    ensures n in Generate(s) <==> n in s.types && !s.types[n].RestrictionModel?
    ensures n in Generate(s) && s.types[n].EnumModel? ==> Generate(s)[n].handler == EnumHandler(s.types[n].values)
    ensures n in Generate(s) && s.types[n].ComplexModel? ==> ClassShape(s, s.types[n], Generate(s)[n].handler)
  {
    hide Compiles, Resolve, StandsFor, Construct;
    if n in Generate(s) && s.types[n].ComplexModel? {
      assert TypeCompiles(s, n) by { EachCompiles(s, n); }
      var ComplexModel(base, choices, fields) := s.types[n];
      var h := Generate(s)[n].handler;
      forall i | 0 <= i < |fields|
        ensures FieldShape(s, fields[i], h.fields[i])
      {
        ReferenceStandsFor(s, n, fields[i].typeName, fields[i].list.NotList?);
      }
      if choices != [] {
        forall i | 0 <= i < |choices[0]|
          ensures VariantShape(s, choices[0][i], h.choice.value[i])
        {
          ReferenceStandsFor(s, n, choices[0][i].typeName, true);
        }
      }
    }
  }

  // -- optional members ------------------------------------------------------------------------------

  function WithField(o: Obj, i: nat, f: Obj): Obj
    requires o.StructObj? && i < |o.fields|
  {
    o.(fields := o.fields[i := f])
  }

  /** In every object of a generated class a member that may be absent can be taken out: what is
      left is well typed, and the member is the one byte zero on the wire, at any offset. */
  lemma AbsentMember(s: Schema, n: Name, i: nat, o: Obj, off: nat)
    requires Compiles(s) && n in s.types && s.types[n].ComplexModel?
    requires i < |s.types[n].fields| && MayBeAbsent(s, s.types[n].fields[i])
    requires WellTyped(Generate(s), NamedTy(n), o)
    ensures o.StructObj? && i < |o.fields| && o.fields[i].OptObj?
    ensures WellTyped(Generate(s), NamedTy(n), WithField(o, i, o.fields[i].(has := false)))
    ensures Encode(Generate(s), Generate(s)[n].handler.fields[i].ty, o.fields[i].(has := false), off) == Ok([0])
  {
    hide Generate, Compiles, StandsFor;
    GeneratedShape(s, n);
    var reg := Generate(s);
    var fields, f := reg[n].handler.fields, o.fields[i].(has := false);
    assert FieldShape(s, s.types[n].fields[i], fields[i]);
    assert WellTyped(reg, fields[i].ty, o.fields[i]);
    AbsentTyped(reg, fields[i].ty, o.fields[i]);
    FieldReplaced(reg, n, o, i, f);
  }

  lemma AbsentTyped(reg: Registry, ty: Ty, o: Obj)
    requires ty.OptTy? && WellTyped(reg, ty, o)
    ensures WellTyped(reg, ty, o.(has := false))
  {
  }

  lemma FieldReplaced(reg: Registry, n: Name, o: Obj, i: nat, f: Obj)
    requires WellTyped(reg, NamedTy(n), o) && reg[n].handler.StructHandler?
    requires i < |o.fields| && WellTyped(reg, reg[n].handler.fields[i].ty, f)
    ensures WellTyped(reg, NamedTy(n), WithField(o, i, f))
  {
    var r := WithField(o, i, f);
    assert forall j :: 0 <= j < |r.fields| ==> r.fields[j] == if j == i then f else o.fields[j];
  }

  /** A member that may not be absent is there in every object: an optional is never stored for it. */
  lemma PresentMember(s: Schema, n: Name, i: nat, o: Obj)
    requires Compiles(s) && n in s.types && s.types[n].ComplexModel?
    requires i < |s.types[n].fields| && !MayBeAbsent(s, s.types[n].fields[i])
    requires WellTyped(Generate(s), NamedTy(n), o)
    ensures o.StructObj? && i < |o.fields| && !o.fields[i].OptObj?
    ensures o.fields[i].ListObj? <==> s.types[n].fields[i].list != NotList
    ensures s.types[n].fields[i].list.Bounded? ==> |o.fields[i].items| <= s.types[n].fields[i].list.max
  {
    hide Generate, Compiles, StandsFor;
    GeneratedShape(s, n);
    var fields := Generate(s)[n].handler.fields;
    assert FieldShape(s, s.types[n].fields[i], fields[i]);
    assert WellTyped(Generate(s), fields[i].ty, o.fields[i]);
    StoredAs(Generate(s), fields[i].ty, o.fields[i]);
    ElementSimple(s, s.types[n].fields[i].typeName, fields[i].ty);
  }

  lemma ElementSimple(s: Schema, n: Name, ty: Ty)
    requires StandsFor(s, n, if ty.OptTy? || ty.ListTy? then ty.elem else ty)
    ensures ty.OptTy? || ty.ListTy? || ty.PrimTy? || ty.NamedTy?
  {
  }

  lemma StoredAs(reg: Registry, ty: Ty, o: Obj)
    requires WellTyped(reg, ty, o)
    ensures ty.OptTy? <==> o.OptObj?
    ensures ty.ListTy? <==> o.ListObj?
    ensures ty.ListTy? && ty.maxOccurs.Some? ==> |o.items| <= ty.maxOccurs.value
  {
  }

  // -- default-constructed objects -----------------------------------------------------------------------

  /** Nothing set: no optional, no choice, no item in any list, no enumeration value, empty strings,
      nil UUIDs. */
  predicate Blank(o: Obj) {
    match o
    case Leaf(v) => (v.TextV? ==> v.s == []) && (v.UuidV? ==> forall i :: 0 <= i < 16 ==> v.o[i] == 0)
    case EnumObj(item) => item == 0
    case OptObj(has, i) => !has && Blank(i)
    case ListObj(items) => items == []
    case StructObj(base, ord, variants, fields) =>
      && ord == 0
      && (base.Some? ==> Blank(base.value))
      && (forall i :: 0 <= i < |variants| ==> Blank(variants[i]))
      && (forall i :: 0 <= i < |fields| ==> Blank(fields[i]))
  }

  lemma {:induction false} ConstructBlank(s: Schema, n: Name)
    requires Compiles(s) && Concrete(s, n)
    ensures Blank(Construct(s, n))
    decreases if n in s.order then s.order[n] else 0, 2
  {
    hide Resolve, ConstructField, ConstructMember, Compiles;
    assert TypeCompiles(s, n) by { EachCompiles(s, n); }
    match s.types[n]
    case EnumModel(_) =>
    case ComplexModel(base, choices, fields) =>
      if base.Some? && base.value !in s.prims {
        BaseByValue(s, n, base.value);
        ConstructBlank(s, base.value);
      }
      if choices != [] {
        forall i | 0 <= i < |choices[0]|
          ensures Blank(ConstructMember(s, n, choices[0][i].typeName))
        {
          ConstructMemberBlank(s, n, choices[0][i].typeName);
        }
      }
      forall i | 0 <= i < |fields|
        ensures Blank(ConstructField(s, n, fields[i]))
      {
        ConstructFieldBlank(s, n, fields[i]);
      }
  }

  lemma {:induction false} ConstructMemberBlank(s: Schema, owner: Name, typeName: Name)
    requires Compiles(s) && RefCompiles(s, owner, typeName, true)
    ensures Blank(ConstructMember(s, owner, typeName))
    decreases if owner in s.order then s.order[owner] else 0, 0
  {
    hide Construct, Compiles;
    if Resolve(s, typeName).NamedTy? { ConstructBlank(s, typeName); }
  }

  lemma {:induction false} ConstructFieldBlank(s: Schema, owner: Name, f: FieldModel)
    requires Compiles(s) && RefCompiles(s, owner, f.typeName, f.list.NotList?)
    ensures Blank(ConstructField(s, owner, f))
    decreases if owner in s.order then s.order[owner] else 0, 1
  {
    hide Construct, Compiles, Resolve, ConstructMember;
    if f.list.NotList? { ConstructMemberBlank(s, owner, f.typeName); }
  }

  /** Whatever the schema, the default constructor of every generated class, and every new list item
      or member, has nothing set. */
  lemma {:induction false} DefaultBlank(s: Schema, ty: Ty)
    requires Compiles(s) && Known(Generate(s), ty)
    ensures Blank(Fresh(Generate(s), ty))
    decreases ty
  {
    hide Compiles, Construct;
    match ty
    case PrimTy(_) =>
    case NamedTy(n) => ConstructBlank(s, n);
    case OptTy(e) => DefaultBlank(s, e);
    case ListTy(_, _) =>
  }
}
