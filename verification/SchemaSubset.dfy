/** The schema compiler's type models, the closure that selects a subset of them, and the code it
    generates for a schema. */
module SchemaSubset {
  import opened Results
  import opened Bytes
  import opened CdrPrimitives
  import opened Accessors
  import opened CdrCodec
  import CdrAgreement

  datatype ListKind = NotList | Bounded(max: nat) | Unbounded

  datatype FieldModel = FieldModel(name: Name, typeName: Name, optional: bool, list: ListKind)

  datatype TypeModel =
    | EnumModel(values: seq<Name>)
    | RestrictionModel(prim: PrimType)
    | ComplexModel(base: Option<Name>, choices: seq<seq<FieldModel>>, fields: seq<FieldModel>)

  type Types = map<Name, TypeModel>

  // -- the types a type refers to -------------------------------------------------------------

  predicate BaseRefers(tm: TypeModel, n: Name) {
    tm.ComplexModel? && tm.base == Some(n)
  }

  ghost predicate FieldRefers(tm: TypeModel, n: Name) {
    tm.ComplexModel? && exists i :: 0 <= i < |tm.fields| && tm.fields[i].typeName == n
  }

  ghost predicate VariantUpTo(tm: TypeModel, k: nat, n: Name)
    requires tm.ComplexModel? && k <= |tm.choices|
  {
    exists c, i :: 0 <= c < k && 0 <= i < |tm.choices[c]| && tm.choices[c][i].typeName == n
  }

  ghost predicate VariantRefers(tm: TypeModel, n: Name) {
    tm.ComplexModel? && VariantUpTo(tm, |tm.choices|, n)
  }

  ghost predicate Refers(tm: TypeModel, n: Name) {
    BaseRefers(tm, n) || FieldRefers(tm, n) || VariantRefers(tm, n)
  }

  /** Known types, among them every known type that one of them refers to. */
  ghost predicate ClosedTypes(types: Types, s: set<Name>) {
    && s <= types.Keys
    && forall t, n :: t in s && n in types && Refers(types[t], n) ==> n in s
  }

  ghost predicate HoldsRoots(types: Types, roots: seq<Name>, s: set<Name>) {
    forall n :: n in roots && n in types ==> n in s
  }

  /** The least closed set that holds the known roots. */
  ghost predicate IsClosure(types: Types, roots: seq<Name>, r: set<Name>) {
    && ClosedTypes(types, r)
    && HoldsRoots(types, roots, r)
    && forall s :: ClosedTypes(types, s) && HoldsRoots(types, roots, s) ==> r <= s
  }

  // -- _collect_required_type_names ---------------------------------------------------------------

  method PushFields(types: Types, fields: seq<FieldModel>, pending: seq<Name>) returns (r: seq<Name>)
    ensures forall n :: n in r <==> n in pending || (n in types && exists i :: 0 <= i < |fields| && fields[i].typeName == n)
  {
    r := pending;
    for k := 0 to |fields|
      invariant forall n :: n in r <==> n in pending || (n in types && exists i :: 0 <= i < k && fields[i].typeName == n)
    {
      if fields[k].typeName in types {
        r := r + [fields[k].typeName];
      }
    }
  }

  method PushReferences(types: Types, tm: TypeModel, pending: seq<Name>) returns (r: seq<Name>)
    ensures forall n :: n in r <==> n in pending || (n in types && Refers(tm, n))
  {
    r := pending;
    if tm.ComplexModel? {
      if tm.base.Some? && tm.base.value in types {
        r := r + [tm.base.value];
      }
      r := PushFields(types, tm.fields, r);
      ghost var before := r;
      for c := 0 to |tm.choices|
        invariant forall n :: n in r <==> n in before || (n in types && VariantUpTo(tm, c, n))
      {
        r := PushFields(types, tm.choices[c], r);
      }
    }
  }

  method CollectRequired(types: Types, roots: seq<Name>) returns (required: set<Name>)
    ensures IsClosure(types, roots, required)
  {
    hide Refers;
    required := {};
    var pending := roots;
    while pending != []
      invariant required <= types.Keys
      invariant forall n :: n in roots && n in types ==> n in required || n in pending
      invariant forall t, n :: t in required && n in types && Refers(types[t], n) ==> n in required || n in pending
      invariant forall s :: ClosedTypes(types, s) && HoldsRoots(types, roots, s) ==>
                  required <= s && forall n :: n in pending && n in types ==> n in s
      decreases types.Keys - required, |pending|
    {
      var name := pending[|pending| - 1];
      ghost var before := pending;
      pending := pending[..|pending| - 1];
      assert forall n :: n in before <==> n in pending || n == name by {
        assert before == pending + [name];
      }
      if name in required {
        continue;
      }
      if name !in types {
        continue;
      }
      required := required + {name};
      pending := PushReferences(types, types[name], pending);
    }
  }

  /** There is only one closure, so the order in which pending names are popped is immaterial, and
      more roots never lose a type. */
  lemma ClosureMonotone(types: Types, roots: seq<Name>, more: seq<Name>, r: set<Name>, r': set<Name>)
    requires IsClosure(types, roots, r) && IsClosure(types, more, r')
    requires forall n :: n in roots ==> n in more
    ensures r <= r'
    ensures (forall n :: n in more ==> n in roots) ==> r == r'
  {
    assert HoldsRoots(types, roots, r');
    if forall n :: n in more ==> n in roots {
      assert HoldsRoots(types, more, r);
    }
  }

  // -- code generation ---------------------------------------------------------------------------------

  /** A schema with the C++ types of the XSD primitives, and an order in which the generated
      headers can be included: what is stored by value comes first. */
  datatype Schema = Schema(prims: map<Name, PrimType>, uuid: Name, types: Types, order: map<Name, nat>)

  function Resolve(s: Schema, typeName: Name): (ty: Ty)
    ensures ty.PrimTy? || ty == NamedTy(typeName)
  {
    if typeName in s.prims then PrimTy(s.prims[typeName])
    else if typeName in s.types && s.types[typeName].RestrictionModel? then PrimTy(s.types[typeName].prim)
    else NamedTy(typeName)
  }

  /** The template tries list, then UUID, then optional: an optional UUID is always written. */
  function FieldMember(s: Schema, f: FieldModel): Member {
    var elem := Resolve(s, f.typeName);
    Member(f.name,
           match f.list
           case Bounded(max) => ListTy(elem, Some(max))
           case Unbounded => ListTy(elem, None)
           case NotList => if f.typeName == s.uuid then elem else if f.optional then OptTy(elem) else elem)
  }

  function VariantMember(s: Schema, f: FieldModel): Member {
    Member(f.name, Resolve(s, f.typeName))
  }

  function FieldMembers(s: Schema, fs: seq<FieldModel>): (r: seq<Member>)
    ensures |r| == |fs| && forall i :: 0 <= i < |fs| ==> r[i] == FieldMember(s, fs[i])
  {
    seq(|fs|, i requires 0 <= i < |fs| => FieldMember(s, fs[i]))
  }

  function VariantMembers(s: Schema, fs: seq<FieldModel>): (r: seq<Member>)
    ensures |r| == |fs| && forall i :: 0 <= i < |fs| ==> r[i] == VariantMember(s, fs[i])
  {
    seq(|fs|, i requires 0 <= i < |fs| => VariantMember(s, fs[i]))
  }

  function HandlerOf(s: Schema, tm: TypeModel): (h: Handler)
    requires !tm.RestrictionModel?
  {
    match tm
    case EnumModel(values) => EnumHandler(values)
    case ComplexModel(base, choices, fields) =>
      StructHandler(if base.Some? && base.value !in s.prims then base else None,
                    if choices == [] then None else Some(VariantMembers(s, choices[0])),
                    FieldMembers(s, fields))
  }

  predicate Concrete(s: Schema, n: Name) {
    n in s.types && !s.types[n].RestrictionModel?
  }

  /** The reference resolves, and what is stored by value is declared earlier. */
  predicate RefCompiles(s: Schema, owner: Name, n: Name, byValue: bool) {
    && (n in s.prims || n in s.types)
    && (byValue && Resolve(s, n).NamedTy? ==> n in s.order && owner in s.order && s.order[n] < s.order[owner])
  }

  /** What the C++ compiler asks of the generated classes: at most one choice per type, bases that
      are classes, references that resolve, no type that contains itself by value. Lists hold
      their items on the heap and may be recursive. */
  predicate TypeCompiles(s: Schema, owner: Name) {
    owner in s.types &&
    match s.types[owner]
    case EnumModel(_) => true
    case RestrictionModel(_) => true
    case ComplexModel(base, choices, fields) =>
      && (base.Some? && base.value !in s.prims ==> Concrete(s, base.value) && RefCompiles(s, owner, base.value, true))
      && |choices| <= 1
      && (choices != [] ==> |choices[0]| < U32)
      && (choices != [] ==> forall i :: 0 <= i < |choices[0]| ==> RefCompiles(s, owner, choices[0][i].typeName, true))
      && forall i :: 0 <= i < |fields| ==> RefCompiles(s, owner, fields[i].typeName, fields[i].list.NotList?)
  }

  predicate Compiles(s: Schema) {
    forall n :: n in s.types ==> TypeCompiles(s, n)
  }

  /** The object a default constructor makes. */
  function Construct(s: Schema, n: Name): (o: Obj)
    requires Compiles(s) && Concrete(s, n)
    decreases if n in s.order then s.order[n] else 0, 2
  {
    assert TypeCompiles(s, n);
    match s.types[n]
    case EnumModel(_) => EnumObj(0)
    case ComplexModel(base, choices, fields) =>
      StructObj(if base.Some? && base.value !in s.prims then Some(Construct(s, base.value)) else None,
                0,
                if choices == [] then []
                else seq(|choices[0]|, i requires 0 <= i < |choices[0]| => ConstructMember(s, n, choices[0][i].typeName)),
                seq(|fields|, i requires 0 <= i < |fields| => ConstructField(s, n, fields[i])))
  }

  function ConstructMember(s: Schema, owner: Name, typeName: Name): (o: Obj)
    requires Compiles(s) && RefCompiles(s, owner, typeName, true)
    decreases if owner in s.order then s.order[owner] else 0, 0
  {
    match Resolve(s, typeName)
    case PrimTy(p) => Leaf(DefaultPrim(p))
    case NamedTy(_) => Construct(s, typeName)
  }

  function ConstructField(s: Schema, owner: Name, f: FieldModel): (o: Obj)
    requires Compiles(s) && RefCompiles(s, owner, f.typeName, f.list.NotList?)
    decreases if owner in s.order then s.order[owner] else 0, 1
  {
    match FieldMember(s, f).ty
    case ListTy(_, _) => ListObj([])
    case OptTy(_) => OptObj(false, ConstructMember(s, owner, f.typeName))
    case _ => ConstructMember(s, owner, f.typeName)
  }

  /** The registry that `register_all` fills: every type but the restrictions, which are typedefs. */
  function Generate(s: Schema): (reg: Registry)
    requires Compiles(s)
    ensures forall n :: n in reg <==> Concrete(s, n)
  {
    map n | n in s.types && Concrete(s, n) :: Entry(HandlerOf(s, s.types[n]), Construct(s, n))
  }

  // -- the generated registry is well formed ------------------------------------------------------------

  lemma {:induction false} ConstructTyped(s: Schema, n: Name)
    requires Compiles(s) && Concrete(s, n)
    ensures WellTyped(Generate(s), NamedTy(n), Construct(s, n)) && Clean(Construct(s, n))
    decreases if n in s.order then s.order[n] else 0, 2
  {
    hide Resolve, ConstructField, ConstructMember, Compiles;
    var reg := Generate(s);
    assert TypeCompiles(s, n) by { EachCompiles(s, n); }
    match s.types[n]
    case EnumModel(_) =>
    case ComplexModel(base, choices, fields) =>
      if base.Some? && base.value !in s.prims {
        BaseByValue(s, n, base.value);
        ConstructTyped(s, base.value);
      }
      if choices != [] {
        forall i | 0 <= i < |choices[0]| { ConstructMemberTyped(s, n, choices[0][i].typeName); }
      }
      forall i | 0 <= i < |fields| { ConstructFieldTyped(s, n, fields[i]); }
  }

  lemma EachCompiles(s: Schema, n: Name)
    requires Compiles(s) && n in s.types
    ensures TypeCompiles(s, n)
  {
  }

  lemma BaseByValue(s: Schema, owner: Name, n: Name)
    requires n !in s.prims && Concrete(s, n) && RefCompiles(s, owner, n, true)
    ensures n in s.order && owner in s.order && s.order[n] < s.order[owner]
  {
  }

  lemma {:induction false} ConstructMemberTyped(s: Schema, owner: Name, typeName: Name)
    requires Compiles(s) && RefCompiles(s, owner, typeName, true)
    ensures WellTyped(Generate(s), Resolve(s, typeName), ConstructMember(s, owner, typeName))
    ensures Clean(ConstructMember(s, owner, typeName))
    decreases if owner in s.order then s.order[owner] else 0, 0
  {
    hide Construct, Generate, Compiles;
    if Resolve(s, typeName).NamedTy? {
      ConstructTyped(s, typeName);
    }
  }

  lemma {:induction false} ConstructFieldTyped(s: Schema, owner: Name, f: FieldModel)
    requires Compiles(s) && RefCompiles(s, owner, f.typeName, f.list.NotList?)
    ensures WellTyped(Generate(s), FieldMember(s, f).ty, ConstructField(s, owner, f))
    ensures Clean(ConstructField(s, owner, f))
    decreases if owner in s.order then s.order[owner] else 0, 1
  {
    hide Construct, Generate, Compiles, Resolve, ConstructMember;
    if f.list.NotList? {
      ConstructMemberTyped(s, owner, f.typeName);
    }
  }

  lemma RefKnown(s: Schema, owner: Name, n: Name, byValue: bool)
    requires Compiles(s) && RefCompiles(s, owner, n, byValue)
    ensures Known(Generate(s), Resolve(s, n))
  {
  }

  lemma HandlerOfKnown(s: Schema, n: Name)
    requires Compiles(s) && Concrete(s, n)
    ensures HandlerKnown(Generate(s), HandlerOf(s, s.types[n]))
  {
    hide Resolve, Generate, Compiles;
    assert TypeCompiles(s, n) by { EachCompiles(s, n); }
    match s.types[n]
    case EnumModel(_) =>
    case ComplexModel(base, choices, fields) =>
      forall i | 0 <= i < |fields|
        ensures Known(Generate(s), FieldMember(s, fields[i]).ty)
      {
        RefKnown(s, n, fields[i].typeName, fields[i].list.NotList?);
      }
      if choices != [] {
        forall i | 0 <= i < |choices[0]|
          ensures Known(Generate(s), VariantMember(s, choices[0][i]).ty)
        {
          RefKnown(s, n, choices[0][i].typeName, true);
        }
      }
  }

  /** Whatever schema compiles, the registry generated for it is closed and its default
      constructors make clean, well-typed objects: serializing them never misses a handler. */
  lemma GeneratedWellFormed(s: Schema)
    requires Compiles(s)
    ensures WellFormed(Generate(s))
  {
    hide HandlerOf, Construct, Compiles;
    forall t | t in Generate(s)
      ensures HandlerKnown(Generate(s), Generate(s)[t].handler)
      ensures WellTyped(Generate(s), NamedTy(t), Generate(s)[t].proto) && Clean(Generate(s)[t].proto)
    {
      HandlerOfKnown(s, t);
      ConstructTyped(s, t);
    }
  }

  // -- subset libraries -----------------------------------------------------------------------------------

  /** `select_subset` keeps the models of the required names; their members were resolved against
      the full schema beforehand. */
  function Subset(s: Schema, required: set<Name>): Schema {
    s.(types := map n | n in s.types && n in required :: s.types[n])
  }

  lemma RefSame(s: Schema, required: set<Name>, n: Name)
    requires n in s.prims || n in required || n !in s.types
    requires required <= s.types.Keys
    ensures Resolve(Subset(s, required), n) == Resolve(s, n)
  {
  }

  lemma SubsetRef(s: Schema, required: set<Name>, t: Name, n: Name)
    requires ClosedTypes(s.types, required) && t in required && n in s.types && Refers(s.types[t], n)
    ensures n in required
  {
  }

  lemma SubsetCompiles(s: Schema, required: set<Name>)
    requires Compiles(s) && ClosedTypes(s.types, required)
    ensures Compiles(Subset(s, required))
  {
    hide ClosedTypes, Resolve, Compiles;
    var sub := Subset(s, required);
    forall t | t in sub.types
      ensures TypeCompiles(sub, t)
    {
      SubsetTypeCompiles(s, required, t);
    }
    assert Compiles(sub) by { CompilesEach(sub); }
  }

  lemma CompilesEach(s: Schema)
    requires forall n :: n in s.types ==> TypeCompiles(s, n)
    ensures Compiles(s)
  {
  }

  lemma SubsetKeys(s: Schema, required: set<Name>)
    requires ClosedTypes(s.types, required)
    ensures required <= s.types.Keys
  {
  }

  lemma SubsetTypeCompiles(s: Schema, required: set<Name>, t: Name)
    requires Compiles(s) && ClosedTypes(s.types, required) && t in required
    ensures t in s.types && TypeCompiles(Subset(s, required), t)
  {
    hide ClosedTypes, Resolve, Compiles;
    SubsetKeys(s, required);
    EachCompiles(s, t);
    var sub := Subset(s, required);
    if s.types[t].ComplexModel? {
      var ComplexModel(base, choices, fields) := s.types[t];
      if base.Some? && base.value !in s.prims {
        assert BaseRefers(s.types[t], base.value);
        SubsetRef(s, required, t, base.value);
        RefSame(s, required, base.value);
      }
      forall i | 0 <= i < |fields|
        ensures RefCompiles(sub, t, fields[i].typeName, fields[i].list.NotList?)
      {
        SubsetField(s, required, t, i);
      }
      if choices != [] {
        forall i | 0 <= i < |choices[0]|
          ensures RefCompiles(sub, t, choices[0][i].typeName, true)
        {
          SubsetVariant(s, required, t, i);
        }
      }
    }
  }

  lemma SubsetField(s: Schema, required: set<Name>, t: Name, i: nat)
    requires ClosedTypes(s.types, required) && t in required && t in s.types
    requires s.types[t].ComplexModel? && i < |s.types[t].fields|
    requires s.types[t].fields[i].typeName in s.prims || s.types[t].fields[i].typeName in s.types
    ensures var n := s.types[t].fields[i].typeName;
            (n in s.prims || n in required) && Resolve(Subset(s, required), n) == Resolve(s, n)
  {
    hide ClosedTypes;
    var n := s.types[t].fields[i].typeName;
    SubsetKeys(s, required);
    if n in s.types {
      assert FieldRefers(s.types[t], n);
      SubsetRef(s, required, t, n);
    }
    RefSame(s, required, n);
  }

  lemma SubsetVariant(s: Schema, required: set<Name>, t: Name, i: nat)
    requires ClosedTypes(s.types, required) && t in required && t in s.types
    requires s.types[t].ComplexModel? && s.types[t].choices != [] && i < |s.types[t].choices[0]|
    requires s.types[t].choices[0][i].typeName in s.prims || s.types[t].choices[0][i].typeName in s.types
    ensures var n := s.types[t].choices[0][i].typeName;
            (n in s.prims || n in required) && Resolve(Subset(s, required), n) == Resolve(s, n)
  {
    hide ClosedTypes;
    var n := s.types[t].choices[0][i].typeName;
    SubsetKeys(s, required);
    if n in s.types {
      assert s.types[t].choices[0][i].typeName == n;
      assert VariantRefers(s.types[t], n);
      SubsetRef(s, required, t, n);
    }
    RefSame(s, required, n);
  }

  /** The subset compiler emits the same code for a type as the full one. */
  lemma SameHandler(s: Schema, required: set<Name>, t: Name)
    requires Compiles(s) && ClosedTypes(s.types, required) && t in required && Concrete(s, t)
    ensures HandlerOf(Subset(s, required), s.types[t]) == HandlerOf(s, s.types[t])
  {
    hide ClosedTypes, Resolve, Compiles;
    EachCompiles(s, t);
    var sub := Subset(s, required);
    if s.types[t].ComplexModel? {
      var ComplexModel(base, choices, fields) := s.types[t];
      forall i | 0 <= i < |fields|
        ensures FieldMember(sub, fields[i]) == FieldMember(s, fields[i])
      {
        SubsetField(s, required, t, i);
      }
      assert FieldMembers(sub, fields) == FieldMembers(s, fields);
      if choices != [] {
        forall i | 0 <= i < |choices[0]|
          ensures VariantMember(sub, choices[0][i]) == VariantMember(s, choices[0][i])
        {
          SubsetVariant(s, required, t, i);
        }
        assert VariantMembers(sub, choices[0]) == VariantMembers(s, choices[0]);
      }
    }
  }

  /** The default constructors are the same too. */
  lemma {:induction false} SameConstruct(s: Schema, required: set<Name>, t: Name)
    requires Compiles(s) && ClosedTypes(s.types, required) && t in required && Concrete(s, t)
    requires Compiles(Subset(s, required))
    ensures Construct(Subset(s, required), t) == Construct(s, t)
    decreases if t in s.order then s.order[t] else 0, 2
  {
    hide ClosedTypes, Resolve, Compiles, ConstructMember, ConstructField;
    EachCompiles(s, t);
    SubsetTypeCompiles(s, required, t);
    var sub := Subset(s, required);
    if s.types[t].ComplexModel? {
      var ComplexModel(base, choices, fields) := s.types[t];
      if base.Some? && base.value !in s.prims {
        assert BaseRefers(s.types[t], base.value);
        SubsetRef(s, required, t, base.value);
        BaseByValue(s, t, base.value);
        SameConstruct(s, required, base.value);
      }
      forall i | 0 <= i < |fields|
        ensures ConstructField(sub, t, fields[i]) == ConstructField(s, t, fields[i])
      {
        SubsetField(s, required, t, i);
        SameConstructField(s, required, t, fields[i]);
      }
      if choices != [] {
        forall i | 0 <= i < |choices[0]|
          ensures ConstructMember(sub, t, choices[0][i].typeName) == ConstructMember(s, t, choices[0][i].typeName)
        {
          SubsetVariant(s, required, t, i);
          SameConstructMember(s, required, t, choices[0][i].typeName);
        }
        assert Construct(sub, t).variants == Construct(s, t).variants;
      }
      assert Construct(sub, t).fields == Construct(s, t).fields;
    }
  }

  lemma {:induction false} SameConstructMember(s: Schema, required: set<Name>, owner: Name, n: Name)
    requires Compiles(s) && ClosedTypes(s.types, required) && Compiles(Subset(s, required))
    requires RefCompiles(s, owner, n, true) && RefCompiles(Subset(s, required), owner, n, true)
    requires (n in s.prims || n in required) && Resolve(Subset(s, required), n) == Resolve(s, n)
    ensures ConstructMember(Subset(s, required), owner, n) == ConstructMember(s, owner, n)
    decreases if owner in s.order then s.order[owner] else 0, 0
  {
    hide ClosedTypes, Compiles, Construct;
    if Resolve(s, n).NamedTy? {
      SameConstruct(s, required, n);
    }
  }

  lemma {:induction false} SameConstructField(s: Schema, required: set<Name>, owner: Name, f: FieldModel)
    requires Compiles(s) && ClosedTypes(s.types, required) && Compiles(Subset(s, required))
    requires RefCompiles(s, owner, f.typeName, f.list.NotList?) && RefCompiles(Subset(s, required), owner, f.typeName, f.list.NotList?)
    requires (f.typeName in s.prims || f.typeName in required) && Resolve(Subset(s, required), f.typeName) == Resolve(s, f.typeName)
    ensures ConstructField(Subset(s, required), owner, f) == ConstructField(s, owner, f)
    decreases if owner in s.order then s.order[owner] else 0, 1
  {
    hide ClosedTypes, Compiles, Construct, ConstructMember, Resolve;
    if f.list.NotList? {
      SameConstructMember(s, required, owner, f.typeName);
    }
  }

  /** A subset library registers part of what the full library registers. */
  lemma SubsetIsPart(s: Schema, required: set<Name>)
    requires Compiles(s) && ClosedTypes(s.types, required)
    ensures Compiles(Subset(s, required))
    ensures CdrAgreement.Part(Generate(Subset(s, required)), Generate(s))
    ensures forall n :: n in Generate(Subset(s, required)) <==> n in required && n in Generate(s)
  {
    hide ClosedTypes, Compiles, HandlerOf, Construct;
    SubsetCompiles(s, required);
    SubsetKeys(s, required);
    var sub := Subset(s, required);
    GeneratedWellFormed(sub);
    forall t | t in Generate(sub)
      ensures t in Generate(s) && Generate(sub)[t] == Generate(s)[t]
    {
      SameHandler(s, required, t);
      SameConstruct(s, required, t);
    }
  }

  /** Wire compatibility: for every schema, every selection of roots and the types the compiler
      collects for it, the subset library and the full one append the same bytes for any object of
      a selected type, and do the same to any target with any bytes; no lookup misses in either. */
  lemma WireCompatible(s: Schema, roots: seq<Name>, required: set<Name>, t: Name, o: Obj, buf: seq<byte>, off: nat)
    requires Compiles(s) && IsClosure(s.types, roots, required)
    requires t in required && Concrete(s, t) && off <= |buf|
    ensures Compiles(Subset(s, required))
    ensures var sub, full := Generate(Subset(s, required)), Generate(s);
            && Encode(sub, NamedTy(t), o, off) == Encode(full, NamedTy(t), o, off)
            && Encode(sub, NamedTy(t), o, off) != Err(NoHandler)
            && Decode(sub, NamedTy(t), o, buf, off) == Decode(full, NamedTy(t), o, buf, off)
            && Decode(sub, NamedTy(t), o, buf, off) != Err(NoHandler)
  {
    hide ClosedTypes, Compiles, Encode, Decode;
    SubsetIsPart(s, required);
    var sub, full := Generate(Subset(s, required)), Generate(s);
    CdrAgreement.EncodeAgrees(sub, full, NamedTy(t), o, off);
    CdrAgreement.DecodeAgrees(sub, full, NamedTy(t), o, buf, off);
  }
}
