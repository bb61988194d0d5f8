/** The generated accessor classes: what a type is made of, and what an object holds.

    An object is one value with everything its C++ counterpart stores, hidden storage included:
    an absent optional still has its member, and every variant of a choice has its own. */
module Accessors {
  import opened Results
  import opened Bytes
  import opened CdrPrimitives

  type Name = seq<byte>

  /** How generated code treats a member: inline primitive, nested type, optional or list. */
  datatype Ty =
    | PrimTy(p: PrimType)
    | NamedTy(name: Name)
    | OptTy(elem: Ty)
    | ListTy(elem: Ty, maxOccurs: Option<nat>)

  datatype Member = Member(name: Name, ty: Ty)

  datatype Handler =
    | EnumHandler(values: seq<Name>)
    | StructHandler(base: Option<Name>, choice: Option<seq<Member>>, fields: seq<Member>)

  datatype Obj =
    | Leaf(v: PrimVal)
    | EnumObj(item: nat)
    | OptObj(has: bool, o: Obj)
    | ListObj(items: seq<Obj>)
    | StructObj(base: Option<Obj>, ord: nat, variants: seq<Obj>, fields: seq<Obj>)

  /** What is registered for a type: its code, and the object its default constructor makes. */
  datatype Entry = Entry(handler: Handler, proto: Obj)

  type Registry = map<Name, Entry>

  // -- types ----------------------------------------------------------------------

  predicate Known(reg: Registry, ty: Ty) {
    match ty
    case PrimTy(_) => true
    case NamedTy(t) => t in reg
    case OptTy(e) => Known(reg, e)
    case ListTy(e, _) => Known(reg, e)
  }

  predicate AllKnown(reg: Registry, ms: seq<Member>) {
    forall i :: 0 <= i < |ms| ==> Known(reg, ms[i].ty)
  }

  predicate HandlerKnown(reg: Registry, h: Handler) {
    match h
    case EnumHandler(_) => true
    case StructHandler(base, choice, fields) =>
      && (base.Some? ==> base.value in reg)
      && (choice.Some? ==> AllKnown(reg, choice.value))
      && AllKnown(reg, fields)
  }

  /** Every type a registered handler looks up is registered. */
  predicate Closed(reg: Registry) {
    forall t :: t in reg ==> HandlerKnown(reg, reg[t].handler)
  }

  /** An object of a type: the shape and bounds that the C++ static types and `BoundedListImpl`
      guarantee. */
  predicate WellTyped(reg: Registry, ty: Ty, o: Obj)
    decreases o
  {
    match ty
    case PrimTy(p) => o.Leaf? && PrimOk(p, o.v)
    case OptTy(e) => o.OptObj? && WellTyped(reg, e, o.o)
    case ListTy(e, max) =>
      && o.ListObj?
      && (max.Some? ==> |o.items| <= max.value)
      && forall i :: 0 <= i < |o.items| ==> WellTyped(reg, e, o.items[i])
    case NamedTy(t) =>
      t in reg &&
      match reg[t].handler
      case EnumHandler(_) => o.EnumObj? && o.item < U32
      case StructHandler(base, choice, fields) =>
        && o.StructObj?
        && base.Some? == o.base.Some?
        && (base.Some? ==> WellTyped(reg, NamedTy(base.value), o.base.value))
        && |o.variants| == (if choice.Some? then |choice.value| else 0)
        && o.ord <= |o.variants| < U32
        && (choice.Some? ==> forall i :: 0 <= i < |o.variants| ==> WellTyped(reg, choice.value[i].ty, o.variants[i]))
        && |o.fields| == |fields|
        && (forall i :: 0 <= i < |o.fields| ==> WellTyped(reg, fields[i].ty, o.fields[i]))
  }

  predicate ChoiceTyped(reg: Registry, choice: Option<seq<Member>>, o: Obj)
    requires o.StructObj?
  {
    && |o.variants| == (if choice.Some? then |choice.value| else 0)
    && o.ord <= |o.variants| < U32
    && (choice.Some? ==> forall i :: 0 <= i < |o.variants| ==> WellTyped(reg, choice.value[i].ty, o.variants[i]))
  }

  predicate MembersTyped(reg: Registry, ms: seq<Member>, os: seq<Obj>) {
    |ms| == |os| && forall i :: 0 <= i < |os| ==> WellTyped(reg, ms[i].ty, os[i])
  }

  predicate ItemsTyped(reg: Registry, elem: Ty, os: seq<Obj>) {
    forall i :: 0 <= i < |os| ==> WellTyped(reg, elem, os[i])
  }

  // -- default-constructed objects ----------------------------------------------------

  function DefaultPrim(p: PrimType): (v: PrimVal)
    ensures PrimOk(p, v)
  {
    match p
    case PBool => BoolV(false)
    case PInt(_, _) => NumV(0)
    case PFloat(_) => NumV(0)
    case PString => TextV([])
    case PBytes => TextV([])
    case PUuid => UuidV(seq(16, _ => 0))
  }

  /** A default-constructed member. */
  function Fresh(reg: Registry, ty: Ty): Obj {
    match ty
    case PrimTy(p) => Leaf(DefaultPrim(p))
    case NamedTy(t) => if t in reg then reg[t].proto else EnumObj(0)
    case OptTy(e) => OptObj(false, Fresh(reg, e))
    case ListTy(_, _) => ListObj([])
  }

  /** No optional is enabled and no variant chosen anywhere, hidden storage included. */
  predicate Clean(o: Obj) {
    match o
    case Leaf(_) => true
    case EnumObj(_) => true
    case OptObj(has, i) => !has && Clean(i)
    case ListObj(_) => true
    case StructObj(base, ord, variants, fields) =>
      && ord == 0
      && (base.Some? ==> Clean(base.value))
      && (forall i :: 0 <= i < |variants| ==> Clean(variants[i]))
      && (forall i :: 0 <= i < |fields| ==> Clean(fields[i]))
  }

  /** Handlers refer to registered types, and default constructors make clean objects of them. */
  predicate WellFormed(reg: Registry) {
    && Closed(reg)
    && forall t :: t in reg ==> WellTyped(reg, NamedTy(t), reg[t].proto) && Clean(reg[t].proto)
  }

  lemma {:induction false} FreshTyped(reg: Registry, ty: Ty)
    requires WellFormed(reg) && Known(reg, ty)
    ensures WellTyped(reg, ty, Fresh(reg, ty)) && Clean(Fresh(reg, ty))
  {
    match ty
    case PrimTy(_) =>
    case NamedTy(_) =>
    case OptTy(e) => FreshTyped(reg, e);
    case ListTy(_, _) =>
  }

  // -- what getters can tell ----------------------------------------------------------------

  /** Equal through the public getters: absent optionals and unselected variants do not show. */
  predicate SameObs(a: Obj, b: Obj)
    decreases a
  {
    match a
    case Leaf(v) => b == a
    case EnumObj(_) => b == a
    case OptObj(has, o) => b.OptObj? && has == b.has && (has ==> SameObs(o, b.o))
    case ListObj(items) =>
      && b.ListObj?
      && |items| == |b.items|
      && forall i :: 0 <= i < |items| ==> SameObs(items[i], b.items[i])
    case StructObj(base, ord, variants, fields) =>
      && b.StructObj?
      && base.Some? == b.base.Some?
      && (base.Some? ==> SameObs(base.value, b.base.value))
      && ord == b.ord
      && |variants| == |b.variants|
      && (1 <= ord <= |variants| ==> SameObs(variants[ord - 1], b.variants[ord - 1]))
      && |fields| == |b.fields|
      && forall i :: 0 <= i < |fields| ==> SameObs(fields[i], b.fields[i])
  }

  /** Every visible length fits the 32-bit length words of the transfer syntax. */
  predicate Fits(o: Obj) {
    match o
    case Leaf(v) => PrimFits(v)
    case EnumObj(_) => true
    case OptObj(has, i) => has ==> Fits(i)
    case ListObj(items) => |items| < U32 && forall i :: 0 <= i < |items| ==> Fits(items[i])
    case StructObj(base, ord, variants, fields) =>
      && (base.Some? ==> Fits(base.value))
      && (1 <= ord <= |variants| ==> Fits(variants[ord - 1]))
      && forall i :: 0 <= i < |fields| ==> Fits(fields[i])
  }

  lemma {:induction false} SameObsReflexive(o: Obj)
    ensures SameObs(o, o)
  {
    match o
    case Leaf(_) =>
    case EnumObj(_) =>
    case OptObj(_, i) => SameObsReflexive(i);
    case ListObj(items) => forall i | 0 <= i < |items| { SameObsReflexive(items[i]); }
    case StructObj(base, ord, variants, fields) =>
      if base.Some? { SameObsReflexive(base.value); }
      if 1 <= ord <= |variants| { SameObsReflexive(variants[ord - 1]); }
      forall i | 0 <= i < |fields| { SameObsReflexive(fields[i]); }
  }

  lemma {:induction false} SameObsSymmetric(a: Obj, b: Obj)
    requires SameObs(a, b)
    ensures SameObs(b, a)
    decreases a
  {
    match a
    case Leaf(_) =>
    case EnumObj(_) =>
    case OptObj(has, i) => if has { SameObsSymmetric(i, b.o); }
    case ListObj(items) => forall i | 0 <= i < |items| { SameObsSymmetric(items[i], b.items[i]); }
    case StructObj(base, ord, variants, fields) =>
      if base.Some? { SameObsSymmetric(base.value, b.base.value); }
      if 1 <= ord <= |variants| { SameObsSymmetric(variants[ord - 1], b.variants[ord - 1]); }
      forall i | 0 <= i < |fields| { SameObsSymmetric(fields[i], b.fields[i]); }
  }

  lemma {:induction false} SameObsTransitive(a: Obj, b: Obj, c: Obj)
    requires SameObs(a, b) && SameObs(b, c)
    ensures SameObs(a, c)
    decreases a
  {
    match a
    case Leaf(_) =>
    case EnumObj(_) =>
    case OptObj(has, i) => if has { SameObsTransitive(i, b.o, c.o); }
    case ListObj(items) =>
      forall i | 0 <= i < |items| { SameObsTransitive(items[i], b.items[i], c.items[i]); }
    case StructObj(base, ord, variants, fields) =>
      if base.Some? { SameObsTransitive(base.value, b.base.value, c.base.value); }
      if 1 <= ord <= |variants| { SameObsTransitive(variants[ord - 1], b.variants[ord - 1], c.variants[ord - 1]); }
      forall i | 0 <= i < |fields| { SameObsTransitive(fields[i], b.fields[i], c.fields[i]); }
  }
}
