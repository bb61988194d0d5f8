/** The generated `copy` members and the list class they refill. */
module AccessorCopy {
  import opened Results
  import opened Accessors
  import opened CdrCodec
  import CdrLaws

  // -- BoundedListImpl -----------------------------------------------------------------------

  class BoundedList<T> {
    var data: seq<T>
    const maxOccurs: nat

    constructor (maxOccurs: nat)
      ensures data == [] && this.maxOccurs == maxOccurs
    {
      data := [];
      this.maxOccurs := maxOccurs;
    }

    ghost predicate Valid()
      reads this
    {
      |data| <= maxOccurs
    }

    method Clear()
      modifies this
      ensures data == []
    {
      data := [];
    }

    /** Refuses, without a change, to exceed the maximum. */
    method PushBack(v: T) returns (ok: bool)
      modifies this
      ensures ok <==> |old(data)| < maxOccurs
      ensures data == if ok then old(data) + [v] else old(data)
    {
      if |data| >= maxOccurs {
        return false;
      }
      data := data + [v];
      ok := true;
    }

    /** Cuts the list or pads it with default elements. */
    method Resize(n: nat, blank: T) returns (ok: bool)
      modifies this
      ensures ok <==> n <= maxOccurs
      ensures !ok ==> data == old(data)
      ensures ok ==> |data| == n && forall i :: 0 <= i < n ==> data[i] == if i < |old(data)| then old(data)[i] else blank
    {
      if n > maxOccurs {
        return false;
      }
      data := seq(n, i requires 0 <= i < n reads this => if i < |data| then data[i] else blank);
      ok := true;
    }

    /** The copy idiom of generated code: clear, then push every item of `rhs`. From another list
        it copies as much as fits; from the list itself it copies nothing, since the list was
        cleared first. */
    method CopyFrom(rhs: BoundedList<T>) returns (ok: bool)
      modifies this
      ensures Valid()
      ensures rhs != this ==> rhs.data == old(rhs.data)
      ensures rhs != this ==> (ok <==> |rhs.data| <= maxOccurs)
      ensures rhs != this ==> data == rhs.data[..if ok then |rhs.data| else maxOccurs]
      ensures rhs == this ==> ok && data == []
    {
      Clear();
      var end := |rhs.data|;
      var i := 0;
      while i < end
        invariant rhs == this ==> end == 0
        invariant rhs != this ==> rhs.data == old(rhs.data) && end == |rhs.data|
        invariant 0 <= i <= end && i <= maxOccurs
        invariant data == rhs.data[..i]
      {
        ok := PushBack(rhs.data[i]);
        if !ok {
          return;
        }
        i := i + 1;
      }
      ok := true;
    }
  }

  // -- copy ---------------------------------------------------------------------------------------

  /** What `dst` holds after `dst.copy(src)`. Members that do not show are left alone. */
  function Copy(reg: Registry, ty: Ty, dst: Obj, src: Obj): Obj
    decreases src, 2
  {
    match ty
    case PrimTy(_) => src
    case NamedTy(t) => if t in reg then CopyNamed(reg, reg[t].handler, dst, src) else src
    case OptTy(e) =>
      if dst.OptObj? && src.OptObj? then OptObj(src.has, if src.has then Copy(reg, e, dst.o, src.o) else dst.o)
      else src
    case ListTy(e, _) =>
      if src.ListObj? then ListObj(CopyItems(reg, e, src.items)) else src
  }

  function CopyNamed(reg: Registry, h: Handler, dst: Obj, src: Obj): Obj
    decreases src, 1
  {
    match h
    case EnumHandler(_) => src
    case StructHandler(base, choice, fields) =>
      if !dst.StructObj? || !src.StructObj? then src
      else
        var b := if base.Some? && dst.base.Some? && src.base.Some?
                 then Some(Copy(reg, NamedTy(base.value), dst.base.value, src.base.value)) else None;
        StructObj(b, src.ord, CopyVariants(reg, choice, dst, src), CopyFields(reg, fields, dst.fields, src.fields))
  }

  function CopyVariants(reg: Registry, choice: Option<seq<Member>>, dst: Obj, src: Obj): (r: seq<Obj>)
    requires dst.StructObj? && src.StructObj?
    decreases src, 0
  {
    if choice.Some? && 1 <= src.ord <= |choice.value| && src.ord <= |dst.variants| && src.ord <= |src.variants| then
      dst.variants[src.ord - 1 := Copy(reg, choice.value[src.ord - 1].ty, dst.variants[src.ord - 1], src.variants[src.ord - 1])]
    else
      dst.variants
  }

  function CopyFields(reg: Registry, ms: seq<Member>, dsts: seq<Obj>, srcs: seq<Obj>): (r: seq<Obj>)
    ensures |ms| == |dsts| == |srcs| ==> |r| == |srcs|
    decreases srcs, 0
  {
    if |ms| != |srcs| || |dsts| != |srcs| || srcs == [] then []
    else [Copy(reg, ms[0].ty, dsts[0], srcs[0])] + CopyFields(reg, ms[1..], dsts[1..], srcs[1..])
  }

  function CopyItems(reg: Registry, elem: Ty, srcs: seq<Obj>): (r: seq<Obj>)
    ensures |r| == |srcs|
    decreases srcs, 0
  {
    if srcs == [] then []
    else [Copy(reg, elem, Fresh(reg, elem), srcs[0])] + CopyItems(reg, elem, srcs[1..])
  }

  /** Whatever stale optionals, variants and list items the destination held, after the copy its
      getters return what the source's do. */
  lemma {:induction false} CopyShows(reg: Registry, ty: Ty, dst: Obj, src: Obj)
    requires WellFormed(reg) && Known(reg, ty)
    requires WellTyped(reg, ty, dst) && WellTyped(reg, ty, src)
    ensures WellTyped(reg, ty, Copy(reg, ty, dst, src)) && SameObs(Copy(reg, ty, dst, src), src)
    decreases src, 2
  {
    hide CopyNamed, CopyItems, WellFormed;
    match ty
    case PrimTy(_) =>
    case OptTy(e) => if src.has { CopyShows(reg, e, dst.o, src.o); }
    case ListTy(e, _) => CopyItemsShow(reg, e, src.items);
    case NamedTy(t) => CopyNamedShows(reg, t, dst, src);
  }

  lemma {:induction false} CopyNamedShows(reg: Registry, t: Name, dst: Obj, src: Obj)
    requires WellFormed(reg) && t in reg
    requires WellTyped(reg, NamedTy(t), dst) && WellTyped(reg, NamedTy(t), src)
    ensures WellTyped(reg, NamedTy(t), CopyNamed(reg, reg[t].handler, dst, src))
    ensures SameObs(CopyNamed(reg, reg[t].handler, dst, src), src)
    decreases src, 1
  {
    hide Copy, CopyFields;
    match reg[t].handler
    case EnumHandler(_) =>
    case StructHandler(base, choice, fields) =>
      assert HandlerKnown(reg, reg[t].handler);
      if base.Some? { CopyShows(reg, NamedTy(base.value), dst.base.value, src.base.value); }
      if src.ord >= 1 {
        CopyShows(reg, choice.value[src.ord - 1].ty, dst.variants[src.ord - 1], src.variants[src.ord - 1]);
      }
      CopyFieldsShow(reg, fields, dst.fields, src.fields);
  }

  lemma {:induction false} CopyFieldsShow(reg: Registry, ms: seq<Member>, dsts: seq<Obj>, srcs: seq<Obj>)
    requires WellFormed(reg) && AllKnown(reg, ms)
    requires MembersTyped(reg, ms, dsts) && MembersTyped(reg, ms, srcs)
    ensures var r := CopyFields(reg, ms, dsts, srcs);
            MembersTyped(reg, ms, r) && forall i :: 0 <= i < |srcs| ==> SameObs(r[i], srcs[i])
    decreases srcs, 0
  {
    hide Copy, WellTyped, WellFormed, SameObs, Known;
    if srcs != [] {
      CopyShows(reg, ms[0].ty, dsts[0], srcs[0]);
      CopyFieldsShow(reg, ms[1..], dsts[1..], srcs[1..]);
      var r, r' := CopyFields(reg, ms, dsts, srcs), CopyFields(reg, ms[1..], dsts[1..], srcs[1..]);
      forall i | 0 <= i < |srcs|
        ensures WellTyped(reg, ms[i].ty, r[i]) && SameObs(r[i], srcs[i])
      {
        if i > 0 {
          assert r[i] == r'[i - 1] && srcs[i] == srcs[1..][i - 1] && ms[i] == ms[1..][i - 1];
        }
      }
    }
  }

  lemma {:induction false} CopyItemsShow(reg: Registry, elem: Ty, srcs: seq<Obj>)
    requires WellFormed(reg) && Known(reg, elem) && ItemsTyped(reg, elem, srcs)
    ensures var r := CopyItems(reg, elem, srcs);
            ItemsTyped(reg, elem, r) && forall i :: 0 <= i < |srcs| ==> SameObs(r[i], srcs[i])
    decreases srcs, 0
  {
    hide Copy, WellTyped, WellFormed, SameObs, Known, Fresh;
    if srcs != [] {
      FreshTyped(reg, elem);
      CopyShows(reg, elem, Fresh(reg, elem), srcs[0]);
      CopyItemsShow(reg, elem, srcs[1..]);
      var r, r' := CopyItems(reg, elem, srcs), CopyItems(reg, elem, srcs[1..]);
      forall i | 0 <= i < |srcs|
        ensures WellTyped(reg, elem, r[i]) && SameObs(r[i], srcs[i])
      {
        if i > 0 {
          assert r[i] == r'[i - 1] && srcs[i] == srcs[1..][i - 1];
        }
      }
    }
  }

  /** What does not show in the source is not assigned: an absent optional keeps the destination's
      storage, and so does every variant but the chosen one. Items are copied into new objects. */
  predicate KeepsHidden(reg: Registry, ty: Ty, dst: Obj, src: Obj, r: Obj)
    requires WellTyped(reg, ty, src)
    decreases src
  {
    match ty
    case PrimTy(_) => true
    case OptTy(e) => dst.OptObj? && r.OptObj? && if src.has then KeepsHidden(reg, e, dst.o, src.o, r.o) else r.o == dst.o
    case ListTy(e, _) =>
      r.ListObj? && |r.items| == |src.items| &&
      forall i :: 0 <= i < |src.items| ==> KeepsHidden(reg, e, Fresh(reg, e), src.items[i], r.items[i])
    case NamedTy(t) =>
      match reg[t].handler
      case EnumHandler(_) => true
      case StructHandler(base, choice, fields) =>
        && dst.StructObj? && r.StructObj?
        && (base.Some? ==>
             && dst.base.Some? && r.base.Some?
             && KeepsHidden(reg, NamedTy(base.value), dst.base.value, src.base.value, r.base.value))
        && |r.variants| == |dst.variants| == |src.variants|
        && (forall i :: 0 <= i < |src.variants| ==>
             if i == src.ord - 1 then KeepsHidden(reg, choice.value[i].ty, dst.variants[i], src.variants[i], r.variants[i])
             else r.variants[i] == dst.variants[i])
        && |r.fields| == |dst.fields| == |src.fields|
        && forall i :: 0 <= i < |src.fields| ==> KeepsHidden(reg, fields[i].ty, dst.fields[i], src.fields[i], r.fields[i])
  }

  lemma {:induction false} CopyKeepsHidden(reg: Registry, ty: Ty, dst: Obj, src: Obj)
    requires WellFormed(reg) && Known(reg, ty)
    requires WellTyped(reg, ty, dst) && WellTyped(reg, ty, src)
    ensures KeepsHidden(reg, ty, dst, src, Copy(reg, ty, dst, src))
    decreases src, 2
  {
    hide CopyNamed, CopyItems, WellFormed;
    match ty
    case PrimTy(_) =>
    case OptTy(e) => if src.has { CopyKeepsHidden(reg, e, dst.o, src.o); }
    case ListTy(e, _) => CopyItemsKeepHidden(reg, e, src.items);
    case NamedTy(t) => CopyNamedKeepsHidden(reg, t, dst, src);
  }

  lemma {:induction false} CopyItemsKeepHidden(reg: Registry, elem: Ty, srcs: seq<Obj>)
    requires WellFormed(reg) && Known(reg, elem) && ItemsTyped(reg, elem, srcs)
    ensures forall i :: 0 <= i < |srcs| ==> KeepsHidden(reg, elem, Fresh(reg, elem), srcs[i], CopyItems(reg, elem, srcs)[i])
    decreases srcs, 0
  {
    hide Copy, WellTyped, WellFormed, KeepsHidden, Known, Fresh;
    if srcs != [] {
      FreshTyped(reg, elem);
      CopyKeepsHidden(reg, elem, Fresh(reg, elem), srcs[0]);
      CopyItemsKeepHidden(reg, elem, srcs[1..]);
      var r, r' := CopyItems(reg, elem, srcs), CopyItems(reg, elem, srcs[1..]);
      assert forall i :: 1 <= i < |srcs| ==> r[i] == r'[i - 1] && srcs[i] == srcs[1..][i - 1];
    }
  }

  lemma {:induction false} CopyNamedKeepsHidden(reg: Registry, t: Name, dst: Obj, src: Obj)
    requires WellFormed(reg) && t in reg
    requires WellTyped(reg, NamedTy(t), dst) && WellTyped(reg, NamedTy(t), src)
    ensures KeepsHidden(reg, NamedTy(t), dst, src, CopyNamed(reg, reg[t].handler, dst, src))
    decreases src, 1
  {
    hide Copy, CopyFields;
    match reg[t].handler
    case EnumHandler(_) =>
    case StructHandler(base, choice, fields) =>
      assert HandlerKnown(reg, reg[t].handler);
      if base.Some? { CopyKeepsHidden(reg, NamedTy(base.value), dst.base.value, src.base.value); }
      if src.ord >= 1 {
        CopyKeepsHidden(reg, choice.value[src.ord - 1].ty, dst.variants[src.ord - 1], src.variants[src.ord - 1]);
      }
      CopyFieldsKeepHidden(reg, fields, dst.fields, src.fields);
      OneVariantCopied(reg, choice, dst, src);
  }

  lemma OneVariantCopied(reg: Registry, choice: Option<seq<Member>>, dst: Obj, src: Obj)
    requires dst.StructObj? && ChoiceTyped(reg, choice, dst) && src.StructObj? && ChoiceTyped(reg, choice, src)
    ensures var r := CopyVariants(reg, choice, dst, src);
      && |r| == |dst.variants| == |src.variants|
      && forall i :: 0 <= i < |r| ==>
           r[i] == if i == src.ord - 1 then Copy(reg, choice.value[i].ty, dst.variants[i], src.variants[i]) else dst.variants[i]
  {
    hide Copy, WellTyped;
  }

  lemma {:induction false} CopyFieldsKeepHidden(reg: Registry, ms: seq<Member>, dsts: seq<Obj>, srcs: seq<Obj>)
    requires WellFormed(reg) && AllKnown(reg, ms)
    requires MembersTyped(reg, ms, dsts) && MembersTyped(reg, ms, srcs)
    ensures var r := CopyFields(reg, ms, dsts, srcs);
            |r| == |srcs| && forall i :: 0 <= i < |srcs| ==> KeepsHidden(reg, ms[i].ty, dsts[i], srcs[i], r[i])
    decreases srcs, 0
  {
    hide Copy, WellTyped, KeepsHidden, Known, WellFormed;
    if srcs != [] {
      CopyKeepsHidden(reg, ms[0].ty, dsts[0], srcs[0]);
      CopyFieldsKeepHidden(reg, ms[1..], dsts[1..], srcs[1..]);
      var r, r' := CopyFields(reg, ms, dsts, srcs), CopyFields(reg, ms[1..], dsts[1..], srcs[1..]);
      forall i | 0 <= i < |srcs|
        ensures KeepsHidden(reg, ms[i].ty, dsts[i], srcs[i], r[i])
      {
        if i > 0 {
          assert r[i] == r'[i - 1] && srcs[i] == srcs[1..][i - 1] && dsts[i] == dsts[1..][i - 1] && ms[i] == ms[1..][i - 1];
        }
      }
    }
  }

  /** A copy serializes to the bytes of its source. */
  lemma CopySerializesAlike(reg: Registry, ty: Ty, dst: Obj, src: Obj, n: nat)
    requires WellFormed(reg) && Known(reg, ty)
    requires WellTyped(reg, ty, dst) && WellTyped(reg, ty, src)
    ensures Encode(reg, ty, Copy(reg, ty, dst, src), n) == Encode(reg, ty, src, n)
  {
    CopyShows(reg, ty, dst, src);
    CdrLaws.EncodeDepends(reg, ty, Copy(reg, ty, dst, src), src, n, n);
  }

  // -- onto itself -----------------------------------------------------------------------------------

  /** What `o.copy(o)` leaves: every list it reaches is cleared before it is read. */
  function SelfCopied(o: Obj): (r: Obj)
    decreases o, 1
  {
    match o
    case Leaf(_) => o
    case EnumObj(_) => o
    case OptObj(has, i) => OptObj(has, if has then SelfCopied(i) else i)
    case ListObj(_) => ListObj([])
    case StructObj(base, ord, variants, fields) =>
      StructObj(if base.Some? then Some(SelfCopied(base.value)) else None,
                ord,
                if 1 <= ord <= |variants| then variants[ord - 1 := SelfCopied(variants[ord - 1])] else variants,
                SelfCopiedAll(fields))
  }

  function SelfCopiedAll(os: seq<Obj>): (r: seq<Obj>)
    ensures |r| == |os|
    decreases os, 0
  {
    if os == [] then [] else [SelfCopied(os[0])] + SelfCopiedAll(os[1..])
  }

  /** No list that getters can reach has an item. */
  predicate NoItems(o: Obj) {
    match o
    case Leaf(_) => true
    case EnumObj(_) => true
    case OptObj(has, i) => has ==> NoItems(i)
    case ListObj(items) => items == []
    case StructObj(base, ord, variants, fields) =>
      && (base.Some? ==> NoItems(base.value))
      && (1 <= ord <= |variants| ==> NoItems(variants[ord - 1]))
      && forall i :: 0 <= i < |fields| ==> NoItems(fields[i])
  }

  /** Copying an object onto itself keeps it exactly when no visible list has an item. */
  lemma {:induction false} SelfCopyKeepsIff(o: Obj)
    ensures SameObs(SelfCopied(o), o) <==> NoItems(o)
    decreases o, 1
  {
    hide SelfCopiedAll;
    match o
    case Leaf(_) =>
    case EnumObj(_) =>
    case OptObj(has, i) => if has { SelfCopyKeepsIff(i); }
    case ListObj(_) =>
    case StructObj(base, ord, variants, fields) =>
      if base.Some? { SelfCopyKeepsIff(base.value); }
      if 1 <= ord <= |variants| { SelfCopyKeepsIff(variants[ord - 1]); }
      SelfCopyKeepsAll(fields);
  }

  lemma {:induction false} SelfCopyKeepsAll(os: seq<Obj>)
    ensures forall i :: 0 <= i < |os| ==> (SameObs(SelfCopiedAll(os)[i], os[i]) <==> NoItems(os[i]))
    decreases os, 0
  {
    hide SelfCopied, SameObs, NoItems;
    if os != [] {
      SelfCopyKeepsIff(os[0]);
      SelfCopyKeepsAll(os[1..]);
      assert forall i :: 1 <= i < |os| ==> SelfCopiedAll(os)[i] == SelfCopiedAll(os[1..])[i - 1] && os[i] == os[1..][i - 1];
    }
  }

  /** Equal but for the items of lists that getters can reach. */
  predicate SameButItems(a: Obj, b: Obj)
    decreases a
  {
    match a
    case Leaf(_) => b == a
    case EnumObj(_) => b == a
    case OptObj(has, o) => b.OptObj? && b.has == has && if has then SameButItems(o, b.o) else b.o == o
    case ListObj(_) => b.ListObj?
    case StructObj(base, ord, variants, fields) =>
      && b.StructObj?
      && base.Some? == b.base.Some? && (base.Some? ==> SameButItems(base.value, b.base.value))
      && ord == b.ord
      && |variants| == |b.variants|
      && (forall i :: 0 <= i < |variants| ==> if i == ord - 1 then SameButItems(variants[i], b.variants[i]) else b.variants[i] == variants[i])
      && |fields| == |b.fields|
      && forall i :: 0 <= i < |fields| ==> SameButItems(fields[i], b.fields[i])
  }

  /** Copying onto itself leaves every list that getters can reach without items, as `CopyFrom` does
      to one list, and everything else as it was, hidden storage included. */
  lemma {:induction false} SelfCopyEmptiesLists(o: Obj)
    ensures NoItems(SelfCopied(o)) && SameButItems(SelfCopied(o), o)
    decreases o, 1
  {
    hide SelfCopiedAll;
    match o
    case Leaf(_) =>
    case EnumObj(_) =>
    case OptObj(has, i) => if has { SelfCopyEmptiesLists(i); }
    case ListObj(_) =>
    case StructObj(base, ord, variants, fields) =>
      if base.Some? { SelfCopyEmptiesLists(base.value); }
      if 1 <= ord <= |variants| { SelfCopyEmptiesLists(variants[ord - 1]); }
      SelfCopyEmptiesAll(fields);
  }

  lemma {:induction false} SelfCopyEmptiesAll(os: seq<Obj>)
    ensures forall i :: 0 <= i < |os| ==> NoItems(SelfCopiedAll(os)[i]) && SameButItems(SelfCopiedAll(os)[i], os[i])
    decreases os, 0
  {
    hide SelfCopied, SameButItems, NoItems;
    if os != [] {
      SelfCopyEmptiesLists(os[0]);
      SelfCopyEmptiesAll(os[1..]);
      assert forall i :: 1 <= i < |os| ==> SelfCopiedAll(os)[i] == SelfCopiedAll(os[1..])[i - 1] && os[i] == os[1..][i - 1];
    }
  }

  // -- as it runs ------------------------------------------------------------------------------------

  /** Copies field by field into the destination, which it returns. */
  method CopyObject(reg: Registry, ty: Ty, dst: Obj, src: Obj) returns (r: Obj)
    requires WellTyped(reg, ty, dst) && WellTyped(reg, ty, src)
    requires WellFormed(reg) && Known(reg, ty)
    ensures r == Copy(reg, ty, dst, src)
    decreases src, 1
  {
    match ty
    case PrimTy(_) => r := src;
    case OptTy(e) =>
      r := dst.(has := src.has);
      if src.has {
        var o := CopyObject(reg, e, dst.o, src.o);
        r := r.(o := o);
      }
    case ListTy(e, _) =>
      var items := CopyList(reg, e, src.items);
      r := ListObj(items);
    case NamedTy(t) =>
      match reg[t].handler {
        case EnumHandler(_) => r := src;
        case StructHandler(_, _, _) => r := CopyStruct(reg, t, dst, src);
      }
  }

  /** Clears a list and refills it item by item, each a copy in a new element. */
  method CopyList(reg: Registry, elem: Ty, srcs: seq<Obj>) returns (items: seq<Obj>)
    requires WellFormed(reg) && Known(reg, elem) && ItemsTyped(reg, elem, srcs)
    ensures items == CopyItems(reg, elem, srcs)
    decreases srcs, 0
  {
    hide Copy, CopyItems, WellTyped, WellFormed, Known;
    items := [];
    assert srcs[0..] == srcs;
    for i := 0 to |srcs|
      invariant CopyItems(reg, elem, srcs) == items + CopyItems(reg, elem, srcs[i..])
    {
      FreshTyped(reg, elem);
      var item := CopyObject(reg, elem, Fresh(reg, elem), srcs[i]);
      NextItem(reg, elem, srcs, i);
      ghost var rest := CopyItems(reg, elem, srcs[i + 1..]);
      assert items + ([item] + rest) == (items + [item]) + rest;
      items := items + [item];
    }
    NoItem(reg, elem, srcs[|srcs|..]);
  }

  lemma NextItem(reg: Registry, elem: Ty, srcs: seq<Obj>, i: nat)
    requires i < |srcs|
    ensures CopyItems(reg, elem, srcs[i..]) == [Copy(reg, elem, Fresh(reg, elem), srcs[i])] + CopyItems(reg, elem, srcs[i + 1..])
  {
    hide Copy;
    assert srcs[i..][1..] == srcs[i + 1..];
  }

  lemma NoItem(reg: Registry, elem: Ty, srcs: seq<Obj>)
    requires srcs == []
    ensures CopyItems(reg, elem, srcs) == []
  {
  }

  /** The base, the fields, then the choice: its ordinal and the chosen variant. */
  method CopyStruct(reg: Registry, t: Name, dst: Obj, src: Obj) returns (r: Obj)
    requires t in reg && reg[t].handler.StructHandler?
    requires WellTyped(reg, NamedTy(t), dst) && WellTyped(reg, NamedTy(t), src)
    requires WellFormed(reg)
    ensures r == CopyNamed(reg, reg[t].handler, dst, src)
    decreases src, 0
  {
    hide Copy, WellFormed, CopyFields;
    assert HandlerKnown(reg, reg[t].handler) by { HandlersOfWellFormed(reg, t); }
    var StructHandler(base, choice, fields) := reg[t].handler;
    r := dst;
    if base.Some? {
      var b := CopyObject(reg, NamedTy(base.value), dst.base.value, src.base.value);
      r := r.(base := Some(b));
    }
    var fs := CopyMembers(reg, fields, dst.fields, src.fields);
    r := r.(fields := fs);
    r := r.(ord := src.ord);
    if src.ord >= 1 {
      var v := CopyObject(reg, choice.value[src.ord - 1].ty, dst.variants[src.ord - 1], src.variants[src.ord - 1]);
      r := r.(variants := r.variants[src.ord - 1 := v]);
    }
  }

  /** Assigns the fields one by one, in place. */
  method CopyMembers(reg: Registry, ms: seq<Member>, dsts: seq<Obj>, srcs: seq<Obj>) returns (r: seq<Obj>)
    requires WellFormed(reg) && AllKnown(reg, ms)
    requires MembersTyped(reg, ms, dsts) && MembersTyped(reg, ms, srcs)
    ensures r == CopyFields(reg, ms, dsts, srcs)
    decreases srcs, 0
  {
    hide Copy, CopyFields, WellFormed, WellTyped, Known;
    r := dsts;
    var i := 0;
    assert ms[0..] == ms && dsts[0..] == dsts && srcs[0..] == srcs;
    assert r[..0] + CopyFields(reg, ms, dsts, srcs) == CopyFields(reg, ms, dsts, srcs);
    while i < |ms|
      invariant 0 <= i <= |ms| == |r|
      invariant r[i..] == dsts[i..]
      invariant CopyFields(reg, ms, dsts, srcs) == r[..i] + CopyFields(reg, ms[i..], dsts[i..], srcs[i..])
    {
      assert r[i] == r[i..][0] == dsts[i];
      var o := CopyObject(reg, ms[i].ty, dsts[i], srcs[i]);
      NextField(reg, ms, dsts, srcs, i);
      ghost var rest := CopyFields(reg, ms[i + 1..], dsts[i + 1..], srcs[i + 1..]);
      assert r[..i] + ([o] + rest) == (r[..i] + [o]) + rest;
      ghost var before := r;
      r := r[i := o];
      assert r[..i + 1] == before[..i] + [o] && r[i + 1..] == before[i..][1..];
      i := i + 1;
    }
    NoField(reg, ms[i..], dsts[i..], srcs[i..]);
    assert r[..i] == r && r + [] == r;
  }

  lemma NextField(reg: Registry, ms: seq<Member>, dsts: seq<Obj>, srcs: seq<Obj>, i: nat)
    requires |ms| == |dsts| == |srcs| && i < |ms|
    ensures CopyFields(reg, ms[i..], dsts[i..], srcs[i..]) ==
            [Copy(reg, ms[i].ty, dsts[i], srcs[i])] + CopyFields(reg, ms[i + 1..], dsts[i + 1..], srcs[i + 1..])
  {
    hide Copy;
    assert ms[i..][1..] == ms[i + 1..] && dsts[i..][1..] == dsts[i + 1..] && srcs[i..][1..] == srcs[i + 1..];
  }

  lemma NoField(reg: Registry, ms: seq<Member>, dsts: seq<Obj>, srcs: seq<Obj>)
    requires srcs == []
    ensures CopyFields(reg, ms, dsts, srcs) == []
  {
  }

  lemma HandlersOfWellFormed(reg: Registry, t: Name)
    requires WellFormed(reg) && t in reg
    ensures HandlerKnown(reg, reg[t].handler)
  {
  }
}
