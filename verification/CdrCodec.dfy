/** The code that CDR_CPP_TEMPLATE emits, as one interpreter over registered types: what a
    serializer appends to a buffer of a given size, and what a deserializer does to a target. */
module CdrCodec {
  import opened Results
  import opened Bytes
  import opened CdrPrimitives
  import opened Accessors

  // -- serialize ------------------------------------------------------------------------

  /** The bytes serializing `o` appends to a buffer that already holds `n` bytes. */
  function Encode(reg: Registry, ty: Ty, o: Obj, n: nat): (r: Result<seq<byte>>)
    decreases o, 2
  {
    match ty
    case PrimTy(p) =>
      if o.Leaf? && PrimOk(p, o.v) then Ok(EncodePrim(p, o.v, n)) else Err(BadCast)
    case NamedTy(t) =>
      if t !in reg then Err(NoHandler) else EncodeNamed(reg, reg[t].handler, o, n)
    case OptTy(e) =>
      if !o.OptObj? then Err(BadCast)
      else if !o.has then Ok([0])
      else
        var inner :- Encode(reg, e, o.o, n + 1);
        Ok([1] + inner)
    case ListTy(e, _) =>
      if !o.ListObj? then Err(BadCast)
      else
        var len := EncodeLength(|o.items|, n);
        var items :- EncodeItems(reg, e, o.items, n + |len|);
        Ok(len + items)
  }

  /** An enumeration writes its item; a structure its base, its choice, then its fields. */
  function EncodeNamed(reg: Registry, h: Handler, o: Obj, n: nat): (r: Result<seq<byte>>)
    decreases o, 1
  {
    match h
    case EnumHandler(_) =>
      if o.EnumObj? && o.item < U32 then Ok(EncodeWord(o.item, 4, n)) else Err(BadCast)
    case StructHandler(base, choice, fields) =>
      if !o.StructObj? || base.Some? != o.base.Some? then Err(BadCast)
      else
        var b :- if base.Some? then Encode(reg, NamedTy(base.value), o.base.value, n) else Ok([]);
        var c :- EncodeChoice(reg, choice, o, n + |b|);
        var f :- EncodeMembers(reg, fields, o.fields, n + |b| + |c|);
        Ok(b + c + f)
  }

  function EncodeChoice(reg: Registry, choice: Option<seq<Member>>, o: Obj, n: nat): (r: Result<seq<byte>>)
    requires o.StructObj?
    decreases o, 0
  {
    match choice
    case None => Ok([])
    case Some(vs) =>
      if |vs| != |o.variants| || o.ord >= U32 then Err(BadCast)
      else
        var ord := EncodeWord(o.ord, 4, n);
        if 1 <= o.ord <= |vs| then
          var v :- Encode(reg, vs[o.ord - 1].ty, o.variants[o.ord - 1], n + |ord|);
          Ok(ord + v)
        else
          Ok(ord)
  }

  function EncodeMembers(reg: Registry, ms: seq<Member>, os: seq<Obj>, n: nat): (r: Result<seq<byte>>)
    decreases os, 0
  {
    if |ms| != |os| then Err(BadCast)
    else if os == [] then Ok([])
    else
      var a :- Encode(reg, ms[0].ty, os[0], n);
      var b :- EncodeMembers(reg, ms[1..], os[1..], n + |a|);
      Ok(a + b)
  }

  function EncodeItems(reg: Registry, elem: Ty, os: seq<Obj>, n: nat): (r: Result<seq<byte>>)
    decreases os, 0
  {
    if os == [] then Ok([])
    else
      var a :- Encode(reg, elem, os[0], n);
      var b :- EncodeItems(reg, elem, os[1..], n + |a|);
      Ok(a + b)
  }

  // -- deserialize --------------------------------------------------------------------------

  /** Deserializes into `target` from offset `off`: the object the target becomes, and the next
      offset. Nothing is cleared first; only what the bytes mention is assigned. */
  function Decode(reg: Registry, ty: Ty, target: Obj, buf: seq<byte>, off: nat): (r: Result<(Obj, nat)>)
    requires off <= |buf|
    ensures r.Ok? ==> off <= r.value.1 <= |buf|
    decreases |buf| - off, 0, target, 2
  {
    match ty
    case PrimTy(p) =>
      var (v, next) :- DecodePrim(p, buf, off);
      Ok((Leaf(v), next))
    case NamedTy(t) =>
      if t !in reg then Err(NoHandler) else DecodeNamed(reg, reg[t].handler, target, buf, off)
    case OptTy(e) =>
      if !target.OptObj? then Err(BadCast)
      else
        var (flag, at) :- DecodePrim(PBool, buf, off);
        if !flag.b then Ok((target, at))
        else
          var (inner, next) :- Decode(reg, e, target.o, buf, at);
          Ok((OptObj(true, inner), next))
    case ListTy(e, max) =>
      if !target.ListObj? then Err(BadCast)
      else
        var (cnt, at) :- DecodeWord(buf, off, 4);
        var (items, next) :- DecodeItems(reg, e, max, cnt, 0, buf, at);
        Ok((ListObj(items), next))
  }

  function DecodeNamed(reg: Registry, h: Handler, target: Obj, buf: seq<byte>, off: nat): (r: Result<(Obj, nat)>)
    requires off <= |buf|
    ensures r.Ok? ==> off <= r.value.1 <= |buf|
    decreases |buf| - off, 0, target, 1
  {
    match h
    case EnumHandler(_) =>
      if !target.EnumObj? then Err(BadCast)
      else
        var (item, next) :- DecodeWord(buf, off, 4);
        Ok((EnumObj(item), next))
    case StructHandler(base, choice, fields) =>
      if !target.StructObj? || base.Some? != target.base.Some? then Err(BadCast)
      else
        var (b, at) :- if base.Some? then DecodeBase(reg, base.value, target, buf, off) else Ok((None, off));
        var (o, at') :- DecodeChoice(reg, choice, target, buf, at);
        var (fs, next) :- DecodeMembers(reg, fields, target.fields, buf, at');
        Ok((StructObj(b, o.ord, o.variants, fs), next))
  }

  function DecodeBase(reg: Registry, base: Name, target: Obj, buf: seq<byte>, off: nat): (r: Result<(Option<Obj>, nat)>)
    requires target.StructObj? && target.base.Some?
    requires off <= |buf|
    ensures r.Ok? ==> off <= r.value.1 <= |buf| && r.value.0.Some?
    decreases |buf| - off, 0, target, 0
  {
    var (b, next) :- Decode(reg, NamedTy(base), target.base.value, buf, off);
    Ok((Some(b), next))
  }

  /** An ordinal that names no variant leaves the target's choice as it was. */
  function DecodeChoice(reg: Registry, choice: Option<seq<Member>>, target: Obj, buf: seq<byte>, off: nat): (r: Result<(Obj, nat)>)
    requires target.StructObj?
    requires off <= |buf|
    ensures r.Ok? ==> r.value.0.StructObj? && off <= r.value.1 <= |buf|
    decreases |buf| - off, 0, target, 0
  {
    match choice
    case None => Ok((target, off))
    case Some(vs) =>
      if |vs| != |target.variants| then Err(BadCast)
      else
        var (ord, at) :- DecodeWord(buf, off, 4);
        if 1 <= ord <= |vs| then
          var (v, next) :- Decode(reg, vs[ord - 1].ty, target.variants[ord - 1], buf, at);
          Ok((target.(ord := ord, variants := target.variants[ord - 1 := v]), next))
        else
          Ok((target, at))
  }

  function DecodeMembers(reg: Registry, ms: seq<Member>, targets: seq<Obj>, buf: seq<byte>, off: nat): (r: Result<(seq<Obj>, nat)>)
    requires off <= |buf|
    ensures r.Ok? ==> |r.value.0| == |targets| && off <= r.value.1 <= |buf|
    decreases |buf| - off, 0, targets, 0
  {
    if |ms| != |targets| then Err(BadCast)
    else if targets == [] then Ok(([], off))
    else
      var (o, at) :- Decode(reg, ms[0].ty, targets[0], buf, off);
      var (os, next) :- DecodeMembers(reg, ms[1..], targets[1..], buf, at);
      Ok(([o] + os, next))
  }

  /** Decodes `cnt` items, each into a fresh object, and appends them to a list that already
      holds `size`; `push_back` refuses to exceed a bounded list's maximum. */
  function DecodeItems(reg: Registry, elem: Ty, max: Option<nat>, cnt: nat, size: nat, buf: seq<byte>, off: nat): (r: Result<(seq<Obj>, nat)>)
    requires off <= |buf|
    ensures r.Ok? ==> |r.value.0| == cnt && off <= r.value.1 <= |buf|
    decreases |buf| - off, 1, cnt
  {
    if cnt == 0 then Ok(([], off))
    else
      var (o, at) :- Decode(reg, elem, Fresh(reg, elem), buf, off);
      if max.Some? && size >= max.value then Err(TooMany)
      else
        var (os, next) :- DecodeItems(reg, elem, max, cnt - 1, size + 1, buf, at);
        Ok(([o] + os, next))
  }

  // -- what decoding an encoded object does to a target ------------------------------------------

  /** The object that `target` becomes when the bytes of `o` are decoded into it. */
  function Overlay(reg: Registry, ty: Ty, target: Obj, o: Obj): Obj
    decreases o, 2
  {
    match ty
    case PrimTy(_) => o
    case NamedTy(t) => if t in reg then OverlayNamed(reg, reg[t].handler, target, o) else o
    case OptTy(e) =>
      if target.OptObj? && o.OptObj? then
        if o.has then OptObj(true, Overlay(reg, e, target.o, o.o)) else target
      else o
    case ListTy(e, _) =>
      if o.ListObj? then ListObj(OverlayItems(reg, e, o.items)) else o
  }

  function OverlayNamed(reg: Registry, h: Handler, target: Obj, o: Obj): Obj
    decreases o, 1
  {
    match h
    case EnumHandler(_) => o
    case StructHandler(base, choice, fields) =>
      if !target.StructObj? || !o.StructObj? then o
      else
        var b := if base.Some? && target.base.Some? && o.base.Some?
                 then Some(Overlay(reg, NamedTy(base.value), target.base.value, o.base.value))
                 else None;
        var c := OverlayChoice(reg, choice, target, o);
        var fs := OverlayMembers(reg, fields, target.fields, o.fields);
        StructObj(b, c.ord, c.variants, fs)
  }

  /** Only a chosen variant is assigned. */
  function OverlayChoice(reg: Registry, choice: Option<seq<Member>>, target: Obj, o: Obj): (r: Obj)
    requires target.StructObj? && o.StructObj?
    ensures r.StructObj?
    decreases o, 0
  {
    if choice.Some? && 1 <= o.ord <= |choice.value| && o.ord <= |target.variants| && o.ord <= |o.variants| then
      var v := Overlay(reg, choice.value[o.ord - 1].ty, target.variants[o.ord - 1], o.variants[o.ord - 1]);
      target.(ord := o.ord, variants := target.variants[o.ord - 1 := v])
    else
      target
  }

  function OverlayMembers(reg: Registry, ms: seq<Member>, targets: seq<Obj>, os: seq<Obj>): (r: seq<Obj>)
    ensures |ms| == |targets| == |os| ==> |r| == |os|
    decreases os, 0
  {
    if |ms| != |os| || |targets| != |os| || os == [] then []
    else [Overlay(reg, ms[0].ty, targets[0], os[0])] + OverlayMembers(reg, ms[1..], targets[1..], os[1..])
  }

  function OverlayItems(reg: Registry, elem: Ty, os: seq<Obj>): (r: seq<Obj>)
    ensures |r| == |os|
    decreases os, 0
  {
    if os == [] then []
    else [Overlay(reg, elem, Fresh(reg, elem), os[0])] + OverlayItems(reg, elem, os[1..])
  }

  /** Nothing stale in `target` shows once `o` has been decoded into it: wherever `o` leaves an
      optional absent or a choice unmade, the target does too. */
  predicate NoLeak(target: Obj, o: Obj)
    decreases o
  {
    match o
    case Leaf(_) => true
    case EnumObj(_) => true
    case OptObj(has, i) => target.OptObj? && if has then NoLeak(target.o, i) else !target.has
    case ListObj(_) => true
    case StructObj(base, ord, variants, fields) =>
      && target.StructObj?
      && (base.Some? ==> target.base.Some? && NoLeak(target.base.value, base.value))
      && (if 1 <= ord <= |variants| then ord <= |target.variants| && NoLeak(target.variants[ord - 1], variants[ord - 1])
          else target.ord == 0)
      && |fields| == |target.fields|
      && forall i :: 0 <= i < |fields| ==> NoLeak(target.fields[i], fields[i])
  }
}
