/** The code that JSON_CPP_TEMPLATE emits, as one interpreter over registered types: the tree a
    serializer writes, and what a deserializer does to a target. */
module JsonCodec {
  import opened Results
  import opened Bytes
  import opened CdrPrimitives
  import opened Accessors
  import opened JsonText
  import Uuid

  // -- enumerations --------------------------------------------------------------------------

  /** "enumNotSet" */
  const NOT_SET: Name := [101, 110, 117, 109, 78, 111, 116, 83, 101, 116]

  /** "invalid" */
  const INVALID: Name := [105, 110, 118, 97, 108, 105, 100]

  /** `toName`. */
  function ItemName(values: seq<Name>, item: nat): Name {
    if item == 0 then NOT_SET else if item <= |values| then values[item - 1] else INVALID
  }

  /** The first of the names from `i` on that is the given one. */
  function ItemFrom(names: seq<Name>, name: Name, i: nat): (r: Option<nat>)
    requires i <= |names|
    decreases |names| - i
  {
    if i == |names| then None else if names[i] == name then Some(i) else ItemFrom(names, name, i + 1)
  }

  /** `fromName`; an unknown name throws. */
  function ItemOf(values: seq<Name>, name: Name): Option<nat> {
    ItemFrom([NOT_SET] + values, name, 0)
  }

  method FromName(values: seq<Name>, name: Name) returns (item: Option<nat>)
    ensures item == ItemOf(values, name)
  {
    var names := [NOT_SET] + values;
    for i := 0 to |names|
      invariant ItemOf(values, name) == ItemFrom(names, name, i)
    {
      if names[i] == name {
        return Some(i);
      }
    }
    return None;
  }

  lemma {:induction false} ItemFromFirst(names: seq<Name>, name: Name, i: nat)
    requires i <= |names|
    ensures var r := ItemFrom(names, name, i);
      if r.Some? then i <= r.value < |names| && names[r.value] == name && name !in names[i..r.value] else name !in names[i..]
    decreases |names| - i
  {
    if i < |names| && names[i] != name {
      ItemFromFirst(names, name, i + 1);
      assert names[i..] == [names[i]] + names[i + 1..];
      var r := ItemFrom(names, name, i + 1);
      if r.Some? { assert names[i..r.value] == [names[i]] + names[i + 1..r.value]; }
    }
  }

  predicate Named(values: seq<Name>, item: nat) {
    ItemOf(values, ItemName(values, item)) == Some(item)
  }

  /** An item is found again by its name exactly when it is declared and no earlier item has the
      same name, the implicit `enumNotSet` included. */
  lemma NamedIff(values: seq<Name>, item: nat)
    ensures Named(values, item) <==> item <= |values| && ItemName(values, item) !in ([NOT_SET] + values)[..item]
  {
    var names := [NOT_SET] + values;
    ItemFromFirst(names, ItemName(values, item), 0);
    if item <= |values| {
      assert names[item] == ItemName(values, item);
      var r := ItemOf(values, ItemName(values, item));
      if r.Some? && r.value < item {
        assert names[..item][r.value] == ItemName(values, item);
      }
    }
  }

  // -- primitives -----------------------------------------------------------------------------

  /** Bytes as lower-case hexadecimal digits. */
  function HexText(s: seq<byte>): (t: seq<byte>)
    ensures |t| == 2 * |s|
  {
    if s == [] then [] else HexText(s[..|s| - 1]) + Uuid.Hex2(s[|s| - 1])
  }

  /** The bytes of the first `i` pairs of digits. */
  function HexPairs(t: seq<byte>, i: nat): (r: Result<seq<byte>>)
    requires 2 * i <= |t|
    ensures r.Ok? ==> |r.value| == i
  {
    if i == 0 then Ok([])
    else
      var s :- HexPairs(t, i - 1);
      match HexPair(t[2 * i - 2], t[2 * i - 1])
      case None => Err(BadText)
      case Some(b) => Ok(s + [b])
  }

  function HexBytes(t: seq<byte>): Result<seq<byte>> {
    if |t| % 2 != 0 then Err(BadText) else HexPairs(t, |t| / 2)
  }

  method ParseHexBytes(t: seq<byte>) returns (r: Result<seq<byte>>)
    ensures r == HexBytes(t)
  {
    if |t| % 2 != 0 {
      return Err(BadText);
    }
    var bytes: seq<byte> := [];
    var i: nat := 0;
    while 2 * i < |t|
      invariant 2 * i <= |t| && HexPairs(t, i) == Ok(bytes)
    {
      var b := HexPair(t[2 * i], t[2 * i + 1]);
      if b.None? {
        HexFails(t, i + 1, |t| / 2);
        return Err(BadText);
      }
      bytes := bytes + [b.value];
      i := i + 1;
    }
    return Ok(bytes);
  }

  lemma {:induction false} HexFails(t: seq<byte>, i: nat, j: nat)
    requires i <= j && 2 * j <= |t| && HexPairs(t, i) == Err(BadText)
    ensures HexPairs(t, j) == Err(BadText)
    decreases j
  {
    if i < j { HexFails(t, i, j - 1); }
  }

  lemma {:induction false} HexPairsPrefix(t: seq<byte>, u: seq<byte>, i: nat)
    requires 2 * i <= |t|
    ensures HexPairs(t + u, i) == HexPairs(t, i)
  {
    if i > 0 { HexPairsPrefix(t, u, i - 1); }
  }

  lemma HexByteComesBack(b: byte)
    ensures HexPair(Uuid.Hex2(b)[0], Uuid.Hex2(b)[1]) == Some(b)
    ensures Uuid.Hex2(b)[0] < 0x80 && Uuid.Hex2(b)[1] < 0x80
  {
    Uuid.NibbleHexDigit(b / 16);
    Uuid.NibbleHexDigit(b % 16);
  }

  lemma {:induction false} HexComesBack(s: seq<byte>)
    ensures HexPairs(HexText(s), |s|) == Ok(s)
    ensures forall i :: 0 <= i < |HexText(s)| ==> HexText(s)[i] < 0x80
  {
    hide HexPair, Uuid.Hex2;
    if s != [] {
      var front, b := s[..|s| - 1], s[|s| - 1];
      HexComesBack(front);
      HexByteComesBack(b);
      HexPairsPrefix(HexText(front), Uuid.Hex2(b), |front|);
      var t := HexText(s);
      assert t[2 * |s| - 2] == Uuid.Hex2(b)[0] && t[2 * |s| - 1] == Uuid.Hex2(b)[1];
      assert s == front + [b];
    }
  }

  function PrimJson(p: PrimType, v: PrimVal): Json
    requires PrimOk(p, v)
  {
    match p
    case PBool => JBool(v.b)
    case PInt(_, _) => JNum(v.n)
    case PFloat(_) => JNull  // the text of floating-point numbers is not modelled
    case PString => JStr(v.s)
    case PBytes => JStr(HexText(v.s))
    case PUuid => JStr(Uuid.ToText(v.o))
  }

  /** `get<int64_t>` on an unsigned number of 2^63 or more wraps around. */
  function Wrap64(n: int): int {
    if n >= 0x8000_0000_0000_0000 then n - 0x1_0000_0000_0000_0000 else n
  }

  /** `parse_value`. */
  function ParsePrim(p: PrimType, j: Json): (r: Result<PrimVal>)
    ensures r.Ok? ==> PrimOk(p, r.value)
  {
    match p
    case PBool => if j.JBool? then Ok(BoolV(j.b)) else Err(BadJson)
    case PInt(w, signed) =>
      if !j.JNum? then Err(BadJson)
      else
        var n := if signed then Wrap64(j.n) else j.n;
        if InRange(w, signed, n) then Ok(NumV(n)) else Err(BadJson)
    case PFloat(_) => Err(BadJson)
    case PString => if j.JStr? then Ok(TextV(j.s)) else Err(BadJson)
    case PBytes =>
      if !j.JStr? then Err(BadJson)
      else
        var s :- HexBytes(j.s);
        Ok(TextV(s))
    case PUuid =>
      if !j.JStr? then Err(BadJson)
      else match Uuid.FromText(j.s) case None => Err(BadText) case Some(o) => Ok(UuidV(o))
  }

  lemma PrimComesBack(p: PrimType, v: PrimVal)
    requires PrimOk(p, v) && !p.PFloat?
    ensures ParsePrim(p, PrimJson(p, v)) == Ok(v)
    ensures NumbersFit(PrimJson(p, v))
    ensures AllUtf8(PrimJson(p, v)) <==> (p.PString? ==> Utf8(v.s))
  {
    hide HexText, HexPairs, Uuid.ToText, Uuid.FromText, Utf8;
    match p
    case PInt(w, _) => SmallSpan(w);
    case PBytes =>
      HexComesBack(v.s);
      AsciiIsUtf8(HexText(v.s));
    case PUuid =>
      Uuid.TextRoundTrip(v.o);
      Uuid.TextIsAscii(v.o);
      AsciiIsUtf8(Uuid.ToText(v.o));
    case _ =>
  }

  lemma SmallSpan(w: Width)
    ensures Span(w.Size()) <= 0x1_0000_0000_0000_0000
  {
    assert Span(1) == 256 && Span(2) == 0x1_0000 && Span(3) == 0x100_0000 && Span(4) == 0x1_0000_0000;
    assert Span(5) == 0x100_0000_0000 && Span(6) == 0x1_0000_0000_0000;
    assert Span(7) == 0x100_0000_0000_0000 && Span(8) == 0x1_0000_0000_0000_0000;
  }

  /** `parse_value` takes an integer for what it is, or refuses one that the target cannot hold,
      for every unsigned target; for a signed one exactly below the numbers that the 64-bit getter
      turns into small negative ones, which are taken for those. */
  lemma RangeCheckIff(w: Width, signed: bool, n: int)
    requires Int64Range(n)
    ensures ParsePrim(PInt(w, signed), JNum(n)) == (if InRange(w, signed, n) then Ok(NumV(n)) else Err(BadJson)) <==>
            !signed || n < 0x1_0000_0000_0000_0000 - Span(w.Size()) / 2
    ensures signed && n >= 0x1_0000_0000_0000_0000 - Span(w.Size()) / 2 ==>
            ParsePrim(PInt(w, signed), JNum(n)) == Ok(NumV(n - 0x1_0000_0000_0000_0000))
  {
    hide Span;
    EvenSpan(w);
  }

  lemma EvenSpan(w: Width)
    ensures Span(w.Size()) % 2 == 0 && 256 <= Span(w.Size()) <= 0x1_0000_0000_0000_0000
  {
    SmallSpan(w);
  }

  /** 2^64 - 1 read into an 8-bit signed target passes the check as -1. */
  lemma HugeNumberWraps()
    ensures ParsePrim(PInt(W1, true), JNum(0xFFFF_FFFF_FFFF_FFFF)) == Ok(NumV(-1))
  {
    RangeCheckIff(W1, true, 0xFFFF_FFFF_FFFF_FFFF);
  }

  // -- write -----------------------------------------------------------------------------------

  /** A member that a structure may write: absent ones write nothing. */
  datatype Slot = Slot(name: Name, value: Option<Json>)

  /** The members that are written, in order. */
  function Present(slots: seq<Slot>): seq<Field> {
    if slots == [] then []
    else
      var last := slots[|slots| - 1];
      Present(slots[..|slots| - 1]) + if last.value.Some? then [Field(last.name, last.value.value)] else []
  }

  function ToJson(reg: Registry, ty: Ty, o: Obj): Json
    requires WellTyped(reg, ty, o)
    decreases o, 2
  {
    match ty
    case PrimTy(p) => PrimJson(p, o.v)
    case OptTy(e) => if o.has then ToJson(reg, e, o.o) else JNull
    case ListTy(e, _) => JArr(ItemsJson(reg, e, o.items))
    case NamedTy(t) =>
      match reg[t].handler
      case EnumHandler(values) => JStr(ItemName(values, o.item))
      case StructHandler(_, _, _) => JObj(Present(Slots(reg, t, o)))
  }

  /** The members of a structure: those of its base, its choice, its own. */
  function Slots(reg: Registry, t: Name, o: Obj): seq<Slot>
    requires WellTyped(reg, NamedTy(t), o)
    decreases o, 1
  {
    match reg[t].handler
    case EnumHandler(_) => []
    case StructHandler(base, choice, fields) =>
      (if base.Some? then Slots(reg, base.value, o.base.value) else [])
      + (if choice.Some? then VariantSlots(reg, choice.value, o.variants, o.ord) else [])
      + FieldSlots(reg, fields, o.fields)
  }

  /** Only the chosen variant is written. */
  function VariantSlots(reg: Registry, vs: seq<Member>, os: seq<Obj>, ord: int): (r: seq<Slot>)
    requires MembersTyped(reg, vs, os)
    ensures |r| == |vs|
    decreases os, 0
  {
    if vs == [] then []
    else
      [Slot(vs[0].name, if ord == 1 then Some(ToJson(reg, vs[0].ty, os[0])) else None)]
      + VariantSlots(reg, vs[1..], os[1..], ord - 1)
  }

  function FieldSlots(reg: Registry, ms: seq<Member>, os: seq<Obj>): (r: seq<Slot>)
    requires MembersTyped(reg, ms, os)
    ensures |r| == |ms|
    decreases os, 0
  {
    if ms == [] then []
    else
      [Slot(ms[0].name, if ms[0].ty.OptTy? && !os[0].has then None else Some(ToJson(reg, ms[0].ty, os[0])))]
      + FieldSlots(reg, ms[1..], os[1..])
  }

  function ItemsJson(reg: Registry, elem: Ty, os: seq<Obj>): (r: seq<Json>)
    requires ItemsTyped(reg, elem, os)
    ensures |r| == |os|
    decreases os, 0
  {
    if os == [] then [] else [ToJson(reg, elem, os[0])] + ItemsJson(reg, elem, os[1..])
  }

  // -- read -------------------------------------------------------------------------------------------

  /** Where `find` finds a member; of members with one name the last counts. */
  function Find(all: seq<Field>, name: Name): (i: Option<nat>)
    ensures i.Some? ==> i.value < |all| && all[i.value].name == name
  {
    if all == [] then None
    else if all[|all| - 1].name == name then Some(|all| - 1)
    else Find(all[..|all| - 1], name)
  }

  /** Deserializes a value into `target`. */
  function FromJson(reg: Registry, ty: Ty, target: Obj, j: Json): (r: Result<Obj>)
    decreases j, 0, target, 2
  {
    match ty
    case PrimTy(p) =>
      var v :- ParsePrim(p, j);
      Ok(Leaf(v))
    case OptTy(e) =>
      if !target.OptObj? then Err(BadCast)
      else
        var o :- FromJson(reg, e, target.o, j);
        Ok(OptObj(true, o))
    case ListTy(e, max) =>
      if !j.JArr? then Err(BadJson)
      else
        var items :- FromItems(reg, e, max, j.items, 0);
        Ok(ListObj(items))
    case NamedTy(t) =>
      if t !in reg then Err(NoHandler)
      else
        match reg[t].handler
        case EnumHandler(values) =>
          if !j.JStr? then Err(BadJson)
          else (match ItemOf(values, j.s) case None => Err(BadJson) case Some(i) => Ok(EnumObj(i)))
        case StructHandler(_, _, _) =>
          if !j.JObj? then Err(BadJson) else FromFields(reg, t, target, j.members)
  }

  /** A structure's base, choice and members, each looked up by name among all members. */
  function FromFields(reg: Registry, t: Name, target: Obj, all: seq<Field>): (r: Result<Obj>)
    ensures r.Ok? ==> r.value.StructObj?
    decreases all, 2, target, 1
  {
    if t !in reg then Err(NoHandler)
    else
      match reg[t].handler
      case EnumHandler(_) => Err(BadJson)
      case StructHandler(base, choice, fields) =>
        if !target.StructObj? || base.Some? != target.base.Some? then Err(BadCast)
        else
          var b :- if base.Some? then FromBase(reg, base.value, target, all) else Ok(None);
          var c :- if choice.Some? then FromVariants(reg, choice.value, 0, target, 0, all) else Ok(target);
          var fs :- FromMembers(reg, fields, target.fields, all);
          Ok(StructObj(b, c.ord, c.variants, fs))
  }

  function FromBase(reg: Registry, base: Name, target: Obj, all: seq<Field>): (r: Result<Option<Obj>>)
    requires target.StructObj? && target.base.Some?
    ensures r.Ok? ==> r.value.Some?
    decreases all, 2, target, 0
  {
    var b :- FromFields(reg, base, target.base.value, all);
    Ok(Some(b))
  }

  /** Each variant that is present is chosen and read, from the `k`-th on; more than one is an error. */
  function FromVariants(reg: Registry, vs: seq<Member>, k: nat, target: Obj, matched: nat, all: seq<Field>): (r: Result<Obj>)
    requires target.StructObj? && k <= |vs|
    ensures r.Ok? ==> r.value.StructObj?
    decreases all, 1, |vs| - k
  {
    if |vs| != |target.variants| then Err(BadCast)
    else if k == |vs| then if matched > 1 then Err(BadJson) else Ok(target)
    else
      match Find(all, vs[k].name)
      case None => FromVariants(reg, vs, k + 1, target, matched, all)
      case Some(i) =>
        var v :- FromJson(reg, vs[k].ty, target.variants[k], all[i].value);
        FromVariants(reg, vs, k + 1, target.(ord := k + 1, variants := target.variants[k := v]), matched + 1, all)
  }

  /** Required members must be there; an optional one that is not is cleared. */
  function FromMembers(reg: Registry, ms: seq<Member>, targets: seq<Obj>, all: seq<Field>): (r: Result<seq<Obj>>)
    ensures r.Ok? ==> |r.value| == |targets|
    decreases all, 0, targets, 0
  {
    if |ms| != |targets| then Err(BadCast)
    else if ms == [] then Ok([])
    else
      var o :- FromMember(reg, ms[0], targets[0], all);
      var os :- FromMembers(reg, ms[1..], targets[1..], all);
      Ok([o] + os)
  }

  function FromMember(reg: Registry, m: Member, target: Obj, all: seq<Field>): (r: Result<Obj>)
    decreases all, 0, target, 3
  {
    match Find(all, m.name)
    case Some(i) => FromJson(reg, m.ty, target, all[i].value)
    case None => if m.ty.OptTy? && target.OptObj? then Ok(OptObj(false, target.o)) else Err(BadJson)
  }

  function FromItems(reg: Registry, elem: Ty, max: Option<nat>, js: seq<Json>, size: nat): (r: Result<seq<Obj>>)
    ensures r.Ok? ==> |r.value| == |js|
    decreases js, 2
  {
    if js == [] then Ok([])
    else
      var o :- FromJson(reg, elem, Fresh(reg, elem), js[0]);
      if max.Some? && size >= max.value then Err(TooMany)
      else
        var os :- FromItems(reg, elem, max, js[1..], size + 1);
        Ok([o] + os)
  }
}
