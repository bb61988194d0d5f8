/** The tree that an object is written as, as a relation between the two, and how trees are spelled. */
module JsonForm {
  import opened Results
  import opened Bytes
  import opened CdrPrimitives
  import opened Accessors
  import opened JsonText
  import opened JsonCodec
  import JsonReading
  import JsonRoundTrip
  import JsonWriter
  import HexText
  import Protocol
  import Uuid

  // -- trees ---------------------------------------------------------------------------------------

  predicate PrimTree(p: PrimType, v: PrimVal, j: Json)
    requires PrimOk(p, v)
  {
    match p
    case PBool => j == JBool(v.b)
    case PInt(_, _) => j == JNum(v.n)
    case PFloat(_) => true  // the text of floating-point numbers is not modelled
    case PString => j == JStr(v.s)
    case PBytes => j.JStr? && |j.s| == 2 * |v.s| && forall i :: 0 <= i < |v.s| ==> HexText.WritesPair(j.s[2 * i], j.s[2 * i + 1], v.s[i])
    case PUuid =>
      && j.JStr? && HexText.Dashed(j.s)
      && forall i :: 0 <= i < 16 ==> HexText.WritesPair(j.s[HexText.At(i)], j.s[HexText.At(i) + 1], v.o[i])
  }

  predicate ItemTree(values: seq<Name>, item: nat, j: Json) {
    j == JStr(if item == 0 then Ascii("enumNotSet") else if item <= |values| then values[item - 1] else Ascii("invalid"))
  }

  /** `j` is the tree of `o`. */
  predicate Tree(reg: Registry, ty: Ty, o: Obj, j: Json)
    requires WellTyped(reg, ty, o)
    decreases o, 2
  {
    match ty
    case PrimTy(p) => PrimTree(p, o.v, j)
    case OptTy(e) => o.has ==> Tree(reg, e, o.o, j)
    case ListTy(e, _) =>
      j.JArr? && |j.items| == |o.items| && forall i :: 0 <= i < |o.items| ==> Tree(reg, e, o.items[i], j.items[i])
    case NamedTy(t) =>
      match reg[t].handler
      case EnumHandler(values) => ItemTree(values, o.item, j)
      case StructHandler(_, _, _) => j.JObj? && MembersTree(reg, t, o, j.members)
  }

  /** Inherited members, then the chosen variant, then the fields that are there: all in order, each
      under its name, and nothing else. */
  predicate MembersTree(reg: Registry, t: Name, o: Obj, ms: seq<Field>)
    requires WellTyped(reg, NamedTy(t), o) && reg[t].handler.StructHandler?
    decreases o, 1
  {
    var StructHandler(base, choice, fields) := reg[t].handler;
    exists a, b :: 0 <= a <= b <= |ms|
      && (if base.Some? && base.value in reg && reg[base.value].handler.StructHandler?
          then MembersTree(reg, base.value, o.base.value, ms[..a])
          else a == 0)
      && (if choice.Some? && o.ord >= 1
          then b == a + 1 && ms[a].name == choice.value[o.ord - 1].name
               && Tree(reg, choice.value[o.ord - 1].ty, o.variants[o.ord - 1], ms[a].value)
          else b == a)
      && FieldsTree(reg, fields, o.fields, ms[b..])
  }

  predicate FieldsTree(reg: Registry, fields: seq<Member>, os: seq<Obj>, ms: seq<Field>)
    requires MembersTyped(reg, fields, os)
    decreases os, 0
  {
    if os == [] then ms == []
    else if fields[0].ty.OptTy? && !os[0].has then FieldsTree(reg, fields[1..], os[1..], ms)
    else
      && ms != [] && ms[0].name == fields[0].name
      && Tree(reg, fields[0].ty, os[0], ms[0].value)
      && FieldsTree(reg, fields[1..], os[1..], ms[1..])
  }

  lemma PrimTreeIs(p: PrimType, v: PrimVal)
    requires PrimOk(p, v)
    ensures PrimTree(p, v, PrimJson(p, v))
  {
    hide JsonCodec.HexText, Uuid.ToText, HexText.WritesPair;
    match p
    case PBytes => HexText.BytesWritten(v.s);
    case PUuid => HexText.UuidWritten(v.o);
    case _ =>
  }

  /** The tree of every well-typed object, choices and optionals as they show. */
  lemma {:induction false} TreeIs(reg: Registry, ty: Ty, o: Obj)
    requires WellTyped(reg, ty, o)
    ensures Tree(reg, ty, o, ToJson(reg, ty, o))
    decreases o, 2
  {
    hide PrimTree, PrimJson, MembersTree, Slots, Present, NOT_SET, INVALID;
    match ty
    case PrimTy(p) => PrimTreeIs(p, o.v);
    case OptTy(e) => if o.has { TreeIs(reg, e, o.o); }
    case ListTy(e, _) =>
      forall i | 0 <= i < |o.items|
        ensures Tree(reg, e, o.items[i], ItemsJson(reg, e, o.items)[i])
      {
        JsonWriter.ItemJsonAt(reg, e, o.items, i);
        TreeIs(reg, e, o.items[i]);
      }
    case NamedTy(t) =>
      match reg[t].handler
      case EnumHandler(values) => JsonReading.NotSetIsAscii();
      case StructHandler(_, _, _) => MembersTreeIs(reg, t, o);
  }

  lemma {:induction false} MembersTreeIs(reg: Registry, t: Name, o: Obj)
    requires WellTyped(reg, NamedTy(t), o) && reg[t].handler.StructHandler?
    ensures MembersTree(reg, t, o, Present(Slots(reg, t, o)))
    decreases o, 1
  {
    hide ToJson, Tree, FieldsTree, FieldSlots, VariantSlots, Present;
    var StructHandler(base, choice, fields) := reg[t].handler;
    var x := if base.Some? then Slots(reg, base.value, o.base.value) else [];
    var y := if choice.Some? then VariantSlots(reg, choice.value, o.variants, o.ord) else [];
    var z := FieldSlots(reg, fields, o.fields);
    var p, q, r := Present(x), Present(y), Present(z);
    var ms := Present(Slots(reg, t, o));
    assert Slots(reg, t, o) == x + y + z;
    JsonWriter.PresentConcat(x + y, z);
    JsonWriter.PresentConcat(x, y);
    NothingPresent();
    assert ms == p + q + r;
    if base.Some? && reg[base.value].handler.StructHandler? { MembersTreeIs(reg, base.value, o.base.value); }
    if choice.Some? {
      OneVariant(reg, choice.value, o.variants, o.ord);
      if o.ord >= 1 { TreeIs(reg, choice.value[o.ord - 1].ty, o.variants[o.ord - 1]); }
    }
    FieldsTreeIs(reg, fields, o.fields);
    assert ms[..|p|] == p && ms[|p| + |q|..] == r;
    assert q != [] ==> ms[|p|] == q[0];
  }

  lemma NothingPresent()
    ensures Present([]) == []
  {
  }

  lemma {:induction false} OneVariant(reg: Registry, vs: seq<Member>, os: seq<Obj>, ord: int)
    requires MembersTyped(reg, vs, os)
    ensures Present(VariantSlots(reg, vs, os, ord)) ==
      if 1 <= ord <= |vs| then [Field(vs[ord - 1].name, ToJson(reg, vs[ord - 1].ty, os[ord - 1]))] else []
    decreases os
  {
    hide ToJson, Present;
    NothingPresent();
    if vs != [] {
      var slots, tail := VariantSlots(reg, vs, os, ord), VariantSlots(reg, vs[1..], os[1..], ord - 1);
      assert slots == [slots[0]] + tail;
      JsonWriter.PresentConcat([slots[0]], tail);
      OnePresent(slots[0]);
      OneVariant(reg, vs[1..], os[1..], ord - 1);
    }
  }

  lemma OnePresent(slot: Slot)
    ensures Present([slot]) == if slot.value.Some? then [Field(slot.name, slot.value.value)] else []
  {
    assert [slot][..0] == [];
  }

  lemma {:induction false} FieldsTreeIs(reg: Registry, fields: seq<Member>, os: seq<Obj>)
    requires MembersTyped(reg, fields, os)
    ensures FieldsTree(reg, fields, os, Present(FieldSlots(reg, fields, os)))
    decreases os, 3
  {
    hide ToJson, Present, Tree;
    NothingPresent();
    if os != [] {
      var slots, tail := FieldSlots(reg, fields, os), FieldSlots(reg, fields[1..], os[1..]);
      assert slots == [slots[0]] + tail;
      JsonWriter.PresentConcat([slots[0]], tail);
      OnePresent(slots[0]);
      FieldsTreeIs(reg, fields[1..], os[1..]);
      var ms := Present(slots);
      if slots[0].value.Some? {
        TreeIs(reg, fields[0].ty, os[0]);
        assert ms[1..] == Present(tail);
      } else {
        assert ms == Present(tail);
      }
    }
  }

  // -- text --------------------------------------------------------------------------------------------

  /** Characters are escaped as section 7 of RFC 8259 lists them, other control characters by their
      four hexadecimal digits, and nothing else is. */
  lemma EscapesAre(c: byte)
    ensures match c as char {
      case '"' => Escape(c) == Ascii("\\\"")
      case '\\' => Escape(c) == Ascii("\\\\")
      case '\n' => Escape(c) == Ascii("\\n")
      case '\r' => Escape(c) == Ascii("\\r")
      case '\t' => Escape(c) == Ascii("\\t")
      case '\U{08}' => Escape(c) == Ascii("\\b")
      case '\U{0C}' => Escape(c) == Ascii("\\f")
      case _ => if c >= 32 then Escape(c) == [c]
                else |Escape(c)| == 6 && Escape(c)[..4] == Ascii("\\u00") && HexText.WritesPair(Escape(c)[4], Escape(c)[5], c)
    }
  {
    HexText.DigitWritten(c / 16);
    HexText.DigitWritten(c % 16);
  }

  const NUMERALS := "0123456789"

  /** A numeral continues with the last decimal digit, has no leading zero, and is preceded by a
      minus sign if the number is negative. */
  lemma NumeralsAre(n: nat, d: nat)
    requires d < 10
    ensures |Print(JNum(d))| == 1 && Print(JNum(d))[0] as char == NUMERALS[d]
    ensures n > 0 ==> Print(JNum(10 * n + d)) == Print(JNum(n)) + Print(JNum(d))
    ensures n > 0 ==> Print(JNum(0 - n)) == Ascii("-") + Print(JNum(n))
  {
    if n > 0 {
      assert (10 * n + d) / 10 == n && (10 * n + d) % 10 == d;
    }
  }

  lemma LiteralsAre()
    ensures Print(JNull) == Ascii("null") && Print(JBool(true)) == Ascii("true") && Print(JBool(false)) == Ascii("false")
    ensures Print(JArr([])) == Ascii("[]") && Print(JObj([])) == Ascii("{}")
  {
  }

  /** What stands between the items of an array and around them. */
  lemma ArrayIs(x: Json, items: seq<Json>)
    ensures Print(JArr([x] + items)) ==
      Ascii("[") + Print(x) + if items == [] then Ascii("]") else Ascii(",") + Print(JArr(items))[1..]
  {
    hide Print, PrintItems;
    var all := [x] + items;
    assert all[1..] == items && all[0] == x;
    ItemsPrinted(all);
    ArrayPrinted(all);
    ArrayPrinted(items);
    PunctuationBytes();
    if items != [] { assert Print(JArr(items))[1..] == PrintItems(items) + [93]; }
  }

  lemma ArrayPrinted(items: seq<Json>)
    ensures Print(JArr(items)) == [91] + PrintItems(items) + [93] && (items == [] ==> PrintItems(items) == [])
  {
  }

  lemma ItemsPrinted(items: seq<Json>)
    requires items != []
    ensures PrintItems(items) == Print(items[0]) + (if |items| > 1 then [44] else []) + PrintItems(items[1..])
  {
  }

  lemma PunctuationBytes()
    ensures Ascii("[") == [91] && Ascii("]") == [93] && Ascii("{") == [123] && Ascii("}") == [125]
    ensures Ascii(",") == [44] && Ascii(":") == [58]
  {
  }

  /** What stands between the members of an object, within them and around them. */
  lemma ObjectIs(f: Field, ms: seq<Field>)
    ensures Print(JObj([f] + ms)) ==
      Ascii("{") + Print(JStr(f.name)) + Ascii(":") + Print(f.value) + if ms == [] then Ascii("}") else Ascii(",") + Print(JObj(ms))[1..]
  {
    hide Quote;
    var all := [f] + ms;
    assert all[1..] == ms;
    MembersPrinted(all);
    PunctuationBytes();
    if ms == [] {
      assert PrintMembers(ms) == [];
    } else {
      assert Print(JObj(ms))[1..] == PrintMembers(ms) + [125];
    }
  }

  lemma MembersPrinted(ms: seq<Field>)
    requires ms != []
    ensures PrintMembers(ms) == Quote(ms[0].name) + [58] + Print(ms[0].value) + (if |ms| > 1 then [44] else []) + PrintMembers(ms[1..])
  {
  }

  // -- UTF-8 ---------------------------------------------------------------------------------------------

  /** A Unicode scalar value: a code point that is not a surrogate. */
  type Scalar = c: nat | c < 0x11_0000 && !(0xD800 <= c < 0xE000)

  /** The octets of a scalar value (section 3 of RFC 3629). */
  function Octets(c: Scalar): seq<byte> {
    if c < 0x80 then [c]
    else if c < 0x800 then [0xC0 + c / 0x40, 0x80 + c % 0x40]
    else if c < 0x1_0000 then [0xE0 + c / 0x1000, 0x80 + c / 0x40 % 0x40, 0x80 + c % 0x40]
    else [0xF0 + c / 0x4_0000, 0x80 + c / 0x1000 % 0x40, 0x80 + c / 0x40 % 0x40, 0x80 + c % 0x40]
  }

  function AllOctets(cs: seq<Scalar>): seq<byte> {
    if cs == [] then [] else Octets(cs[0]) + AllOctets(cs[1..])
  }

  lemma OctetsAreUtf8(c: Scalar, rest: seq<byte>)
    requires Utf8(rest)
    ensures Utf8(Octets(c) + rest)
  {
    hide Utf8;
    var o := Octets(c);
    var s := o + rest;
    assert s[|o|..] == rest;
    Utf8First(s);
    assert forall i :: 0 <= i < |o| ==> s[i] == o[i];
  }

  /** The first character of a text. */
  lemma Utf8First(s: seq<byte>)
    ensures Utf8(s) <==>
      || s == []
      || (s[0] < 0x80 && Utf8(s[1..]))
      || (|s| >= 2 && 0xC2 <= s[0] <= 0xDF && Tail(s[1]) && Utf8(s[2..]))
      || (|s| >= 3 && 0xE0 <= s[0] <= 0xEF && Tail(s[1]) && Tail(s[2])
          && (s[0] == 0xE0 ==> 0xA0 <= s[1]) && (s[0] == 0xED ==> s[1] <= 0x9F) && Utf8(s[3..]))
      || (|s| >= 4 && 0xF0 <= s[0] <= 0xF4 && Tail(s[1]) && Tail(s[2]) && Tail(s[3])
          && (s[0] == 0xF0 ==> 0x90 <= s[1]) && (s[0] == 0xF4 ==> s[1] <= 0x8F) && Utf8(s[4..]))
  {
  }

  lemma SplitSix(q: nat, r: nat)
    requires r < 0x40
    ensures (q * 0x40 + r) / 0x40 == q && (q * 0x40 + r) % 0x40 == r
    ensures (q * 0x40 + r) / 0x1000 == q / 0x40 && (q * 0x40 + r) / 0x4_0000 == q / 0x1000
  {
  }

  lemma TwoOctets(a: nat, b: nat) returns (c: Scalar)
    requires 2 <= a < 0x20 && b < 0x40
    ensures Octets(c) == [0xC0 + a, 0x80 + b]
  {
    SplitSix(a, b);
    c := a * 0x40 + b;
  }

  lemma ThreeOctets(a: nat, b: nat, d: nat) returns (c: Scalar)
    requires a < 0x10 && b < 0x40 && d < 0x40 && (a == 0 ==> b >= 0x20) && (a == 0xD ==> b < 0x20)
    ensures Octets(c) == [0xE0 + a, 0x80 + b, 0x80 + d]
  {
    SplitSix(a, b);
    SplitSix(a * 0x40 + b, d);
    c := (a * 0x40 + b) * 0x40 + d;
  }

  lemma FourOctets(a: nat, b: nat, d: nat, e: nat) returns (c: Scalar)
    requires a < 5 && b < 0x40 && d < 0x40 && e < 0x40 && (a == 0 ==> b >= 0x10) && (a == 4 ==> b < 0x10)
    ensures Octets(c) == [0xF0 + a, 0x80 + b, 0x80 + d, 0x80 + e]
  {
    SplitSix(a, b);
    SplitSix(a * 0x40 + b, d);
    SplitSix((a * 0x40 + b) * 0x40 + d, e);
    c := ((a * 0x40 + b) * 0x40 + d) * 0x40 + e;
  }

  lemma FirstScalar(s: seq<byte>) returns (c: Scalar)
    requires Utf8(s) && s != []
    ensures |Octets(c)| <= |s| && Octets(c) == s[..|Octets(c)|] && Utf8(s[|Octets(c)|..])
  {
    hide Utf8, Octets;
    Utf8First(s);
    if s[0] < 0x80 {
      c := s[0];
      OneOctet(c);
      assert s[..1] == [s[0]];
    } else if s[0] <= 0xDF {
      c := TwoOctets(s[0] - 0xC0, s[1] - 0x80);
      assert s[..2] == [s[0], s[1]];
    } else if s[0] <= 0xEF {
      c := ThreeOctets(s[0] - 0xE0, s[1] - 0x80, s[2] - 0x80);
      assert s[..3] == [s[0], s[1], s[2]];
    } else {
      c := FourOctets(s[0] - 0xF0, s[1] - 0x80, s[2] - 0x80, s[3] - 0x80);
      assert s[..4] == [s[0], s[1], s[2], s[3]];
    }
  }

  lemma OneOctet(c: Scalar)
    requires c < 0x80
    ensures Octets(c) == [c]
  {
  }

  lemma {:induction false} Scalars(s: seq<byte>) returns (cs: seq<Scalar>)
    requires Utf8(s)
    ensures AllOctets(cs) == s
    decreases |s|
  {
    hide Utf8, Octets;
    if s == [] {
      cs := [];
    } else {
      var c := FirstScalar(s);
      assert Octets(c) != [] by { SomeOctets(c); }
      var rest := Scalars(s[|Octets(c)|..]);
      cs := [c] + rest;
      assert cs[1..] == rest;
    }
  }

  lemma SomeOctets(c: Scalar)
    ensures Octets(c) != []
  {
  }

  lemma {:induction false} AllOctetsAreUtf8(cs: seq<Scalar>)
    ensures Utf8(AllOctets(cs))
  {
    hide Octets;
    if cs != [] {
      AllOctetsAreUtf8(cs[1..]);
      OctetsAreUtf8(cs[0], AllOctets(cs[1..]));
    }
  }

  /** A text is UTF-8 exactly when it spells some scalar values one after the other. */
  lemma Utf8Iff(s: seq<byte>)
    ensures Utf8(s) <==> exists cs :: AllOctets(cs) == s
  {
    hide Utf8;
    if Utf8(s) { var cs := Scalars(s); }
    if cs :| AllOctets(cs) == s { AllOctetsAreUtf8(cs); }
  }
}
