/** The generated JSON serializers as they run: every emitter appends to one output string, and
    the comma before a member depends on a flag that is threaded through base types. */
module JsonWriter {
  import opened Results
  import opened Bytes
  import opened CdrPrimitives
  import opened Accessors
  import opened JsonText
  import opened JsonCodec
  import opened JsonRoundTrip
  import Uuid

  // -- pieces of text ----------------------------------------------------------------------------

  /** What writing some members appends; `first` says that nothing comes before them. */
  function Separated(first: bool, ms: seq<Field>): seq<byte> {
    if ms == [] then [] else (if first then [] else [44]) + PrintMembers(ms)
  }

  lemma {:induction false} PrintMembersConcat(a: seq<Field>, b: seq<Field>)
    requires a != [] && b != []
    ensures PrintMembers(a + b) == PrintMembers(a) + [44] + PrintMembers(b)
    decreases |a|
  {
    hide Quote, Print;
    var head := Quote(a[0].name) + [58] + Print(a[0].value);
    var x, y := PrintMembers(a[1..]), PrintMembers(b);
    assert (a + b)[1..] == a[1..] + b && (a + b)[0] == a[0] && |a + b| > 1;
    if |a| == 1 {
      assert a[1..] + b == b;
      assert PrintMembers(a) == head + [] + x && x == [];
      assert PrintMembers(a + b) == head + [44] + y;
    } else {
      PrintMembersConcat(a[1..], b);
      assert PrintMembers(a + b) == head + [44] + (x + [44] + y);
      assert head + [44] + (x + [44] + y) == head + [44] + x + [44] + y;
      assert PrintMembers(a) == head + [44] + x;
    }
  }

  /** Members written one after another, the flag threaded through. */
  lemma SeparatedConcat(first: bool, a: seq<Field>, b: seq<Field>)
    ensures Separated(first, a + b) == Separated(first, a) + Separated(first && a == [], b)
  {
    hide PrintMembers;
    if a == [] {
      assert a + b == b;
    } else if b == [] {
      assert a + b == a;
    } else {
      PrintMembersConcat(a, b);
    }
  }

  lemma {:induction false} PresentConcat(a: seq<Slot>, b: seq<Slot>)
    ensures Present(a + b) == Present(a) + Present(b)
    decreases |b|
  {
    if b == [] {
      assert a + b == a;
    } else {
      assert (a + b)[..|a + b| - 1] == a + b[..|b| - 1];
      PresentConcat(a, b[..|b| - 1]);
    }
  }

  lemma PresentSnoc(slots: seq<Slot>, i: nat)
    requires i < |slots|
    ensures Present(slots[..i + 1]) ==
      Present(slots[..i]) + if slots[i].value.Some? then [Field(slots[i].name, slots[i].value.value)] else []
  {
    assert slots[..i + 1][..i] == slots[..i];
  }

  lemma {:induction false} PrintItemsSnoc(js: seq<Json>, j: Json)
    ensures PrintItems(js + [j]) == PrintItems(js) + (if js == [] then [] else [44]) + Print(j)
    decreases |js|
  {
    hide Print;
    if js == [] {
      assert js + [j] == [j] && [j][1..] == [];
    } else {
      assert (js + [j])[1..] == js[1..] + [j];
      PrintItemsSnoc(js[1..], j);
      if |js| == 1 {
        assert js[1..] == [];
      }
      var x := PrintItems(js[1..]) + (if |js| > 1 then [44] else []) + Print(j);
      assert Print(js[0]) + [44] + x == Print(js[0]) + (if |js| > 1 then [44] else []) + PrintItems(js[1..]) + [44] + Print(j);
    }
  }

  lemma OneMember(first: bool, name: Name, v: Json)
    ensures Separated(first, [Field(name, v)]) == (if first then [] else [44]) + Quote(name) + [58] + Print(v)
  {
    hide Quote, Print;
    var f := [Field(name, v)];
    assert f[1..] == [];
    assert PrintMembers(f) == Quote(name) + [58] + Print(v) + [] + [];
  }

  lemma {:induction false} FieldSlotAt(reg: Registry, ms: seq<Member>, os: seq<Obj>, i: nat)
    requires MembersTyped(reg, ms, os) && i < |ms|
    ensures FieldSlots(reg, ms, os)[i] ==
      Slot(ms[i].name, if ms[i].ty.OptTy? && !os[i].has then None else Some(ToJson(reg, ms[i].ty, os[i])))
    decreases os
  {
    hide ToJson;
    if i > 0 { FieldSlotAt(reg, ms[1..], os[1..], i - 1); }
  }

  lemma {:induction false} ItemJsonAt(reg: Registry, elem: Ty, os: seq<Obj>, i: nat)
    requires ItemsTyped(reg, elem, os) && i < |os|
    ensures ItemsJson(reg, elem, os)[i] == ToJson(reg, elem, os[i])
    decreases os
  {
    hide ToJson;
    if i > 0 { ItemJsonAt(reg, elem, os[1..], i - 1); }
  }

  lemma KeyText(text: seq<byte>, comma: seq<byte>, name: Name)
    requires SafeName(name)
    ensures text + comma + [34] + name + [34, 58] == text + (comma + Quote(name) + [58])
  {
    PlainUnescaped(name);
    assert Quote(name) == [34] + name + [34];
    assert text + comma + [34] + name + [34, 58] == text + (comma + ([34] + name + [34]) + [58]);
  }

  // -- emitters ------------------------------------------------------------------------------------

  class Output {
    var text: seq<byte>

    constructor ()
      ensures text == []
    {
      text := [];
    }

    method Append(s: seq<byte>)
      modifies this
      ensures text == old(text) + s
    {
      text := text + s;
    }

    /** `emit_key`: the name goes out as it is. */
    method EmitKey(name: Name, first: bool) returns (next: bool)
      requires SafeName(name)
      modifies this
      ensures text == old(text) + ((if first then [] else [44]) + Quote(name) + [58]) && !next
    {
      hide Quote;
      KeyText(text, if first then [] else [44], name);
      if first {
        assert text + [] == text;
      } else {
        Append([44]);
      }
      next := false;
      Append([34]);
      Append(name);
      Append([34, 58]);
    }

    method EmitChar(c: byte)
      modifies this
      ensures text == old(text) + Escape(c)
    {
      if c == 34 {
        Append([92, 34]);
      } else if c == 92 {
        Append([92, 92]);
      } else if c == 8 {
        Append([92, 98]);
      } else if c == 12 {
        Append([92, 102]);
      } else if c == 10 {
        Append([92, 110]);
      } else if c == 13 {
        Append([92, 114]);
      } else if c == 9 {
        Append([92, 116]);
      } else if c < 32 {
        Append([92, 117, 48, 48, Uuid.HexDigit(c / 16), Uuid.HexDigit(c % 16)]);
      } else {
        Append([c]);
      }
    }

    method EmitString(s: seq<byte>)
      modifies this
      ensures text == old(text) + Quote(s)
    {
      hide Escape;
      Append([34]);
      for i := 0 to |s|
        invariant text == old(text) + ([34] + EscapeAll(s[..i]))
      {
        assert s[..i + 1][..i] == s[..i];
        EmitChar(s[i]);
        assert EscapeAll(s[..i + 1]) == EscapeAll(s[..i]) + Escape(s[i]);
      }
      assert s[..|s|] == s;
      Append([34]);
    }

    method EmitBytes(s: seq<byte>)
      modifies this
      ensures text == old(text) + Quote(HexText(s))
    {
      Append([34]);
      for i := 0 to |s|
        invariant text == old(text) + ([34] + HexText(s[..i]))
      {
        assert s[..i + 1][..i] == s[..i];
        Append([Uuid.HexDigit(s[i] / 16)]);
        Append([Uuid.HexDigit(s[i] % 16)]);
        assert HexText(s[..i + 1]) == HexText(s[..i]) + ([Uuid.HexDigit(s[i] / 16)] + [Uuid.HexDigit(s[i] % 16)]);
      }
      assert s[..|s|] == s;
      Append([34]);
      HexComesBack(s);
      HexIsPlain(s);
      PlainUnescaped(HexText(s));
    }

    method EmitPrim(p: PrimType, v: PrimVal)
      requires PrimOk(p, v) && !p.PFloat?
      modifies this
      ensures text == old(text) + Print(PrimJson(p, v))
    {
      match p
      case PBool => Append(if v.b then [116, 114, 117, 101] else [102, 97, 108, 115, 101]);
      case PInt(_, _) => Append(PrintInt(v.n));
      case PString => EmitString(v.s);
      case PBytes => EmitBytes(v.s);
      case PUuid =>
        var s := Uuid.ToString(v.o);
        EmitString(s);
    }

    // -- generated serializers --------------------------------------------------------------------

    /** `T_serialize`, and the inline emission of primitives. */
    method Serialize(reg: Registry, ty: Ty, o: Obj)
      requires JsonWritable(reg) && Simple(ty) && WellTyped(reg, ty, o) && NoFloats(reg, ty, o)
      modifies this
      ensures text == old(text) + Print(ToJson(reg, ty, o))
      decreases o, 3
    {
      hide JsonWritable, PrimJson, PrintMembers, Slots, Present, WellFormed, FlatNames;
      match ty
      case PrimTy(p) => EmitPrim(p, o.v);
      case NamedTy(t) =>
        match reg[t].handler {
          case EnumHandler(values) => EmitString(ItemName(values, o.item));
          case StructHandler(_, _, _) =>
            Append([123]);
            var _ := SerializeFields(reg, t, o, true);
            Append([125]);
            SeparatedFirst(Present(Slots(reg, t, o)));
        }
    }

    /** `T_serialize_fields`: base, choice and members, without braces. */
    method SerializeFields(reg: Registry, t: Name, o: Obj, first: bool) returns (next: bool)
      requires JsonWritable(reg) && WellTyped(reg, NamedTy(t), o) && reg[t].handler.StructHandler? && NoFloats(reg, NamedTy(t), o)
      modifies this
      ensures text == old(text) + Separated(first, Present(Slots(reg, t, o)))
      ensures next == (first && Present(Slots(reg, t, o)) == [])
      decreases o, 2
    {
      hide PrintMembers, Present, VariantSlots, FieldSlots, ToJson, FlatNames, Separated, Every;
      var StructHandler(base, choice, fields) := reg[t].handler;
      assert JsonHandler(reg, reg[t].handler);
      StructEvery(reg, t, o, NotFloat);
      ghost var a, b, c := [], [], FieldSlots(reg, fields, o.fields);
      next := first;
      NothingWritten(first);
      if base.Some? {
        next := SerializeFields(reg, base.value, o.base.value, next);
        a := Slots(reg, base.value, o.base.value);
      }
      assert text == old(text) + Separated(first, Present(a)) && next == (first && Present(a) == []);
      if choice.Some? {
        next := SerializeChoice(reg, choice.value, o, next);
        b := VariantSlots(reg, choice.value, o.variants, o.ord);
      }
      PresentConcat(a, b);
      SeparatedConcat(first, Present(a), Present(b));
      NothingWritten(first && Present(a) == []);
      assert text == old(text) + Separated(first, Present(a + b)) && next == (first && Present(a + b) == []);
      next := SerializeMembers(reg, fields, o.fields, next);
      assert Slots(reg, t, o) == a + b + c;
      PresentConcat(a + b, c);
      SeparatedConcat(first, Present(a + b), Present(c));
    }

    method SerializeChoice(reg: Registry, vs: seq<Member>, o: Obj, first: bool) returns (next: bool)
      requires JsonWritable(reg) && o.StructObj? && MembersTyped(reg, vs, o.variants)
      requires SafeMembers(vs) && forall i :: 0 <= i < |vs| ==> Simple(vs[i].ty)
      requires 1 <= o.ord <= |vs| ==> NoFloats(reg, vs[o.ord - 1].ty, o.variants[o.ord - 1])
      modifies this
      ensures text == old(text) + Separated(first, Present(VariantSlots(reg, vs, o.variants, o.ord)))
      ensures next == (first && Present(VariantSlots(reg, vs, o.variants, o.ord)) == [])
      decreases o, 1
    {
      hide PrintMembers, Present, VariantSlots, ToJson, JsonWritable, Quote, Print, SafeName, Separated, WellTyped, Every;
      ghost var slots := VariantSlots(reg, vs, o.variants, o.ord);
      next := first;
      NothingWritten(first);
      for i := 0 to |vs|
        invariant text == old(text) + Separated(first, Present(slots[..i]))
        invariant next == (first && Present(slots[..i]) == [])
      {
        VariantSlotAt(reg, vs, o.variants, o.ord, i);
        PresentSnoc(slots, i);
        if o.ord == i + 1 {
          ghost var f := Field(vs[i].name, ToJson(reg, vs[i].ty, o.variants[i]));
          SeparatedConcat(first, Present(slots[..i]), [f]);
          OneMember(next, f.name, f.value);
          next := EmitKey(vs[i].name, next);
          Serialize(reg, vs[i].ty, o.variants[i]);
        } else {
          assert Present(slots[..i]) + [] == Present(slots[..i]);
        }
      }
      assert slots[..|vs|] == slots;
    }

    method SerializeMembers(reg: Registry, ms: seq<Member>, os: seq<Obj>, first: bool) returns (next: bool)
      requires JsonWritable(reg) && MembersTyped(reg, ms, os) && SafeMembers(ms) && MembersEvery(reg, ms, os, NotFloat)
      modifies this
      ensures text == old(text) + Separated(first, Present(FieldSlots(reg, ms, os)))
      ensures next == (first && Present(FieldSlots(reg, ms, os)) == [])
      decreases os, 1
    {
      hide PrintMembers, Present, FieldSlots, ToJson, JsonWritable, Quote, Print, SafeName, Separated, Every;
      ghost var slots := FieldSlots(reg, ms, os);
      next := first;
      NothingWritten(first);
      for i := 0 to |ms|
        invariant text == old(text) + Separated(first, Present(slots[..i]))
        invariant next == (first && Present(slots[..i]) == [])
      {
        FieldSlotAt(reg, ms, os, i);
        PresentSnoc(slots, i);
        if ms[i].ty.OptTy? && !os[i].has {
          assert Present(slots[..i]) + [] == Present(slots[..i]);
        } else {
          ghost var f := Field(ms[i].name, ToJson(reg, ms[i].ty, os[i]));
          SeparatedConcat(first, Present(slots[..i]), [f]);
          OneMember(next, f.name, f.value);
          next := EmitKey(ms[i].name, next);
          SerializeValue(reg, ms[i].ty, os[i]);
        }
      }
      assert slots[..|ms|] == slots;
    }

    /** The value of a member that is written. */
    method SerializeValue(reg: Registry, ty: Ty, o: Obj)
      requires JsonWritable(reg) && MemberTy(ty) && WellTyped(reg, ty, o) && (ty.OptTy? ==> o.has) && NoFloats(reg, ty, o)
      modifies this
      ensures text == old(text) + Print(ToJson(reg, ty, o))
      decreases o, 4
    {
      hide JsonWritable;
      match ty
      case OptTy(e) => Serialize(reg, e, o.o);
      case ListTy(e, _) => SerializeList(reg, e, o.items);
      case _ => Serialize(reg, ty, o);
    }

    method SerializeList(reg: Registry, elem: Ty, os: seq<Obj>)
      requires JsonWritable(reg) && Simple(elem) && ItemsTyped(reg, elem, os) && ItemsEvery(reg, elem, os, NotFloat)
      modifies this
      ensures text == old(text) + ([91] + PrintItems(ItemsJson(reg, elem, os)) + [93])
      decreases os, 4
    {
      hide PrintItems, ToJson, JsonWritable, Print, ItemsJson, Simple, Every;
      ghost var js := ItemsJson(reg, elem, os);
      Append([91]);
      var first := true;
      NoItems();
      for i := 0 to |os|
        invariant text == old(text) + ([91] + PrintItems(js[..i])) && first == (i == 0)
      {
        if !first {
          Append([44]);
        }
        first := false;
        ItemJsonAt(reg, elem, os, i);
        assert js[..i + 1] == js[..i] + [js[i]];
        PrintItemsSnoc(js[..i], js[i]);
        Serialize(reg, elem, os[i]);
      }
      assert js[..|os|] == js;
      Append([93]);
    }
  }

  lemma NothingWritten(first: bool)
    ensures Separated(first, []) == [] && Present([]) == []
    ensures forall s: seq<byte> :: s + [] == s
  {
  }

  lemma NoItems()
    ensures PrintItems([]) == []
  {
  }

  lemma SeparatedFirst(ms: seq<Field>)
    ensures Separated(true, ms) == PrintMembers(ms)
  {
  }

  lemma {:induction false} HexIsPlain(s: seq<byte>)
    ensures forall i :: 0 <= i < |HexText(s)| ==> HexText(s)[i] >= 32 && HexText(s)[i] != 34 && HexText(s)[i] != 92
  {
    if s != [] {
      HexIsPlain(s[..|s| - 1]);
      Uuid.NibbleHexDigit(s[|s| - 1] / 16);
      Uuid.NibbleHexDigit(s[|s| - 1] % 16);
    }
  }
}
