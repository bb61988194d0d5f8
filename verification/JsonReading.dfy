/** What reading JSON does, as a relation between a target, a tree and what the target becomes; and
    the documents that are refused: without a required member, or with two variants of a choice. */
module JsonReading {
  import opened Results
  import opened Bytes
  import opened CdrPrimitives
  import opened Accessors
  import opened JsonText
  import opened JsonCodec
  import CdrCodec
  import CdrLaws
  import CdrReading
  import Fnv
  import JsonDocuments
  import opened SchemaSubset
  import HexText
  import SchemaShape
  import Uuid

  // -- values -----------------------------------------------------------------------------------

  /** A value of each primitive type; a signed target takes a number less 2^64 for itself. */
  predicate PrimRead(p: PrimType, v: PrimVal, j: Json) {
    match p
    case PBool => v.BoolV? && j == JBool(v.b)
    case PInt(w, signed) =>
      v.NumV? && InRange(w, signed, v.n) && (j == JNum(v.n) || (signed && j == JNum(v.n + 0x1_0000_0000_0000_0000)))
    case PFloat(_) => false
    case PString => v.TextV? && j == JStr(v.s)
    case PBytes =>
      && v.TextV? && j.JStr?
      && |j.s| == 2 * |v.s|
      && forall i :: 0 <= i < |v.s| ==> HexText.DenotesPair(j.s[2 * i], j.s[2 * i + 1], v.s[i])
    case PUuid => v.UuidV? && j.JStr? && Uuid.FromText(j.s) == Some(v.o)
  }

  /** An item is read by its name; of items with one name the first counts, and before them all
      comes `enumNotSet`. */
  predicate ItemRead(values: seq<Name>, item: nat, j: Json) {
    && j.JStr?
    && (if item == 0 then j.s == Ascii("enumNotSet") else item <= |values| && j.s == values[item - 1])
    && (item > 0 ==> j.s != Ascii("enumNotSet"))
    && forall k :: 0 <= k < item - 1 ==> k < |values| && values[k] != j.s
  }

  lemma PrimReadIff(p: PrimType, v: PrimVal, j: Json)
    ensures PrimRead(p, v, j) <==> ParsePrim(p, j) == Ok(v)
  {
    hide HexBytes, Uuid.FromText, HexText.DenotesPair, Span;
    match p
    case PInt(w, _) => EvenSpan(w);
    case PBytes =>
      if v.TextV? && j.JStr? { HexText.HexBytesIff(j.s, v.s); }
    case _ =>
  }

  lemma NotSetIsAscii()
    ensures NOT_SET == Ascii("enumNotSet") && INVALID == Ascii("invalid")
  {
  }

  lemma ItemReadIff(values: seq<Name>, item: nat, j: Json)
    ensures ItemRead(values, item, j) <==> j.JStr? && ItemOf(values, j.s) == Some(item)
  {
    hide NOT_SET, INVALID;
    NotSetIsAscii();
    if j.JStr? {
      var names := [NOT_SET] + values;
      ItemFromFirst(names, j.s, 0);
      var r := ItemOf(values, j.s);
      if ItemRead(values, item, j) {
        assert names[item] == j.s;
      }
      if r == Some(item) {
        assert forall k :: 0 <= k < item ==> names[0..item][k] == names[k];
        assert forall k :: 0 <= k < item - 1 ==> names[k + 1] == values[k];
      }
    }
  }

  // -- members ---------------------------------------------------------------------------------------

  predicate NoneNamed(all: seq<Field>, name: Name) {
    forall i :: 0 <= i < |all| ==> all[i].name != name
  }

  /** Of members with one name the last counts. */
  predicate LastNamed(all: seq<Field>, name: Name, i: nat) {
    i < |all| && all[i].name == name && forall k :: i < k < |all| ==> all[k].name != name
  }

  lemma {:induction false} FindIff(all: seq<Field>, name: Name)
    ensures Find(all, name).None? <==> NoneNamed(all, name)
    ensures forall i: nat :: Find(all, name) == Some(i) <==> LastNamed(all, name, i)
  {
    if all != [] && all[|all| - 1].name != name { FindIff(all[..|all| - 1], name); }
  }

  // -- objects -----------------------------------------------------------------------------------------

  /** Reading the tree `j` into `target` makes it `r`. */
  ghost predicate Reads(reg: Registry, ty: Ty, target: Obj, r: Obj, j: Json)
    decreases r, 2
  {
    match ty
    case PrimTy(p) => r.Leaf? && PrimRead(p, r.v, j)
    case OptTy(e) => target.OptObj? && r.OptObj? && r.has && Reads(reg, e, target.o, r.o, j)
    case ListTy(e, max) =>
      && j.JArr? && r.ListObj?
      && |r.items| == |j.items|
      && (max.Some? ==> |r.items| <= max.value)
      && forall i :: 0 <= i < |r.items| ==> Reads(reg, e, Fresh(reg, e), r.items[i], j.items[i])
    case NamedTy(t) =>
      t in reg &&
      match reg[t].handler
      case EnumHandler(values) => r.EnumObj? && ItemRead(values, r.item, j)
      case StructHandler(_, _, _) => j.JObj? && FieldsRead(reg, t, target, r, j.members)
  }

  /** The members of a structure, inherited ones too, are looked up by name among all members of
      the document. */
  ghost predicate FieldsRead(reg: Registry, t: Name, target: Obj, r: Obj, all: seq<Field>)
    decreases r, 1
  {
    && t in reg && reg[t].handler.StructHandler?
    && target.StructObj? && r.StructObj?
    && var StructHandler(base, choice, fields) := reg[t].handler;
    && base.Some? == target.base.Some? == r.base.Some?
    && (base.Some? ==> FieldsRead(reg, base.value, target.base.value, r.base.value, all))
    && (choice.Some? ==> ChoiceRead(reg, choice.value, target, r, all))
    && (choice.None? ==> r.ord == target.ord && r.variants == target.variants)
    && |fields| == |target.fields| == |r.fields|
    && forall i :: 0 <= i < |fields| ==> MemberRead(reg, fields[i], target.fields[i], r.fields[i], all)
  }

  /** What stands under the name, or nothing if the member is optional: then it is cleared. */
  ghost predicate MemberRead(reg: Registry, m: Member, target: Obj, r: Obj, all: seq<Field>)
    decreases r, 3
  {
    if NoneNamed(all, m.name) then m.ty.OptTy? && target.OptObj? && r == target.(has := false)
    else exists i: nat :: LastNamed(all, m.name, i) && Reads(reg, m.ty, target, r, all[i].value)
  }

  /** No variant is named, and the choice stays as it was; or one is, and is chosen. */
  ghost predicate ChoiceRead(reg: Registry, vs: seq<Member>, target: Obj, r: Obj, all: seq<Field>)
    requires target.StructObj? && r.StructObj?
    decreases r, 0
  {
    && |vs| == |target.variants| == |r.variants|
    && (forall k, l :: 0 <= k < l < |vs| ==> NoneNamed(all, vs[k].name) || NoneNamed(all, vs[l].name))
    && ((forall k :: 0 <= k < |vs| ==> NoneNamed(all, vs[k].name)) ==> r.ord == target.ord && r.variants == target.variants)
    && forall k :: 0 <= k < |vs| && !NoneNamed(all, vs[k].name) ==>
         && r.ord == k + 1
         && (forall l :: 0 <= l < |vs| && l != k ==> r.variants[l] == target.variants[l])
         && exists i: nat :: LastNamed(all, vs[k].name, i) && Reads(reg, vs[k].ty, target.variants[k], r.variants[k], all[i].value)
  }

  /** Into any target, reading a tree succeeds with an object exactly when the relation holds. */
  lemma {:induction false} ReadsIff(reg: Registry, ty: Ty, target: Obj, r: Obj, j: Json)
    ensures Reads(reg, ty, target, r, j) <==> FromJson(reg, ty, target, j) == Ok(r)
    decreases r, 3
  {
    hide PrimRead, ParsePrim, ItemRead, ItemOf, FieldsRead, FromFields, FromItems;
    match ty
    case PrimTy(p) => if r.Leaf? { PrimReadIff(p, r.v, j); }
    case OptTy(e) => if r.OptObj? && target.OptObj? { ReadsIff(reg, e, target.o, r.o, j); }
    case ListTy(e, max) =>
      if r.ListObj? && j.JArr? { ListReadIff(reg, e, max, target, r, j); }
    case NamedTy(t) =>
      if t in reg { NamedReadIff(reg, t, target, r, j); }
  }

  lemma {:induction false} NamedReadIff(reg: Registry, t: Name, target: Obj, r: Obj, j: Json)
    requires t in reg
    ensures Reads(reg, NamedTy(t), target, r, j) <==> FromJson(reg, NamedTy(t), target, j) == Ok(r)
    decreases r, 2
  {
    hide ItemRead, ItemOf, FieldsRead, FromFields;
    match reg[t].handler
    case EnumHandler(values) => if r.EnumObj? { ItemReadIff(values, r.item, j); }
    case StructHandler(_, _, _) => if j.JObj? { FieldsReadIff(reg, t, target, r, j.members); }
  }

  lemma {:induction false} ListReadIff(reg: Registry, e: Ty, max: Option<nat>, target: Obj, r: Obj, j: Json)
    requires r.ListObj? && j.JArr?
    ensures Reads(reg, ListTy(e, max), target, r, j) <==> FromJson(reg, ListTy(e, max), target, j) == Ok(r)
    decreases r, 2
  {
    hide FromItems;
    ItemsReadIff(reg, e, max, 0, r.items, j.items);
  }

  lemma {:induction false} ItemsReadIff(reg: Registry, elem: Ty, max: Option<nat>, size: nat, rs: seq<Obj>, js: seq<Json>)
    ensures FromItems(reg, elem, max, js, size) == Ok(rs) <==>
      && |rs| == |js| && (max.Some? && rs != [] ==> size + |rs| <= max.value)
      && forall i :: 0 <= i < |rs| ==> Reads(reg, elem, Fresh(reg, elem), rs[i], js[i])
    decreases rs, 2
  {
    hide Reads, FromJson, Fresh;
    if rs != [] && |rs| == |js| {
      ReadsIff(reg, elem, Fresh(reg, elem), rs[0], js[0]);
      ItemsReadIff(reg, elem, max, size + 1, rs[1..], js[1..]);
      FirstAndRest(rs, FromJson(reg, elem, Fresh(reg, elem), js[0]), FromItems(reg, elem, max, js[1..], size + 1));
      assert forall i :: 1 <= i < |rs| ==> rs[i] == rs[1..][i - 1] && js[i] == js[1..][i - 1];
      assert forall i :: 0 <= i < |rs| - 1 ==> rs[1..][i] == rs[i + 1] && js[1..][i] == js[i + 1];
    }
  }

  lemma FirstAndRest(rs: seq<Obj>, x: Result<Obj>, tail: Result<seq<Obj>>)
    requires rs != []
    ensures x.Ok? && tail.Ok? ==> ([x.value] + tail.value == rs <==> x.value == rs[0] && tail.value == rs[1..])
  {
    if x.Ok? && tail.Ok? && [x.value] + tail.value == rs {
      assert rs[1..] == tail.value && rs[0] == x.value;
    }
    assert rs == [rs[0]] + rs[1..];
  }

  lemma {:induction false} FieldsReadIff(reg: Registry, t: Name, target: Obj, r: Obj, all: seq<Field>)
    ensures FieldsRead(reg, t, target, r, all) <==> FromFields(reg, t, target, all) == Ok(r)
    decreases r, 1
  {
    hide FromJson, FromVariants, FromMembers, ChoiceRead, MemberRead;
    if t in reg && reg[t].handler.StructHandler? && target.StructObj? && r.StructObj? {
      var StructHandler(base, choice, fields) := reg[t].handler;
      if base.Some? == target.base.Some? == r.base.Some? {
        if base.Some? { FieldsReadIff(reg, base.value, target.base.value, r.base.value, all); }
        if choice.Some? { ChoiceReadIff(reg, choice.value, target, r, all); }
        MembersReadIff(reg, fields, target.fields, r.fields, all);
      }
    }
  }

  lemma {:induction false} MembersReadIff(reg: Registry, ms: seq<Member>, targets: seq<Obj>, rs: seq<Obj>, all: seq<Field>)
    ensures FromMembers(reg, ms, targets, all) == Ok(rs) <==>
      |ms| == |targets| == |rs| && forall i :: 0 <= i < |ms| ==> MemberRead(reg, ms[i], targets[i], rs[i], all)
    decreases rs, 4
  {
    hide FromMember, MemberRead;
    if rs != [] && |ms| == |targets| == |rs| {
      MemberReadIff(reg, ms[0], targets[0], rs[0], all);
      MembersReadIff(reg, ms[1..], targets[1..], rs[1..], all);
      FirstAndRest(rs, FromMember(reg, ms[0], targets[0], all), FromMembers(reg, ms[1..], targets[1..], all));
      assert forall i :: 1 <= i < |rs| ==> rs[i] == rs[1..][i - 1] && ms[i] == ms[1..][i - 1] && targets[i] == targets[1..][i - 1];
      assert forall i :: 0 <= i < |rs| - 1 ==> rs[1..][i] == rs[i + 1] && ms[1..][i] == ms[i + 1] && targets[1..][i] == targets[i + 1];
    }
  }

  lemma {:induction false} MemberReadIff(reg: Registry, m: Member, target: Obj, r: Obj, all: seq<Field>)
    ensures MemberRead(reg, m, target, r, all) <==> FromMember(reg, m, target, all) == Ok(r)
    decreases r, 4
  {
    hide Reads, FromJson, Find, NoneNamed, LastNamed;
    FindIff(all, m.name);
    var i := Find(all, m.name);
    if i.Some? { ReadsIff(reg, m.ty, target, r, all[i.value].value); }
  }

  lemma {:induction false} SkipTo(reg: Registry, vs: seq<Member>, k: nat, m: nat, target: Obj, matched: nat, all: seq<Field>)
    requires target.StructObj? && k <= m <= |vs| == |target.variants|
    requires forall l :: k <= l < m ==> NoneNamed(all, vs[l].name)
    ensures FromVariants(reg, vs, k, target, matched, all) == FromVariants(reg, vs, m, target, matched, all)
    decreases m - k
  {
    hide FromJson, NoneNamed, Find;
    if k < m {
      FindIff(all, vs[k].name);
      SkipTo(reg, vs, k + 1, m, target, matched, all);
    }
  }

  lemma {:induction false} ManyFail(reg: Registry, vs: seq<Member>, k: nat, target: Obj, matched: nat, all: seq<Field>)
    requires target.StructObj? && k <= |vs| && matched > 1
    ensures FromVariants(reg, vs, k, target, matched, all).Err?
    decreases |vs| - k
  {
    hide FromJson, Find;
    if k < |vs| == |target.variants| {
      match Find(all, vs[k].name)
      case None => ManyFail(reg, vs, k + 1, target, matched, all);
      case Some(i) =>
        var v := FromJson(reg, vs[k].ty, target.variants[k], all[i].value);
        if v.Ok? {
          ManyFail(reg, vs, k + 1, target.(ord := k + 1, variants := target.variants[k := v.value]), matched + 1, all);
        }
    }
  }

  lemma NextNamed(vs: seq<Member>, k: nat, all: seq<Field>) returns (m: nat)
    requires k <= |vs|
    ensures k <= m <= |vs| && (forall l :: k <= l < m ==> NoneNamed(all, vs[l].name))
    ensures m < |vs| ==> !NoneNamed(all, vs[m].name)
  {
    m := k;
    while m < |vs| && NoneNamed(all, vs[m].name)
      invariant k <= m <= |vs| && forall l :: k <= l < m ==> NoneNamed(all, vs[l].name)
    {
      m := m + 1;
    }
  }

  lemma VariantFound(reg: Registry, vs: seq<Member>, k: nat, target: Obj, matched: nat, all: seq<Field>) returns (i: nat)
    requires target.StructObj? && k < |vs| == |target.variants| && !NoneNamed(all, vs[k].name)
    ensures LastNamed(all, vs[k].name, i) && forall i': nat :: LastNamed(all, vs[k].name, i') ==> i' == i
    ensures FromVariants(reg, vs, k, target, matched, all) ==
      match FromJson(reg, vs[k].ty, target.variants[k], all[i].value)
      case Err(e) => Err(e)
      case Ok(v) => FromVariants(reg, vs, k + 1, target.(ord := k + 1, variants := target.variants[k := v]), matched + 1, all)
  {
    hide FromJson, NoneNamed, LastNamed, Find;
    FindIff(all, vs[k].name);
    i := Find(all, vs[k].name).value;
  }

  lemma SecondFails(reg: Registry, vs: seq<Member>, m: nat, target: Obj, all: seq<Field>)
    requires target.StructObj? && m < |vs| == |target.variants| && !NoneNamed(all, vs[m].name)
    ensures FromVariants(reg, vs, m, target, 1, all).Err?
  {
    hide FromJson, NoneNamed, FromVariants;
    var i := VariantFound(reg, vs, m, target, 1, all);
    var v := FromJson(reg, vs[m].ty, target.variants[m], all[i].value);
    if v.Ok? {
      ManyFail(reg, vs, m + 1, target.(ord := m + 1, variants := target.variants[m := v.value]), 2, all);
    }
  }

  lemma {:induction false} ChoiceReadIff(reg: Registry, vs: seq<Member>, target: Obj, r: Obj, all: seq<Field>)
    requires target.StructObj? && r.StructObj?
    ensures ChoiceRead(reg, vs, target, r, all) <==>
      var c := FromVariants(reg, vs, 0, target, 0, all); c.Ok? && c.value.ord == r.ord && c.value.variants == r.variants
    decreases r, 0
  {
    hide Reads, FromJson, NoneNamed, FromVariants;
    if |vs| != |target.variants| {
      WrongCount(reg, vs, target, all);
    } else {
      var k := NextNamed(vs, 0, all);
      SkipTo(reg, vs, 0, k, target, 0, all);
      if k == |vs| {
        AllLooked(reg, vs, target, 0, all);
      } else {
        var i := VariantFound(reg, vs, k, target, 0, all);
        var v := FromJson(reg, vs[k].ty, target.variants[k], all[i].value);
        if |r.variants| == |vs| { ReadsIff(reg, vs[k].ty, target.variants[k], r.variants[k], all[i].value); }
        if v.Ok? {
          var chosen := target.(ord := k + 1, variants := target.variants[k := v.value]);
          var m := NextNamed(vs, k + 1, all);
          SkipTo(reg, vs, k + 1, m, chosen, 1, all);
          if m < |vs| {
            SecondFails(reg, vs, m, chosen, all);
          } else {
            AllLooked(reg, vs, chosen, 1, all);
          }
        }
      }
    }
  }

  lemma WrongCount(reg: Registry, vs: seq<Member>, target: Obj, all: seq<Field>)
    requires target.StructObj? && |vs| != |target.variants|
    ensures FromVariants(reg, vs, 0, target, 0, all).Err?
  {
  }

  lemma AllLooked(reg: Registry, vs: seq<Member>, target: Obj, matched: nat, all: seq<Field>)
    requires target.StructObj? && |vs| == |target.variants| && matched <= 1
    ensures FromVariants(reg, vs, |vs|, target, matched, all) == Ok(target)
  {
  }

  // -- documents that are refused -----------------------------------------------------------------------

  /** `u` is `t` or a type it inherits from. */
  predicate Ancestor(reg: Registry, t: Name, steps: nat, u: Name)
    decreases steps
  {
    if steps == 0 then t == u
    else t in reg && reg[t].handler.StructHandler? && reg[t].handler.base.Some? && Ancestor(reg, reg[t].handler.base.value, steps - 1, u)
  }

  /** What an inherited structure demands of the document is demanded of every document of the type. */
  lemma {:induction false} AncestorRead(reg: Registry, t: Name, steps: nat, u: Name, target: Obj, r: Obj, all: seq<Field>)
    returns (target': Obj, r': Obj)
    requires Ancestor(reg, t, steps, u) && FieldsRead(reg, t, target, r, all)
    ensures FieldsRead(reg, u, target', r', all)
    decreases steps
  {
    if steps == 0 {
      target', r' := target, r;
    } else {
      target', r' := AncestorRead(reg, reg[t].handler.base.value, steps - 1, u, target.base.value, r.base.value, all);
    }
  }

  /** The type or one it inherits from has a member of that name that may not be left out. */
  ghost predicate Requires(reg: Registry, t: Name, name: Name) {
    exists steps: nat, u, i: nat ::
      && Ancestor(reg, t, steps, u) && u in reg && reg[u].handler.StructHandler?
      && i < |reg[u].handler.fields| && reg[u].handler.fields[i].name == name && !reg[u].handler.fields[i].ty.OptTy?
  }

  /** The document has members for two variants of one choice, of the type or of one it inherits from. */
  ghost predicate TwoVariants(reg: Registry, t: Name, all: seq<Field>) {
    exists steps: nat, u, k: nat, l: nat ::
      && Ancestor(reg, t, steps, u) && u in reg && reg[u].handler.StructHandler? && reg[u].handler.choice.Some?
      && k < l < |reg[u].handler.choice.value|
      && !NoneNamed(all, reg[u].handler.choice.value[k].name) && !NoneNamed(all, reg[u].handler.choice.value[l].name)
  }

  /** For every registry, type, target and document: without a member that the type, or one it
      inherits from, requires, reading fails; and so it does with two variants of a choice. */
  lemma MissingOrAmbiguousFails(reg: Registry, t: Name, target: Obj, j: Json, name: Name)
    requires t in reg && reg[t].handler.StructHandler? && j.JObj?
    ensures Requires(reg, t, name) && NoneNamed(j.members, name) ==> FromJson(reg, NamedTy(t), target, j).Err?
    ensures TwoVariants(reg, t, j.members) ==> FromJson(reg, NamedTy(t), target, j).Err?
  {
    hide NoneNamed, FromJson, FieldsRead, Ancestor, MemberRead, ChoiceRead;
    var all, o := j.members, FromJson(reg, NamedTy(t), target, j);
    if o.Ok? {
      ReadsIff(reg, NamedTy(t), target, o.value, j);
      if Requires(reg, t, name) && NoneNamed(all, name) {
        var steps: nat, u, i: nat :|
          && Ancestor(reg, t, steps, u) && u in reg && reg[u].handler.StructHandler?
          && i < |reg[u].handler.fields| && reg[u].handler.fields[i].name == name && !reg[u].handler.fields[i].ty.OptTy?;
        var target', r' := AncestorRead(reg, t, steps, u, target, o.value, all);
        EachMember(reg, u, target', r', all, i);
      }
      if TwoVariants(reg, t, all) {
        var steps: nat, u, k: nat, l: nat :|
          && Ancestor(reg, t, steps, u) && u in reg && reg[u].handler.StructHandler? && reg[u].handler.choice.Some?
          && k < l < |reg[u].handler.choice.value|
          && !NoneNamed(all, reg[u].handler.choice.value[k].name) && !NoneNamed(all, reg[u].handler.choice.value[l].name);
        var target', r' := AncestorRead(reg, t, steps, u, target, o.value, all);
        OneVariant(reg, u, target', r', all, k, l);
      }
    }
  }

  lemma EachMember(reg: Registry, t: Name, target: Obj, r: Obj, all: seq<Field>, i: nat)
    requires FieldsRead(reg, t, target, r, all) && i < |reg[t].handler.fields|
    ensures NoneNamed(all, reg[t].handler.fields[i].name) ==> reg[t].handler.fields[i].ty.OptTy?
  {
    assert MemberRead(reg, reg[t].handler.fields[i], target.fields[i], r.fields[i], all);
  }

  lemma OneVariant(reg: Registry, t: Name, target: Obj, r: Obj, all: seq<Field>, k: nat, l: nat)
    requires FieldsRead(reg, t, target, r, all) && reg[t].handler.choice.Some? && k < l < |reg[t].handler.choice.value|
    ensures NoneNamed(all, reg[t].handler.choice.value[k].name) || NoneNamed(all, reg[t].handler.choice.value[l].name)
  {
    assert ChoiceRead(reg, reg[t].handler.choice.value, target, r, all);
  }

  /** A text is read exactly as the one tree that all of it spells, into a new object. */
  lemma ReadTextIff(reg: Registry, t: Name, text: seq<byte>, r: Obj)
    ensures JsonDocuments.ReadText(reg, t, text) == Ok(r) <==>
      exists j :: ParseValue(text) == Ok((j, [])) && Reads(reg, NamedTy(t), Fresh(reg, NamedTy(t)), r, j)
  {
    hide ParseValue, Reads, FromJson, Fresh;
    if ParseValue(text).Ok? {
      ReadsIff(reg, NamedTy(t), Fresh(reg, NamedTy(t)), r, ParseValue(text).value.0);
    }
  }

  /** The message that a payload decodes to, into a new object. */
  ghost predicate Decodes(reg: Registry, t: Name, data: seq<byte>, o: Obj) {
    WellTyped(reg, NamedTy(t), o) && exists end: nat :: CdrReading.Reads(reg, NamedTy(t), Fresh(reg, NamedTy(t)), o, data, 0, end)
  }

  lemma DecodesIff(reg: Registry, t: Name, data: seq<byte>, o: Obj)
    requires WellFormed(reg) && t in reg
    ensures Decodes(reg, t, data, o) <==>
      var r := CdrCodec.Decode(reg, NamedTy(t), Fresh(reg, NamedTy(t)), data, 0); r.Ok? && r.value.0 == o
  {
    hide CdrCodec.Decode, CdrReading.Reads, WellTyped, WellFormed;
    var ty := NamedTy(t);
    var target := Fresh(reg, ty);
    FreshTyped(reg, ty);
    forall end: nat
      ensures CdrReading.Reads(reg, ty, target, o, data, 0, end) <==> CdrCodec.Decode(reg, ty, target, data, 0) == Ok((o, end))
    {
      CdrReading.ReadsIff(reg, ty, target, o, data, 0, end);
    }
    var r := CdrCodec.Decode(reg, ty, target, data, 0);
    if r.Ok? {
      CdrLaws.DecodeTyped(reg, ty, target, data, 0);
      if r.value.0 == o { assert CdrReading.Reads(reg, ty, target, o, data, 0, r.value.1); }
    }
  }

  /** What is delivered for a payload: nothing unless its tag is known and it decodes; else the name
      of the type and the JSON of what it decodes to. */
  lemma PublishedIff(reg: Registry, types: map<Fnv.Tag, Name>, tag: Fnv.Tag, data: seq<byte>, t: Name, text: seq<byte>)
    requires WellFormed(reg) && types.Values <= reg.Keys
    ensures JsonDocuments.PublishDecoded(reg, types, tag, data) == Some((t, text)) <==>
      tag in types && types[tag] == t && exists o :: Decodes(reg, t, data, o) && text == Print(ToJson(reg, NamedTy(t), o))
  {
    hide CdrCodec.Decode, Decodes, Print, ToJson, WellTyped;
    if tag in types && types[tag] == t {
      assert t in types.Values;
      FreshTyped(reg, NamedTy(t));
      forall o
        ensures Decodes(reg, t, data, o) <==>
          var r := CdrCodec.Decode(reg, NamedTy(t), Fresh(reg, NamedTy(t)), data, 0); r.Ok? && r.value.0 == o
      {
        DecodesIff(reg, t, data, o);
      }
      var r := CdrCodec.Decode(reg, NamedTy(t), Fresh(reg, NamedTy(t)), data, 0);
      if r.Ok? {
        CdrLaws.DecodeTyped(reg, NamedTy(t), Fresh(reg, NamedTy(t)), data, 0);
        assert Decodes(reg, t, data, r.value.0);
      }
    }
  }

  /** The same of texts, and of the documents that a schema describes: an element that the schema
      requires must be there. */
  lemma TextMissingFails(reg: Registry, t: Name, text: seq<byte>, ms: seq<Field>, name: Name)
    requires t in reg && reg[t].handler.StructHandler? && ParseValue(text) == Ok((JObj(ms), []))
    ensures Requires(reg, t, name) && NoneNamed(ms, name) ==> JsonDocuments.ReadText(reg, t, text).Err?
    ensures TwoVariants(reg, t, ms) ==> JsonDocuments.ReadText(reg, t, text).Err?
  {
    hide ParseValue, Requires, TwoVariants, NoneNamed;
    MissingOrAmbiguousFails(reg, t, Fresh(reg, NamedTy(t)), JObj(ms), name);
  }

  lemma SchemaRequires(s: Schema, n: Name, i: nat)
    requires Compiles(s) && n in s.types && s.types[n].ComplexModel? && i < |s.types[n].fields|
    ensures SchemaShape.MayBeAbsent(s, s.types[n].fields[i]) || Requires(Generate(s), n, s.types[n].fields[i].name)
  {
    hide Compiles, Generate, SchemaShape.MayBeAbsent, SchemaShape.StandsFor;
    SchemaShape.GeneratedShape(s, n);
    assert SchemaShape.FieldShape(s, s.types[n].fields[i], Generate(s)[n].handler.fields[i]);
    assert Ancestor(Generate(s), n, 0, n);
  }
}
