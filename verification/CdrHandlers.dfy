/** The generated CDR handlers as they run: serializers append to a shared buffer, deserializers
    advance a shared cursor, both dispatch nested types by tag. They implement `CdrCodec`. */
module CdrHandlers {
  import opened Results
  import opened Bytes
  import opened CdrPrimitives
  import opened CdrStreams
  import opened Accessors
  import opened CdrCodec
  import opened CdrRegistry
  import Fnv

  /** What a serializer did to a buffer that held `before`: appended the specified bytes, or threw
      the specified error. */
  ghost predicate Appended(spec: Result<seq<byte>>, before: seq<byte>, after: seq<byte>, r: Result<()>) {
    match spec
    case Ok(e) => r == Ok(()) && after == before + e
    case Err(x) => r == Err(x)
  }

  /** Part-way through a loop: what is still to be appended to `now` completes the whole. */
  ghost predicate Remains(whole: Result<seq<byte>>, before: seq<byte>, rest: Result<seq<byte>>, now: seq<byte>) {
    match rest
    case Ok(e) => whole.Ok? && before + whole.value == now + e
    case Err(x) => whole == rest
  }

  method Serialize(reg: CdrRegistry, ty: Ty, o: Obj, buf: ByteBuffer) returns (r: Result<()>)
    requires reg.Valid() && Closed(reg.table) && Known(reg.table, ty)
    modifies buf
    ensures Appended(Encode(reg.table, ty, o, |old(buf.data)|), old(buf.data), buf.data, r)
    decreases o, 2
  {
    hide CdrRegistry.Valid, EncodeItems, EncodeNamed, EncodePrim, EncodeLength;
    match ty
    case PrimTy(p) =>
      if !o.Leaf? || !PrimOk(p, o.v) {
        return Err(BadCast);
      }
      buf.EncodeValue(p, o.v);
      r := Ok(());
    case NamedTy(t) =>
      reg.TagDispatch(t);
      r := SerializeNamed(reg, reg.LookupByTag(Fnv.Hash(t)).value.handler, o, buf);
    case OptTy(e) =>
      if !o.OptObj? {
        return Err(BadCast);
      }
      buf.PushBack(if o.has then 1 else 0);
      if o.has {
        r := Serialize(reg, e, o.o, buf);
      } else {
        r := Ok(());
      }
    case ListTy(e, _) =>
      if !o.ListObj? {
        return Err(BadCast);
      }
      buf.EncodeSize(|o.items|);
      r := SerializeItems(reg, e, o.items, buf);
  }

  method SerializeNamed(reg: CdrRegistry, h: Handler, o: Obj, buf: ByteBuffer) returns (r: Result<()>)
    requires reg.Valid() && Closed(reg.table) && HandlerKnown(reg.table, h)
    modifies buf
    ensures Appended(EncodeNamed(reg.table, h, o, |old(buf.data)|), old(buf.data), buf.data, r)
    decreases o, 1
  {
    hide CdrRegistry.Valid, Encode, EncodeMembers, EncodeChoice, EncodeWord, Closed;
    match h
    case EnumHandler(_) =>
      if !o.EnumObj? || o.item >= U32 {
        return Err(BadCast);
      }
      buf.EncodeUint32(o.item);
      r := Ok(());
    case StructHandler(base, choice, fields) =>
      if !o.StructObj? || base.Some? != o.base.Some? {
        return Err(BadCast);
      }
      if base.Some? {
        var _ :- Serialize(reg, NamedTy(base.value), o.base.value, buf);
      }
      var _ :- SerializeChoice(reg, choice, o, buf);
      r := SerializeFields(reg, fields, o.fields, buf);
  }

  method SerializeChoice(reg: CdrRegistry, choice: Option<seq<Member>>, o: Obj, buf: ByteBuffer) returns (r: Result<()>)
    requires reg.Valid() && Closed(reg.table) && (choice.Some? ==> AllKnown(reg.table, choice.value))
    requires o.StructObj?
    modifies buf
    ensures Appended(EncodeChoice(reg.table, choice, o, |old(buf.data)|), old(buf.data), buf.data, r)
    decreases o, 0
  {
    hide CdrRegistry.Valid, Encode, EncodeWord, Closed;
    if choice.None? {
      return Ok(());
    }
    if |choice.value| != |o.variants| || o.ord >= U32 {
      return Err(BadCast);
    }
    buf.EncodeUint32(o.ord);
    if 1 <= o.ord <= |choice.value| {
      r := Serialize(reg, choice.value[o.ord - 1].ty, o.variants[o.ord - 1], buf);
    } else {
      r := Ok(());
    }
  }

  method SerializeFields(reg: CdrRegistry, ms: seq<Member>, os: seq<Obj>, buf: ByteBuffer) returns (r: Result<()>)
    requires reg.Valid() && Closed(reg.table) && AllKnown(reg.table, ms)
    modifies buf
    ensures Appended(EncodeMembers(reg.table, ms, os, |old(buf.data)|), old(buf.data), buf.data, r)
    decreases os, 0
  {
    hide CdrRegistry.Valid, Encode, EncodeMembers, Closed, Known;
    if |ms| != |os| {
      EncodeDiffers(reg.table, ms, os, |buf.data|);
      return Err(BadCast);
    }
    var i := 0;
    assert ms[0..] == ms && os[0..] == os;
    while i < |os|
      invariant 0 <= i <= |os|
      invariant reg.Valid() && reg.table == old(reg.table)
      invariant Remains(EncodeMembers(reg.table, ms, os, |old(buf.data)|), old(buf.data),
                        EncodeMembers(reg.table, ms[i..], os[i..], |buf.data|), buf.data)
    {
      NextEncoded(reg.table, ms, os, i, |buf.data|);
      var _ :- Serialize(reg, ms[i].ty, os[i], buf);
      i := i + 1;
    }
    NothingEncoded(reg.table, ms[i..], os[i..], |buf.data|);
    r := Ok(());
  }

  lemma EncodeDiffers(reg: Registry, ms: seq<Member>, os: seq<Obj>, n: nat)
    requires |ms| != |os|
    ensures EncodeMembers(reg, ms, os, n) == Err(BadCast)
  {
  }

  lemma NothingEncoded(reg: Registry, ms: seq<Member>, os: seq<Obj>, n: nat)
    requires |ms| == |os| == 0
    ensures EncodeMembers(reg, ms, os, n) == Ok([])
  {
  }

  lemma NextEncoded(reg: Registry, ms: seq<Member>, os: seq<Obj>, i: nat, n: nat)
    requires |ms| == |os| && i < |ms|
    ensures EncodeMembers(reg, ms[i..], os[i..], n) ==
      match Encode(reg, ms[i].ty, os[i], n)
      case Err(e) => Err(e)
      case Ok(a) =>
        match EncodeMembers(reg, ms[i + 1..], os[i + 1..], n + |a|)
        case Err(e) => Err(e)
        case Ok(b) => Ok(a + b)
  {
    hide Encode;
    assert ms[i..][1..] == ms[i + 1..] && os[i..][1..] == os[i + 1..];
  }

  method SerializeItems(reg: CdrRegistry, elem: Ty, os: seq<Obj>, buf: ByteBuffer) returns (r: Result<()>)
    requires reg.Valid() && Closed(reg.table) && Known(reg.table, elem)
    modifies buf
    ensures Appended(EncodeItems(reg.table, elem, os, |old(buf.data)|), old(buf.data), buf.data, r)
    decreases os, 0
  {
    hide CdrRegistry.Valid, Encode, Closed, Known;
    var i := 0;
    assert os[0..] == os;
    while i < |os|
      invariant 0 <= i <= |os|
      invariant reg.Valid() && reg.table == old(reg.table)
      invariant Remains(EncodeItems(reg.table, elem, os, |old(buf.data)|), old(buf.data),
                        EncodeItems(reg.table, elem, os[i..], |buf.data|), buf.data)
    {
      assert os[i..][1..] == os[i + 1..];
      var _ :- Serialize(reg, elem, os[i], buf);
      i := i + 1;
    }
    r := Ok(());
  }

  // -- deserialize ---------------------------------------------------------------------------

  method DeserializeAt(reg: CdrRegistry, ty: Ty, target: Obj, cur: Cursor) returns (r: Result<Obj>)
    requires reg.Valid() && Closed(reg.table) && Known(reg.table, ty)
    requires cur.off <= |cur.buf|
    modifies cur
    ensures cur.Reports(Decode(reg.table, ty, target, cur.buf, old(cur.off)), r)
    decreases |cur.buf| - cur.off, 0, target, 2
  {
    hide CdrRegistry.Valid, DecodeItems, DecodeNamed, DecodeWord, Closed;
    match ty
    case PrimTy(p) =>
      var v :- cur.DecodeValue(p);
      r := Ok(Leaf(v));
    case NamedTy(t) =>
      reg.TagDispatch(t);
      var h := reg.LookupByTag(Fnv.Hash(t)).value.handler;
      assert HandlerKnown(reg.table, h) by { HandlersKnown(reg.table, t); }
      r := DeserializeNamed(reg, h, target, cur);
    case OptTy(e) =>
      if !target.OptObj? {
        return Err(BadCast);
      }
      var present :- cur.DecodeBool();
      if present {
        var inner :- DeserializeAt(reg, e, target.o, cur);
        r := Ok(OptObj(true, inner));
      } else {
        r := Ok(target);
      }
    case ListTy(e, max) =>
      if !target.ListObj? {
        return Err(BadCast);
      }
      var cnt :- cur.DecodeUint32();
      var items :- DeserializeItems(reg, e, max, cnt, cur);
      r := Ok(ListObj(items));
  }

  lemma HandlersKnown(reg: Registry, t: Name)
    requires Closed(reg) && t in reg
    ensures HandlerKnown(reg, reg[t].handler)
  {
  }

  method DeserializeNamed(reg: CdrRegistry, h: Handler, target: Obj, cur: Cursor) returns (r: Result<Obj>)
    requires reg.Valid() && Closed(reg.table) && HandlerKnown(reg.table, h)
    requires cur.off <= |cur.buf|
    modifies cur
    ensures cur.Reports(DecodeNamed(reg.table, h, target, cur.buf, old(cur.off)), r)
    decreases |cur.buf| - cur.off, 0, target, 1
  {
    hide CdrRegistry.Valid, Decode, DecodeMembers, DecodeChoice, DecodeWord, Closed;
    match h
    case EnumHandler(_) =>
      if !target.EnumObj? {
        return Err(BadCast);
      }
      var item :- cur.DecodeUint32();
      r := Ok(EnumObj(item));
    case StructHandler(base, choice, fields) =>
      if !target.StructObj? || base.Some? != target.base.Some? {
        return Err(BadCast);
      }
      var b := None;
      if base.Some? {
        var inherited :- DeserializeAt(reg, NamedTy(base.value), target.base.value, cur);
        b := Some(inherited);
      }
      var c :- DeserializeChoice(reg, choice, target, cur);
      var fs :- DeserializeFields(reg, fields, target.fields, cur);
      r := Ok(StructObj(b, c.ord, c.variants, fs));
  }

  method DeserializeChoice(reg: CdrRegistry, choice: Option<seq<Member>>, target: Obj, cur: Cursor) returns (r: Result<Obj>)
    requires reg.Valid() && Closed(reg.table) && (choice.Some? ==> AllKnown(reg.table, choice.value))
    requires target.StructObj?
    requires cur.off <= |cur.buf|
    modifies cur
    ensures cur.Reports(DecodeChoice(reg.table, choice, target, cur.buf, old(cur.off)), r)
    ensures r.Ok? ==> r.value.StructObj?
    decreases |cur.buf| - cur.off, 0, target, 0
  {
    hide CdrRegistry.Valid, Decode, Closed;
    if choice.None? {
      return Ok(target);
    }
    if |choice.value| != |target.variants| {
      return Err(BadCast);
    }
    var ord :- cur.DecodeUint32();
    if 1 <= ord <= |choice.value| {
      var v :- DeserializeAt(reg, choice.value[ord - 1].ty, target.variants[ord - 1], cur);
      r := Ok(target.(ord := ord, variants := target.variants[ord - 1 := v]));
    } else {
      r := Ok(target);
    }
  }

  method DeserializeFields(reg: CdrRegistry, ms: seq<Member>, targets: seq<Obj>, cur: Cursor) returns (r: Result<seq<Obj>>)
    requires reg.Valid() && Closed(reg.table) && AllKnown(reg.table, ms)
    requires cur.off <= |cur.buf|
    modifies cur
    ensures cur.Reports(DecodeMembers(reg.table, ms, targets, cur.buf, old(cur.off)), r)
    decreases |cur.buf| - cur.off, 0, targets, 0
  {
    hide CdrRegistry.Valid, Decode, DecodeMembers, Closed, Known;
    if |ms| != |targets| {
      MembersDiffer(reg.table, ms, targets, cur.buf, cur.off);
      return Err(BadCast);
    }
    var i, done := 0, [];
    assert ms[0..] == ms && targets[0..] == targets;
    NothingDone(DecodeMembers(reg.table, ms, targets, cur.buf, cur.off));
    while i < |targets|
      invariant 0 <= i <= |targets|
      invariant old(cur.off) <= cur.off <= |cur.buf|
      invariant reg.Valid() && reg.table == old(reg.table)
      invariant Follows(DecodeMembers(reg.table, ms, targets, cur.buf, old(cur.off)), done,
                        DecodeMembers(reg.table, ms[i..], targets[i..], cur.buf, cur.off))
    {
      NextMember(reg.table, ms, targets, i, cur.buf, cur.off);
      var o :- DeserializeAt(reg, ms[i].ty, targets[i], cur);
      ghost var rest := DecodeMembers(reg.table, ms[i + 1..], targets[i + 1..], cur.buf, cur.off);
      assert rest.Ok? ==> done + ([o] + rest.value.0) == (done + [o]) + rest.value.0;
      done := done + [o];
      i := i + 1;
    }
    NoMember(reg.table, ms[i..], targets[i..], cur.buf, cur.off);
    assert done + [] == done;
    r := Ok(done);
  }

  lemma MembersDiffer(reg: Registry, ms: seq<Member>, targets: seq<Obj>, buf: seq<byte>, off: nat)
    requires off <= |buf| && |ms| != |targets|
    ensures DecodeMembers(reg, ms, targets, buf, off) == Err(BadCast)
  {
  }

  lemma NoMember(reg: Registry, ms: seq<Member>, targets: seq<Obj>, buf: seq<byte>, off: nat)
    requires off <= |buf| && |ms| == |targets| == 0
    ensures DecodeMembers(reg, ms, targets, buf, off) == Ok(([], off))
  {
  }

  lemma NothingDone(whole: Result<(seq<Obj>, nat)>)
    ensures Follows(whole, [], whole)
  {
    assert whole.Ok? ==> [] + whole.value.0 == whole.value.0;
  }

  lemma NextMember(reg: Registry, ms: seq<Member>, targets: seq<Obj>, i: nat, buf: seq<byte>, off: nat)
    requires off <= |buf| && |ms| == |targets| && i < |ms|
    ensures DecodeMembers(reg, ms[i..], targets[i..], buf, off) ==
      match Decode(reg, ms[i].ty, targets[i], buf, off)
      case Err(e) => Err(e)
      case Ok((o, at)) =>
        match DecodeMembers(reg, ms[i + 1..], targets[i + 1..], buf, at)
        case Err(e) => Err(e)
        case Ok((os, next)) => Ok(([o] + os, next))
  {
    hide Decode;
    assert ms[i..][1..] == ms[i + 1..] && targets[i..][1..] == targets[i + 1..];
  }

  lemma ItemsUnfold(reg: Registry, elem: Ty, max: Option<nat>, cnt: nat, size: nat, buf: seq<byte>, off: nat)
    requires off <= |buf|
    ensures cnt == 0 ==> DecodeItems(reg, elem, max, cnt, size, buf, off) == Ok(([], off))
    ensures cnt > 0 ==>
              DecodeItems(reg, elem, max, cnt, size, buf, off) ==
              match Decode(reg, elem, Fresh(reg, elem), buf, off)
              case Err(x) => Err(x)
              case Ok((o, at)) =>
                if max.Some? && size >= max.value then Err(TooMany)
                else
                  match DecodeItems(reg, elem, max, cnt - 1, size + 1, buf, at)
                  case Err(x) => Err(x)
                  case Ok((os, next)) => Ok(([o] + os, next))
  {
    hide Decode;
  }

  method DeserializeItems(reg: CdrRegistry, elem: Ty, max: Option<nat>, cnt: nat, cur: Cursor) returns (r: Result<seq<Obj>>)
    requires reg.Valid() && Closed(reg.table) && Known(reg.table, elem)
    requires cur.off <= |cur.buf|
    modifies cur
    ensures cur.Reports(DecodeItems(reg.table, elem, max, cnt, 0, cur.buf, old(cur.off)), r)
    decreases |cur.buf| - cur.off, 1, cnt
  {
    hide CdrRegistry.Valid, Decode, Closed, Known, Fresh, DecodeItems;
    var i, items := 0, [];
    while i < cnt
      invariant 0 <= i <= cnt && |items| == i
      invariant old(cur.off) <= cur.off <= |cur.buf|
      invariant reg.Valid() && reg.table == old(reg.table)
      invariant Follows(DecodeItems(reg.table, elem, max, cnt, 0, cur.buf, old(cur.off)), items,
                        DecodeItems(reg.table, elem, max, cnt - i, i, cur.buf, cur.off))
    {
      ItemsUnfold(reg.table, elem, max, cnt - i, i, cur.buf, cur.off);
      var item := Fresh(reg.table, elem);
      item :- DeserializeAt(reg, elem, item, cur);
      if max.Some? && |items| >= max.value {
        return Err(TooMany);
      }
      items := items + [item];
      i := i + 1;
    }
    ItemsUnfold(reg.table, elem, max, 0, i, cur.buf, cur.off);
    assert items + [] == items;
    r := Ok(items);
  }

  /** Part-way through a loop: the objects decoded so far and those still to come make the whole. */
  ghost predicate Follows(whole: Result<(seq<Obj>, nat)>, done: seq<Obj>, rest: Result<(seq<Obj>, nat)>) {
    match rest
    case Ok((os, next)) => whole.Ok? && whole.value.0 == done + os && whole.value.1 == next
    case Err(_) => whole == rest
  }
}
