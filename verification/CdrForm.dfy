/** The transfer form as a relation between an object and a stretch of a buffer: which bytes stand
    at which offsets. The serializers write exactly this form, and the deserializers take it, and
    whatever else they tolerate, for what the relations say. */
module CdrForm {
  import opened Results
  import opened Bytes
  import opened CdrPrimitives
  import opened Accessors
  import opened CdrCodec
  import CdrRoundTrip
  import Uuid

  // -- words ---------------------------------------------------------------------------------------

  /** A word of `w` bytes that ends at `end`, the least multiple of `w` from `off` on having been
      skipped to. */
  predicate Aligned(buf: seq<byte>, off: nat, end: nat, w: nat)
    requires w > 0
  {
    off + w <= end <= |buf| && (end - w) % w == 0 && end - w - off < w
  }

  /** `n` without its low `i` bytes, rounded down. */
  function Above(n: int, i: nat): int {
    n / Span(i)
  }

  /** The last `w` bytes before `end` are the digits of `n`, the most significant first; those of a
      negative number are its two's complement. */
  predicate Digits(buf: seq<byte>, end: nat, w: nat, n: int)
    requires w <= end <= |buf|
  {
    forall i :: end - w <= i < end ==> buf[i] as int == Above(n, end - 1 - i) % 256
  }

  predicate ZerosBetween(buf: seq<byte>, from: nat, to: nat)
    requires to <= |buf|
  {
    forall i :: from <= i < to ==> buf[i] == 0
  }

  predicate Word(buf: seq<byte>, off: nat, end: nat, w: nat, n: int)
    requires w > 0
  {
    Aligned(buf, off, end, w) && ZerosBetween(buf, off, end - w) && Digits(buf, end, w, n)
  }

  lemma DivDiv(n: int, b: nat)
    requires b > 0
    ensures n / 256 / b == n / (256 * b)
  {
    var q, r := n / 256, n % 256;
    var q', r' := q / b, q % b;
    assert n == 256 * (b * q' + r') + r;
    assert (256 * b) * q' == 256 * (b * q');
    QuotientIs(n, 256 * b, q', 256 * r' + r);
  }

  lemma QuotientIs(n: int, d: nat, q: int, r: nat)
    requires d > 0 && n == d * q + r && r < d
    ensures n / d == q && n % d == r
  {
    var k := n / d - q;
    assert n == d * (n / d) + n % d;
    assert d * k == r - n % d by { assert d * k == d * (n / d) - d * q; }
    assert k >= 1 ==> d * k >= d;
    assert k <= -1 ==> d * k + d <= 0;
  }

  lemma AboveZero(n: int)
    ensures Above(n, 0) == n
  {
  }

  lemma AboveNext(n: int, i: nat)
    requires i > 0
    ensures Above(n / 256, i - 1) == Above(n, i)
  {
    DivDiv(n, Span(i - 1));
  }

  lemma {:induction false} BigEndianDigit(v: nat, w: nat, k: nat)
    requires k < w
    ensures BigEndian(v, w)[k] as int == Above(v, w - 1 - k) % 256
  {
    hide Above;
    if k == w - 1 {
      AboveZero(v);
    } else {
      BigEndianDigit(v / 256, w - 1, k);
      AboveNext(v, w - 1 - k);
      assert BigEndian(v, w)[k] == BigEndian(v / 256, w - 1)[k];
    }
  }

  /** Adding the number of values of a word changes none of its digits. */
  lemma {:induction false} SameDigit(n: int, w: nat, i: nat)
    requires i < w
    ensures Above(n + Span(w), i) % 256 == Above(n, i) % 256
    decreases w
  {
    hide Above, Span;
    var m := n + Span(w);
    SpanNext(w);
    AddMultiple(n, Span(w - 1));
    if i == 0 {
      AboveZero(n);
      AboveZero(m);
    } else {
      AboveNext(n, i);
      AboveNext(m, i);
      SameDigit(n / 256, w - 1, i - 1);
    }
  }

  lemma SpanNext(w: nat)
    requires w > 0
    ensures Span(w) == 256 * Span(w - 1)
  {
  }

  lemma AddMultiple(n: int, k: int)
    ensures (n + 256 * k) / 256 == n / 256 + k && (n + 256 * k) % 256 == n % 256
  {
    QuotientIs(n + 256 * k, 256, n / 256 + k, n % 256);
  }

  /** A stretch of bytes is a big-endian string exactly when it has the digits. */
  lemma DigitsIff(buf: seq<byte>, end: nat, w: nat, u: nat)
    requires w <= end <= |buf|
    ensures Digits(buf, end, w, u) <==> buf[end - w..end] == BigEndian(u, w)
  {
    hide BigEndian, Above;
    var s, t := buf[end - w..end], BigEndian(u, w);
    forall k | 0 <= k < w
      ensures s[k] == buf[end - w + k] && t[k] as int == Above(u, w - 1 - k) % 256
    {
      BigEndianDigit(u, w, k);
    }
    if s == t {
      forall i | end - w <= i < end
        ensures buf[i] as int == Above(u, end - 1 - i) % 256
      {
        assert s[i - (end - w)] == t[i - (end - w)];
      }
    }
  }

  /** The digits of a number are those of its two's complement. */
  lemma TwosComplement(buf: seq<byte>, end: nat, w: nat, n: int)
    requires w <= end <= |buf|
    ensures Digits(buf, end, w, n) <==> Digits(buf, end, w, n + Span(w))
  {
    hide Above;
    forall i: nat | i < w
      ensures Above(n + Span(w), i) % 256 == Above(n, i) % 256
    {
      SameDigit(n, w, i);
    }
  }

  lemma AlignedIff(buf: seq<byte>, off: nat, end: nat, w: nat)
    requires NaturalSize(w)
    ensures Aligned(buf, off, end, w) <==> end == off + Pad(off, w) + w && end <= |buf|
  {
    if Aligned(buf, off, end, w) {
      var p, q := end - w - off, Pad(off, w);
      LeastMultiple(off, p, q, w);
    }
  }

  lemma LeastMultiple(n: nat, p: nat, q: nat, w: nat)
    requires NaturalSize(w) && p < w && q < w && (n + p) % w == 0 && (n + q) % w == 0
    ensures p == q
  {
  }

  lemma AtZeros(buf: seq<byte>, off: nat, k: nat)
    requires off + k <= |buf|
    ensures At(buf, off, Zeros(k)) <==> ZerosBetween(buf, off, off + k)
  {
    var s := buf[off..off + k];
    assert forall i :: 0 <= i < k ==> s[i] == buf[off + i];
    if ZerosBetween(buf, off, off + k) { assert s == Zeros(k); }
    if At(buf, off, Zeros(k)) {
      forall i | off <= i < off + k
        ensures buf[i] == 0
      {
        assert s[i - off] == buf[i] && s[i - off] == 0;
      }
    }
  }

  /** What the encoders of words append. */
  lemma WordIff(buf: seq<byte>, off: nat, end: nat, u: nat, w: nat)
    requires NaturalSize(w)
    ensures Word(buf, off, end, w, u) <==> At(buf, off, EncodeWord(u, w, off)) && end == off + |EncodeWord(u, w, off)|
  {
    hide BigEndian, Pad, Digits;
    var pad := Pad(off, w);
    AlignedIff(buf, off, end, w);
    AtSplit(buf, off, Zeros(pad), BigEndian(u, w));
    if end == off + pad + w && end <= |buf| {
      AtZeros(buf, off, pad);
      DigitsIff(buf, end, w, u);
    }
  }

  // -- what serializers write ------------------------------------------------------------------------

  /** A length with the terminator, the characters, a zero. */
  predicate TextForm(s: seq<byte>, buf: seq<byte>, off: nat, end: nat) {
    && off + |s| < end <= |buf|
    && Word(buf, off, end - 1 - |s|, 4, |s| + 1)
    && buf[end - 1 - |s|..end - 1] == s
    && buf[end - 1] == 0
  }

  predicate PrimForm(p: PrimType, v: PrimVal, buf: seq<byte>, off: nat, end: nat) {
    match p
    case PBool => v.BoolV? && end == off + 1 <= |buf| && buf[off] == if v.b then 1 else 0
    case PInt(w, _) => v.NumV? && Word(buf, off, end, w.Size(), v.n)
    case PFloat(w) => v.NumV? && Word(buf, off, end, w.Size(), v.n)
    case PString => v.TextV? && TextForm(v.s, buf, off, end)
    case PBytes =>
      && v.TextV?
      && off + |v.s| <= end <= |buf|
      && Word(buf, off, end - |v.s|, 4, |v.s|)
      && buf[end - |v.s|..end] == v.s
    case PUuid => v.UuidV? && TextForm(Uuid.ToText(v.o), buf, off, end)
  }

  /** The bytes of `buf` from `off` to `end` are the transfer form of `o`. */
  ghost predicate Form(reg: Registry, ty: Ty, o: Obj, buf: seq<byte>, off: nat, end: nat)
    decreases o, 1
  {
    match ty
    case PrimTy(p) => o.Leaf? && PrimForm(p, o.v, buf, off, end)
    case OptTy(e) =>
      && o.OptObj?
      && off < end <= |buf|
      && if o.has then buf[off] == 1 && Form(reg, e, o.o, buf, off + 1, end) else buf[off] == 0 && end == off + 1
    case ListTy(e, _) =>
      o.ListObj? && exists at: nat :: Word(buf, off, at, 4, |o.items|) && ItemsForm(reg, e, o.items, buf, at, end)
    case NamedTy(t) =>
      t in reg &&
      match reg[t].handler
      case EnumHandler(_) => o.EnumObj? && Word(buf, off, end, 4, o.item)
      case StructHandler(base, choice, fields) =>
        && o.StructObj? && o.base.Some? == base.Some?
        && exists a: nat, b: nat ::
          && (if base.Some? then Form(reg, NamedTy(base.value), o.base.value, buf, off, a) else a == off)
          && ChoiceForm(reg, choice, o, buf, a, b)
          && MembersForm(reg, fields, o.fields, buf, b, end)
  }

  /** The ordinal, then the chosen variant. */
  ghost predicate ChoiceForm(reg: Registry, choice: Option<seq<Member>>, o: Obj, buf: seq<byte>, off: nat, end: nat)
    requires o.StructObj?
    decreases o, 0
  {
    match choice
    case None => end == off <= |buf|
    case Some(vs) =>
      && |vs| == |o.variants|
      && exists at: nat ::
        && Word(buf, off, at, 4, o.ord)
        && if 1 <= o.ord <= |vs| then Form(reg, vs[o.ord - 1].ty, o.variants[o.ord - 1], buf, at, end) else end == at
  }

  /** One member after the other. */
  ghost predicate MembersForm(reg: Registry, ms: seq<Member>, os: seq<Obj>, buf: seq<byte>, off: nat, end: nat)
    decreases os, 0
  {
    && |ms| == |os|
    && if os == [] then end == off <= |buf|
       else exists at: nat :: Form(reg, ms[0].ty, os[0], buf, off, at) && MembersForm(reg, ms[1..], os[1..], buf, at, end)
  }

  ghost predicate ItemsForm(reg: Registry, elem: Ty, os: seq<Obj>, buf: seq<byte>, off: nat, end: nat)
    decreases os, 0
  {
    if os == [] then end == off <= |buf|
    else exists at: nat :: Form(reg, elem, os[0], buf, off, at) && ItemsForm(reg, elem, os[1..], buf, at, end)
  }

  /** `e` stands at `off` and ends at `end`. */
  ghost predicate Stands(e: seq<byte>, buf: seq<byte>, off: nat, end: nat) {
    end == off + |e| && At(buf, off, e)
  }

  lemma StandsSplit(a: seq<byte>, b: seq<byte>, buf: seq<byte>, off: nat, end: nat)
    ensures Stands(a + b, buf, off, end) <==> Stands(a, buf, off, off + |a|) && Stands(b, buf, off + |a|, end)
  {
    AtSplit(buf, off, a, b);
  }

  lemma StandsOne(x: byte, buf: seq<byte>, off: nat, end: nat)
    ensures Stands([x], buf, off, end) <==> end == off + 1 <= |buf| && buf[off] == x
  {
    if off + 1 <= |buf| { assert buf[off..off + 1] == [buf[off]]; }
  }

  lemma StandsAt(s: seq<byte>, buf: seq<byte>, off: nat, end: nat)
    ensures Stands(s, buf, off, end) <==> off <= end <= |buf| && end == off + |s| && buf[off..end] == s
  {
  }

  lemma WordStands(buf: seq<byte>, off: nat, end: nat, u: nat, w: nat)
    requires NaturalSize(w)
    ensures Word(buf, off, end, w, u) <==> Stands(EncodeWord(u, w, off), buf, off, end)
  {
    WordIff(buf, off, end, u, w);
  }

  /** A length word holds the length modulo 2^32. */
  lemma LengthStands(buf: seq<byte>, off: nat, end: nat, len: nat)
    ensures Word(buf, off, end, 4, len) <==> Stands(EncodeLength(len, off), buf, off, end)
  {
    hide Word, EncodeWord;
    WordStands(buf, off, end, len % U32, 4);
    TruncatedWord(buf, off, end, len, len / U32);
  }

  lemma {:induction false} TruncatedWord(buf: seq<byte>, off: nat, end: nat, len: nat, k: nat)
    requires len >= k * U32
    ensures Word(buf, off, end, 4, len) <==> Word(buf, off, end, 4, len - k * U32)
  {
    hide Digits, Above;
    if k > 0 {
      SpanFour();
      TruncatedWord(buf, off, end, len, k - 1);
      if 4 <= end <= |buf| { TwosComplement(buf, end, 4, len - k * U32); }
    }
  }

  lemma TextIff(s: seq<byte>, buf: seq<byte>, off: nat, end: nat)
    ensures TextForm(s, buf, off, end) <==> Stands(EncodeText(s, off), buf, off, end)
  {
    hide Word, EncodeLength;
    var len := EncodeLength(|s| + 1, off);
    var at := off + |len|;
    assert EncodeText(s, off) == len + (s + [0]);
    StandsSplit(len, s + [0], buf, off, end);
    StandsSplit(s, [0], buf, at, end);
    StandsAt(s, buf, at, at + |s|);
    StandsOne(0, buf, at + |s|, end);
    LengthStands(buf, off, at, |s| + 1);
    if end >= 1 + |s| { LengthStands(buf, off, end - 1 - |s|, |s| + 1); }
  }

  lemma PrimFormIff(p: PrimType, v: PrimVal, buf: seq<byte>, off: nat, end: nat)
    requires PrimOk(p, v)
    ensures PrimForm(p, v, buf, off, end) <==> Stands(EncodePrim(p, v, off), buf, off, end)
  {
    hide Word, EncodeWord, TextForm, EncodeText, Span, Stands;
    match p
    case PBool => StandsOne(if v.b then 1 else 0, buf, off, end);
    case PInt(w, _) =>
      WordStands(buf, off, end, ToUnsigned(v.n, w.Size()), w.Size());
      SignedWord(buf, off, end, w.Size(), v.n);
    case PFloat(w) => WordStands(buf, off, end, v.n, w.Size());
    case PString => TextIff(v.s, buf, off, end);
    case PBytes =>
      var len := EncodeLength(|v.s|, off);
      var at := off + |len|;
      StandsSplit(len, v.s, buf, off, end);
      StandsAt(v.s, buf, at, end);
      LengthStands(buf, off, at, |v.s|);
      if end >= |v.s| { LengthStands(buf, off, end - |v.s|, |v.s|); }
      StandsEnd(len, buf, off, at);
      if end >= |v.s| { StandsEnd(len, buf, off, end - |v.s|); }
    case PUuid => TextIff(Uuid.ToText(v.o), buf, off, end);
  }

  lemma StandsEnd(e: seq<byte>, buf: seq<byte>, off: nat, end: nat)
    ensures Stands(e, buf, off, end) ==> end == off + |e| <= |buf|
  {
  }

  lemma SignedWord(buf: seq<byte>, off: nat, end: nat, w: nat, n: int)
    requires w > 0 && (n >= 0 ==> n < Span(w)) && (n < 0 ==> n + Span(w) >= 0)
    ensures Word(buf, off, end, w, n) <==> Word(buf, off, end, w, ToUnsigned(n, w))
  {
    hide Digits;
    if w <= end <= |buf| { TwosComplement(buf, end, w, n); }
  }

  // -- serializers write this form -------------------------------------------------------------------

  /** What serializing appends is, wherever it stands, the transfer form; and no other stretch of
      bytes is. */
  lemma {:induction false} FormIff(reg: Registry, ty: Ty, o: Obj, buf: seq<byte>, off: nat, end: nat)
    requires WellTyped(reg, ty, o)
    ensures Form(reg, ty, o, buf, off, end) <==> Encode(reg, ty, o, off).Ok? && Stands(Encode(reg, ty, o, off).value, buf, off, end)
    decreases o, 2
  {
    hide Stands, Word, PrimForm, PrimOk, EncodePrim, EncodeLength, EncodeNamed, EncodeItems, ItemsForm, MembersForm, ChoiceForm;
    CdrRoundTrip.EncodeSucceeds(reg, ty, o, off);
    match ty
    case PrimTy(p) => PrimFormIff(p, o.v, buf, off, end);
    case OptTy(e) =>
      StandsOne(if o.has then 1 else 0, buf, off, off + 1);
      StandsOne(0, buf, off, end);
      if o.has {
        CdrRoundTrip.EncodeSucceeds(reg, e, o.o, off + 1);
        StandsSplit([1], Encode(reg, e, o.o, off + 1).value, buf, off, end);
        FormIff(reg, e, o.o, buf, off + 1, end);
        StandsEnd(Encode(reg, e, o.o, off + 1).value, buf, off + 1, end);
      }
    case ListTy(e, _) =>
      var len := EncodeLength(|o.items|, off);
      var at := off + |len|;
      CdrRoundTrip.EncodeItemsSucceeds(reg, e, o.items, at);
      StandsSplit(len, EncodeItems(reg, e, o.items, at).value, buf, off, end);
      forall at': nat
        ensures Word(buf, off, at', 4, |o.items|) <==> Stands(len, buf, off, at')
        ensures Stands(len, buf, off, at') ==> at' == at
      {
        LengthStands(buf, off, at', |o.items|);
        StandsEnd(len, buf, off, at');
      }
      ItemsFormIff(reg, e, o.items, buf, at, end);
    case NamedTy(t) => NamedFormIff(reg, t, o, buf, off, end);
  }

  lemma {:induction false} NamedFormIff(reg: Registry, t: Name, o: Obj, buf: seq<byte>, off: nat, end: nat)
    requires WellTyped(reg, NamedTy(t), o)
    ensures Form(reg, NamedTy(t), o, buf, off, end) <==>
      EncodeNamed(reg, reg[t].handler, o, off).Ok? && Stands(EncodeNamed(reg, reg[t].handler, o, off).value, buf, off, end)
    decreases o, 1
  {
    hide Stands, Word, Encode, EncodeMembers, EncodeChoice, EncodeWord, MembersForm, ChoiceForm;
    match reg[t].handler
    case EnumHandler(_) => WordStands(buf, off, end, o.item, 4);
    case StructHandler(base, choice, fields) =>
      var x := [];
      if base.Some? {
        CdrRoundTrip.EncodeSucceeds(reg, NamedTy(base.value), o.base.value, off);
        x := Encode(reg, NamedTy(base.value), o.base.value, off).value;
      }
      var a := off + |x|;
      ChoiceSucceeds(reg, choice, o, a);
      var y := EncodeChoice(reg, choice, o, a).value;
      var b := a + |y|;
      CdrRoundTrip.EncodeMembersSucceeds(reg, fields, o.fields, b);
      var z := EncodeMembers(reg, fields, o.fields, b).value;
      assert EncodeNamed(reg, reg[t].handler, o, off) == Ok(x + y + z);
      StandsSplit(x + y, z, buf, off, end);
      StandsSplit(x, y, buf, off, b);
      forall a': nat
        ensures (if base.Some? then Form(reg, NamedTy(base.value), o.base.value, buf, off, a') else a' == off) ==> a' == a
        ensures base.Some? ==> (Form(reg, NamedTy(base.value), o.base.value, buf, off, a') <==> Stands(x, buf, off, a'))
      {
        if base.Some? {
          FormIff(reg, NamedTy(base.value), o.base.value, buf, off, a');
          StandsEnd(x, buf, off, a');
        }
      }
      if base.None? { StandsNothing(buf, off, off); }
      forall b': nat
        ensures ChoiceForm(reg, choice, o, buf, a, b') <==> Stands(y, buf, a, b')
        ensures Stands(y, buf, a, b') ==> b' == b
      {
        ChoiceFormIff(reg, choice, o, buf, a, b');
        StandsEnd(y, buf, a, b');
      }
      MembersFormIff(reg, fields, o.fields, buf, b, end);
      StandsEnd(z, buf, b, end);
      StandsEnd(y, buf, a, b);
      if Stands(x + y + z, buf, off, end) {
        assert ChoiceForm(reg, choice, o, buf, a, b) && MembersForm(reg, fields, o.fields, buf, b, end);
      }
  }

  lemma StandsNothing(buf: seq<byte>, off: nat, end: nat)
    ensures Stands([], buf, off, end) <==> end == off <= |buf|
  {
  }

  lemma ChoiceSucceeds(reg: Registry, choice: Option<seq<Member>>, o: Obj, n: nat)
    requires o.StructObj? && ChoiceTyped(reg, choice, o)
    ensures EncodeChoice(reg, choice, o, n).Ok?
  {
    hide Encode, WellTyped;
    if choice.Some? && 1 <= o.ord {
      CdrRoundTrip.EncodeSucceeds(reg, choice.value[o.ord - 1].ty, o.variants[o.ord - 1], n + |EncodeWord(o.ord, 4, n)|);
    }
  }

  lemma {:induction false} ChoiceFormIff(reg: Registry, choice: Option<seq<Member>>, o: Obj, buf: seq<byte>, off: nat, end: nat)
    requires o.StructObj? && ChoiceTyped(reg, choice, o)
    ensures ChoiceForm(reg, choice, o, buf, off, end) <==>
      EncodeChoice(reg, choice, o, off).Ok? && Stands(EncodeChoice(reg, choice, o, off).value, buf, off, end)
    decreases o, 0
  {
    hide Stands, Word, Encode, EncodeWord, WellTyped, Form;
    ChoiceSucceeds(reg, choice, o, off);
    if choice.Some? {
      var ord := EncodeWord(o.ord, 4, off);
      var at := off + |ord|;
      forall at': nat
        ensures Word(buf, off, at', 4, o.ord) <==> Stands(ord, buf, off, at')
        ensures Stands(ord, buf, off, at') ==> at' == at
      {
        WordStands(buf, off, at', o.ord, 4);
        StandsEnd(ord, buf, off, at');
      }
      StandsEnd(ord, buf, off, end);
      if o.ord >= 1 {
        var ty, v := choice.value[o.ord - 1].ty, o.variants[o.ord - 1];
        CdrRoundTrip.EncodeSucceeds(reg, ty, v, at);
        StandsSplit(ord, Encode(reg, ty, v, at).value, buf, off, end);
        FormIff(reg, ty, v, buf, at, end);
      }
    } else {
      StandsNothing(buf, off, end);
    }
  }

  lemma {:induction false} MembersFormIff(reg: Registry, ms: seq<Member>, os: seq<Obj>, buf: seq<byte>, off: nat, end: nat)
    requires MembersTyped(reg, ms, os)
    ensures MembersForm(reg, ms, os, buf, off, end) <==>
      EncodeMembers(reg, ms, os, off).Ok? && Stands(EncodeMembers(reg, ms, os, off).value, buf, off, end)
    decreases os, 0
  {
    hide Stands, Encode, WellTyped, Form;
    CdrRoundTrip.EncodeMembersSucceeds(reg, ms, os, off);
    if os == [] {
      StandsNothing(buf, off, end);
    } else {
      CdrRoundTrip.EncodeSucceeds(reg, ms[0].ty, os[0], off);
      var a := Encode(reg, ms[0].ty, os[0], off).value;
      var at := off + |a|;
      CdrRoundTrip.EncodeMembersSucceeds(reg, ms[1..], os[1..], at);
      StandsSplit(a, EncodeMembers(reg, ms[1..], os[1..], at).value, buf, off, end);
      forall at': nat
        ensures Form(reg, ms[0].ty, os[0], buf, off, at') <==> Stands(a, buf, off, at')
        ensures Stands(a, buf, off, at') ==> at' == at
      {
        FormIff(reg, ms[0].ty, os[0], buf, off, at');
        StandsEnd(a, buf, off, at');
      }
      MembersFormIff(reg, ms[1..], os[1..], buf, at, end);
    }
  }

  lemma {:induction false} ItemsFormIff(reg: Registry, elem: Ty, os: seq<Obj>, buf: seq<byte>, off: nat, end: nat)
    requires ItemsTyped(reg, elem, os)
    ensures ItemsForm(reg, elem, os, buf, off, end) <==>
      EncodeItems(reg, elem, os, off).Ok? && Stands(EncodeItems(reg, elem, os, off).value, buf, off, end)
    decreases os, 0
  {
    hide Stands, Encode, WellTyped, Form;
    CdrRoundTrip.EncodeItemsSucceeds(reg, elem, os, off);
    if os == [] {
      StandsNothing(buf, off, end);
    } else {
      CdrRoundTrip.EncodeSucceeds(reg, elem, os[0], off);
      var a := Encode(reg, elem, os[0], off).value;
      var at := off + |a|;
      CdrRoundTrip.EncodeItemsSucceeds(reg, elem, os[1..], at);
      StandsSplit(a, EncodeItems(reg, elem, os[1..], at).value, buf, off, end);
      forall at': nat
        ensures Form(reg, elem, os[0], buf, off, at') <==> Stands(a, buf, off, at')
        ensures Stands(a, buf, off, at') ==> at' == at
      {
        FormIff(reg, elem, os[0], buf, off, at');
        StandsEnd(a, buf, off, at');
      }
      ItemsFormIff(reg, elem, os[1..], buf, at, end);
    }
  }
}
