/** JSON trees, the text the writer spells them with, and a reference reader for that text.

    The reader accepts sections 4 to 7 of RFC 8259 without insignificant white space, without
    fractions and exponents, and with `\u` escapes for ASCII only: all that the writer uses. Like
    the library behind `JsonExternalizer::read` it insists on UTF-8 (section 8.1). */
module JsonText {
  import opened Results
  import opened Bytes
  import Uuid

  datatype Json =
    | JNull
    | JBool(b: bool)
    | JNum(n: int)
    | JStr(s: seq<byte>)
    | JArr(items: seq<Json>)
    | JObj(members: seq<Field>)

  datatype Field = Field(name: seq<byte>, value: Json)

  // -- strings ---------------------------------------------------------------------------------

  predicate Tail(c: byte) {
    0x80 <= c <= 0xBF
  }

  /** Well-formed UTF-8 (section 4 of RFC 3629). */
  predicate Utf8(s: seq<byte>) {
    s == []
    || (s[0] < 0x80 && Utf8(s[1..]))
    || (|s| >= 2 && 0xC2 <= s[0] <= 0xDF && Tail(s[1]) && Utf8(s[2..]))
    || (|s| >= 3 && 0xE0 <= s[0] <= 0xEF && Tail(s[1]) && Tail(s[2])
        && (s[0] == 0xE0 ==> 0xA0 <= s[1]) && (s[0] == 0xED ==> s[1] <= 0x9F) && Utf8(s[3..]))
    || (|s| >= 4 && 0xF0 <= s[0] <= 0xF4 && Tail(s[1]) && Tail(s[2]) && Tail(s[3])
        && (s[0] == 0xF0 ==> 0x90 <= s[1]) && (s[0] == 0xF4 ==> s[1] <= 0x8F) && Utf8(s[4..]))
  }

  lemma {:induction false} AsciiIsUtf8(s: seq<byte>)
    requires forall i :: 0 <= i < |s| ==> s[i] < 0x80
    ensures Utf8(s)
  {
    if s != [] { AsciiIsUtf8(s[1..]); }
  }

  /** What `emit_string` appends for one character. */
  function Escape(c: byte): seq<byte> {
    if c == 34 then [92, 34]
    else if c == 92 then [92, 92]
    else if c == 8 then [92, 98]
    else if c == 12 then [92, 102]
    else if c == 10 then [92, 110]
    else if c == 13 then [92, 114]
    else if c == 9 then [92, 116]
    else if c < 32 then [92, 117, 48, 48, Uuid.HexDigit(c / 16), Uuid.HexDigit(c % 16)]
    else [c]
  }

  function EscapeAll(s: seq<byte>): seq<byte> {
    if s == [] then [] else EscapeAll(s[..|s| - 1]) + Escape(s[|s| - 1])
  }

  function Quote(s: seq<byte>): seq<byte> {
    [34] + EscapeAll(s) + [34]
  }

  /** The character a backslash and the next character stand for. */
  function Escaped(c: byte): Option<byte> {
    if c == 34 || c == 92 || c == 47 then Some(c)
    else if c == 98 then Some(8)
    else if c == 102 then Some(12)
    else if c == 110 then Some(10)
    else if c == 114 then Some(13)
    else if c == 116 then Some(9)
    else None
  }

  /** The byte two hexadecimal digits denote. */
  function HexPair(hi: byte, lo: byte): Option<byte> {
    match (Uuid.Nibble(hi), Uuid.Nibble(lo))
    case (Some(h), Some(l)) => Some(16 * h + l)
    case _ => None
  }

  /** The characters up to the closing quote, and what follows it. */
  function Unescape(s: seq<byte>): (r: Result<(seq<byte>, seq<byte>)>)
    ensures r.Ok? ==> |r.value.1| < |s|
  {
    if s == [] || s[0] < 32 then Err(BadJson)
    else if s[0] == 34 then Ok(([], s[1..]))
    else if s[0] != 92 then
      var (t, rest) :- Unescape(s[1..]);
      Ok(([s[0]] + t, rest))
    else if |s| >= 2 && Escaped(s[1]).Some? then
      var (t, rest) :- Unescape(s[2..]);
      Ok(([Escaped(s[1]).value] + t, rest))
    else if |s| >= 6 && s[1] == 117 && s[2] == 48 && s[3] == 48 && HexPair(s[4], s[5]).Some? && HexPair(s[4], s[5]).value < 0x80 then
      var (t, rest) :- Unescape(s[6..]);
      Ok(([HexPair(s[4], s[5]).value] + t, rest))
    else Err(BadJson)
  }

  function ParseString(s: seq<byte>): (r: Result<(seq<byte>, seq<byte>)>)
    ensures r.Ok? ==> |r.value.1| < |s|
  {
    var (t, rest) :- Unescape(s);
    if Utf8(t) then Ok((t, rest)) else Err(BadJson)
  }

  lemma {:induction false} EscapeFirst(s: seq<byte>)
    requires s != []
    ensures EscapeAll(s) == Escape(s[0]) + EscapeAll(s[1..])
  {
    hide Escape;
    var front, last := s[..|s| - 1], Escape(s[|s| - 1]);
    if |s| > 1 {
      EscapeFirst(front);
      assert front[1..] == s[1..][..|s| - 2] && front[0] == s[0];
      var middle := EscapeAll(front[1..]);
      assert EscapeAll(s[1..]) == middle + last;
      assert (Escape(s[0]) + middle) + last == Escape(s[0]) + (middle + last);
    } else {
      assert EscapeAll(front) == [] && EscapeAll(s[1..]) == [];
    }
  }

  lemma UnescapeOne(c: byte, s: seq<byte>)
    ensures Unescape(Escape(c) + s) == match Unescape(s) case Ok((t, rest)) => Ok(([c] + t, rest)) case Err(e) => Err(e)
  {
    var x := Escape(c) + s;
    assert x[|Escape(c)|..] == s;
    if |Escape(c)| == 6 {
      Uuid.NibbleHexDigit(c / 16);
      Uuid.NibbleHexDigit(c % 16);
    }
  }

  lemma UnescapeEnd(rest: seq<byte>)
    ensures Unescape([34] + rest) == Ok(([], rest))
  {
    assert ([34] + rest)[1..] == rest;
  }

  /** A quoted string is read back as it was, whatever bytes it holds. */
  lemma {:induction false} UnescapeQuoted(s: seq<byte>, rest: seq<byte>)
    ensures Unescape(EscapeAll(s) + [34] + rest) == Ok((s, rest))
  {
    hide Unescape, Escape;
    if s == [] {
      assert EscapeAll(s) + [34] + rest == [34] + rest;
      UnescapeEnd(rest);
    } else {
      EscapeFirst(s);
      var a, b := Escape(s[0]), EscapeAll(s[1..]);
      var x := b + [34] + rest;
      assert (a + b) + [34] + rest == a + x;
      UnescapeOne(s[0], x);
      UnescapeQuoted(s[1..], rest);
      assert [s[0]] + s[1..] == s;
    }
  }

  lemma {:induction false} PlainUnescaped(s: seq<byte>)
    requires forall i :: 0 <= i < |s| ==> s[i] >= 32 && s[i] != 34 && s[i] != 92
    ensures EscapeAll(s) == s
  {
    if s != [] {
      PlainUnescaped(s[..|s| - 1]);
      assert s == s[..|s| - 1] + [s[|s| - 1]];
    }
  }

  // -- numbers -----------------------------------------------------------------------------------

  predicate IsDigit(c: byte) {
    48 <= c <= 57
  }

  /** `std::to_string` of a magnitude. */
  function Digits(n: nat): (s: seq<byte>)
    ensures s != [] && forall i :: 0 <= i < |s| ==> IsDigit(s[i])
    ensures |s| > 1 ==> s[0] != 48
    ensures n > 0 ==> s[0] != 48
  {
    if n < 10 then [48 + n] else Digits(n / 10) + [48 + n % 10]
  }

  function PrintInt(n: int): seq<byte> {
    if n < 0 then [45] + Digits(-n) else Digits(n)
  }

  function FromDigits(s: seq<byte>): nat
    requires forall i :: 0 <= i < |s| ==> IsDigit(s[i])
  {
    if s == [] then 0
    else
      assert IsDigit(s[|s| - 1]);
      10 * FromDigits(s[..|s| - 1]) + s[|s| - 1] - 48
  }

  lemma {:induction false} FromDigitsDigits(n: nat)
    ensures FromDigits(Digits(n)) == n
  {
    if n < 10 {
      assert [48 + n][..0] == [];
    } else {
      FromDigitsDigits(n / 10);
      assert Digits(n)[..|Digits(n)| - 1] == Digits(n / 10);
    }
  }

  /** How many digits a text starts with. */
  function DigitRun(s: seq<byte>): (k: nat)
    ensures k <= |s|
    ensures forall i :: 0 <= i < k ==> IsDigit(s[i])
    ensures k < |s| ==> !IsDigit(s[k])
  {
    if s == [] || !IsDigit(s[0]) then 0
    else
      var k := DigitRun(s[1..]);
      assert forall i :: 1 <= i < k + 1 ==> s[i] == s[1..][i - 1];
      k + 1
  }

  lemma {:induction false} DigitRunExact(s: seq<byte>, k: nat)
    requires k <= |s| && (forall i :: 0 <= i < k ==> IsDigit(s[i])) && (k < |s| ==> !IsDigit(s[k]))
    ensures DigitRun(s) == k
  {
    if k > 0 { DigitRunExact(s[1..], k - 1); }
  }

  /** The integers a tree can hold: those of 64 bits, signed or unsigned. */
  predicate Int64Range(n: int) {
    -0x8000_0000_0000_0000 <= n < 0x1_0000_0000_0000_0000
  }

  function ParseMagnitude(s: seq<byte>, sign: int): (r: Result<(Json, seq<byte>)>)
    ensures r.Ok? ==> |r.value.1| < |s|
  {
    var k := DigitRun(s);
    if k == 0 || (k > 1 && s[0] == 48) then Err(BadJson)
    else if k < |s| && (s[k] == 46 || s[k] == 69 || s[k] == 101) then Err(BadJson)
    else
      var n := sign * FromDigits(s[..k]);
      if Int64Range(n) then Ok((JNum(n), s[k..])) else Err(BadJson)
  }

  /** What may follow a value inside a text. */
  predicate Follows(rest: seq<byte>) {
    rest == [] || rest[0] == 44 || rest[0] == 93 || rest[0] == 125
  }

  lemma MagnitudeComesBack(n: nat, sign: int, rest: seq<byte>)
    requires Follows(rest) && Int64Range(sign * n)
    ensures ParseMagnitude(Digits(n) + rest, sign) == Ok((JNum(sign * n), rest))
  {
    var d := Digits(n);
    DigitRunExact(d + rest, |d|);
    assert (d + rest)[..|d|] == d && (d + rest)[|d|..] == rest;
    FromDigitsDigits(n);
  }

  // -- trees -----------------------------------------------------------------------------------------

  function Print(j: Json): (s: seq<byte>)
    ensures s != []
    decreases j
  {
    match j
    case JNull => [110, 117, 108, 108]
    case JBool(b) => if b then [116, 114, 117, 101] else [102, 97, 108, 115, 101]
    case JNum(n) => PrintInt(n)
    case JStr(s) => Quote(s)
    case JArr(items) => [91] + PrintItems(items) + [93]
    case JObj(members) => [123] + PrintMembers(members) + [125]
  }

  function PrintItems(items: seq<Json>): (s: seq<byte>)
    ensures items != [] ==> s != []
    decreases items
  {
    if items == [] then []
    else Print(items[0]) + (if |items| > 1 then [44] else []) + PrintItems(items[1..])
  }

  function PrintMembers(ms: seq<Field>): (s: seq<byte>)
    ensures ms != [] ==> s != [] && s[0] == 34
    decreases ms
  {
    if ms == [] then []
    else Quote(ms[0].name) + [58] + Print(ms[0].value) + (if |ms| > 1 then [44] else []) + PrintMembers(ms[1..])
  }

  function ParseValue(s: seq<byte>): (r: Result<(Json, seq<byte>)>)
    ensures r.Ok? ==> |r.value.1| < |s|
    decreases |s|, 0
  {
    if s == [] then Err(BadJson)
    else if s[0] == 123 then
      if |s| > 1 && s[1] == 125 then Ok((JObj([]), s[2..]))
      else
        var (ms, rest) :- ParseMembers(s[1..]);
        Ok((JObj(ms), rest))
    else if s[0] == 91 then
      if |s| > 1 && s[1] == 93 then Ok((JArr([]), s[2..]))
      else
        var (items, rest) :- ParseItems(s[1..]);
        Ok((JArr(items), rest))
    else if s[0] == 34 then
      var (t, rest) :- ParseString(s[1..]);
      Ok((JStr(t), rest))
    else if [116, 114, 117, 101] <= s then Ok((JBool(true), s[4..]))
    else if [102, 97, 108, 115, 101] <= s then Ok((JBool(false), s[5..]))
    else if [110, 117, 108, 108] <= s then Ok((JNull, s[4..]))
    else if s[0] == 45 then ParseMagnitude(s[1..], -1)
    else ParseMagnitude(s, 1)
  }

  function ParseMembers(s: seq<byte>): (r: Result<(seq<Field>, seq<byte>)>)
    ensures r.Ok? ==> |r.value.1| < |s|
    decreases |s|, 1
  {
    if s == [] || s[0] != 34 then Err(BadJson)
    else
      var (name, r) :- ParseString(s[1..]);
      if r == [] || r[0] != 58 then Err(BadJson)
      else
        var (v, rest) :- ParseValue(r[1..]);
        if rest == [] then Err(BadJson)
        else if rest[0] == 125 then Ok(([Field(name, v)], rest[1..]))
        else if rest[0] != 44 then Err(BadJson)
        else
          var (ms, rest') :- ParseMembers(rest[1..]);
          Ok(([Field(name, v)] + ms, rest'))
  }

  function ParseItems(s: seq<byte>): (r: Result<(seq<Json>, seq<byte>)>)
    ensures r.Ok? ==> |r.value.1| < |s|
    decreases |s|, 1
  {
    var (v, rest) :- ParseValue(s);
    if rest == [] then Err(BadJson)
    else if rest[0] == 93 then Ok(([v], rest[1..]))
    else if rest[0] != 44 then Err(BadJson)
    else
      var (items, rest') :- ParseItems(rest[1..]);
      Ok(([v] + items, rest'))
  }

  // -- the text denotes the tree -------------------------------------------------------------------------

  /** Every string in the tree, keys included, is UTF-8. */
  predicate AllUtf8(j: Json) {
    match j
    case JStr(s) => Utf8(s)
    case JArr(items) => forall i :: 0 <= i < |items| ==> AllUtf8(items[i])
    case JObj(members) => forall i :: 0 <= i < |members| ==> Utf8(members[i].name) && AllUtf8(members[i].value)
    case _ => true
  }

  predicate ItemsUtf8(items: seq<Json>) {
    forall i :: 0 <= i < |items| ==> AllUtf8(items[i])
  }

  predicate MembersUtf8(ms: seq<Field>) {
    forall i :: 0 <= i < |ms| ==> Utf8(ms[i].name) && AllUtf8(ms[i].value)
  }

  lemma Utf8Split(items: seq<Json>, ms: seq<Field>)
    ensures ItemsUtf8([]) && MembersUtf8([])
    ensures items != [] ==> (ItemsUtf8(items) <==> AllUtf8(items[0]) && ItemsUtf8(items[1..]))
    ensures ms != [] ==> (MembersUtf8(ms) <==> Utf8(ms[0].name) && AllUtf8(ms[0].value) && MembersUtf8(ms[1..]))
  {
    hide AllUtf8, Utf8;
    assert forall i :: 1 <= i < |items| ==> items[i] == items[1..][i - 1];
    assert forall i :: 1 <= i < |ms| ==> ms[i] == ms[1..][i - 1];
  }

  /** Every number in the tree is an integer of 64 bits. */
  predicate NumbersFit(j: Json) {
    match j
    case JNum(n) => Int64Range(n)
    case JArr(items) => forall i :: 0 <= i < |items| ==> NumbersFit(items[i])
    case JObj(members) => forall i :: 0 <= i < |members| ==> NumbersFit(members[i].value)
    case _ => true
  }

  lemma StringComesBack(s: seq<byte>, rest: seq<byte>)
    ensures (Quote(s) + rest)[0] == 34
    ensures ParseString((Quote(s) + rest)[1..]) == if Utf8(s) then Ok((s, rest)) else Err(BadJson)
  {
    hide EscapeAll, Unescape, Utf8;
    UnescapeQuoted(s, rest);
    assert (Quote(s) + rest)[1..] == EscapeAll(s) + [34] + rest;
  }

  lemma NumberComesBack(n: int, rest: seq<byte>)
    requires Int64Range(n) && Follows(rest)
    ensures ParseValue(PrintInt(n) + rest) == Ok((JNum(n), rest))
  {
    hide Digits, ParseMagnitude, ParseMembers, ParseItems, ParseString;
    var s := PrintInt(n) + rest;
    if n < 0 {
      assert s[0] == 45 && s[1..] == Digits(-n) + rest;
      MagnitudeComesBack(-n, -1, rest);
    } else {
      assert IsDigit(Digits(n)[0]) && s[0] == Digits(n)[0];
      MagnitudeComesBack(n, 1, rest);
    }
  }

  /** What is printed never starts like the end of an array or an object. */
  lemma PrintStarts(j: Json)
    ensures Print(j)[0] != 93 && Print(j)[0] != 125
  {
  }

  /** A printed tree is well-formed JSON that denotes the tree, provided its strings are UTF-8; if
      one is not, the text is refused. */
  lemma {:induction false} PrintedParses(j: Json, rest: seq<byte>)
    requires NumbersFit(j) && Follows(rest)
    ensures ParseValue(Print(j) + rest) == if AllUtf8(j) then Ok((j, rest)) else Err(BadJson)
    decreases j
  {
    hide ParseItems, ParseMembers, ParseString, PrintItems, PrintMembers, Quote, PrintInt, ParseMagnitude, Utf8;
    var s := Print(j) + rest;
    match j
    case JNull =>
      assert s[4..] == rest;
    case JBool(b) =>
      assert s[if b then 4 else 5..] == rest;
    case JNum(n) =>
      NumberComesBack(n, rest);
    case JStr(t) =>
      StringComesBack(t, rest);
    case JArr(items) =>
      assert s[1..] == PrintItems(items) + ([93] + rest);
      if items == [] {
        EmptyComesBack(rest);
      } else {
        PrintedItemsParse(items, rest);
        PrintItemsStarts(items);
        assert s[1] == PrintItems(items)[0];
      }
    case JObj(members) =>
      assert s[1..] == PrintMembers(members) + ([125] + rest);
      if members == [] {
        EmptyComesBack(rest);
      } else {
        PrintedMembersParse(members, rest);
        assert s[1] == PrintMembers(members)[0];
      }
  }

  lemma EmptyComesBack(rest: seq<byte>)
    ensures ParseValue(Print(JArr([])) + rest) == Ok((JArr([]), rest))
    ensures ParseValue(Print(JObj([])) + rest) == Ok((JObj([]), rest))
  {
    assert Print(JArr([])) + rest == [91, 93] + rest && ([91, 93] + rest)[2..] == rest;
    assert Print(JObj([])) + rest == [123, 125] + rest && ([123, 125] + rest)[2..] == rest;
  }

  lemma PrintItemsStarts(items: seq<Json>)
    requires items != []
    ensures PrintItems(items)[0] != 93
  {
    PrintStarts(items[0]);
  }

  lemma {:induction false} PrintedItemsParse(items: seq<Json>, rest: seq<byte>)
    requires items != [] && (forall i :: 0 <= i < |items| ==> NumbersFit(items[i]))
    ensures ParseItems(PrintItems(items) + ([93] + rest)) ==
      if ItemsUtf8(items) then Ok((items, rest)) else Err(BadJson)
    decreases items
  {
    hide ParseValue, Print, AllUtf8, NumbersFit, ItemsUtf8;
    var v := Print(items[0]);
    var end := if |items| == 1 then [93] + rest else [44] + (PrintItems(items[1..]) + ([93] + rest));
    PrintedParses(items[0], end);
    Utf8Split(items, []);
    assert items == [items[0]] + items[1..];
    if |items| == 1 {
      assert items[1..] == [] && items == [items[0]];
      assert PrintItems(items) == v + [] + [];
      assert PrintItems(items) + ([93] + rest) == v + end && end[1..] == rest;
    } else {
      assert PrintItems(items) == v + [44] + PrintItems(items[1..]);
      assert PrintItems(items) + ([93] + rest) == v + end;
      assert end[1..] == PrintItems(items[1..]) + ([93] + rest);
      PrintedItemsParse(items[1..], rest);
    }
  }

  lemma {:induction false} PrintedMembersParse(ms: seq<Field>, rest: seq<byte>)
    requires ms != [] && (forall i :: 0 <= i < |ms| ==> NumbersFit(ms[i].value))
    ensures ParseMembers(PrintMembers(ms) + ([125] + rest)) ==
      if MembersUtf8(ms) then Ok((ms, rest)) else Err(BadJson)
    decreases ms
  {
    hide ParseMembers, PrintMembers, Print, Quote, AllUtf8, NumbersFit, Utf8, MembersUtf8;
    var end := if |ms| == 1 then [125] + rest else [44] + (PrintMembers(ms[1..]) + ([125] + rest));
    PrintMembersFirst(ms, rest);
    MemberParses(ms[0], end);
    Utf8Split([], ms);
    if |ms| == 1 {
      assert end[1..] == rest && ms[1..] == [];
      assert ms == [ms[0]];
    } else {
      assert end[1..] == PrintMembers(ms[1..]) + ([125] + rest);
      PrintedMembersParse(ms[1..], rest);
      assert ms == [ms[0]] + ms[1..];
    }
  }

  lemma PrintMembersFirst(ms: seq<Field>, rest: seq<byte>)
    requires ms != []
    ensures var end := if |ms| == 1 then [125] + rest else [44] + (PrintMembers(ms[1..]) + ([125] + rest));
      PrintMembers(ms) + ([125] + rest) == Quote(ms[0].name) + ([58] + (Print(ms[0].value) + end))
  {
    hide Quote, Print;
    var q, v := Quote(ms[0].name), Print(ms[0].value);
    var comma: seq<byte>, tail := if |ms| > 1 then [44] else [], PrintMembers(ms[1..]);
    Reassociate(q, [58], v, comma, tail, [125] + rest);
    if |ms| == 1 {
      assert comma + (tail + ([125] + rest)) == [125] + rest;
    }
  }

  lemma Reassociate(a: seq<byte>, b: seq<byte>, c: seq<byte>, d: seq<byte>, e: seq<byte>, f: seq<byte>)
    ensures a + b + c + d + e + f == a + (b + (c + (d + (e + f))))
  {
    assert d + e + f == d + (e + f);
    assert c + d + e + f == c + (d + e + f);
    assert b + c + d + e + f == b + (c + d + e + f);
    assert a + b + c + d + e + f == a + (b + c + d + e + f);
  }

  /** The first member of an object's text, and what the reader does after it. */
  lemma {:induction false} MemberParses(f: Field, end: seq<byte>)
    requires NumbersFit(f.value) && Follows(end) && end != []
    ensures ParseMembers(Quote(f.name) + ([58] + (Print(f.value) + end))) ==
      if !Utf8(f.name) || !AllUtf8(f.value) then Err(BadJson)
      else if end[0] == 125 then Ok(([f], end[1..]))
      else if end[0] != 44 then Err(BadJson)
      else match ParseMembers(end[1..]) case Ok((ms, r)) => Ok(([f] + ms, r)) case Err(e) => Err(e)
    decreases f, 0
  {
    hide ParseValue, ParseString, Print, Quote, AllUtf8, NumbersFit, Utf8;
    var more := [58] + (Print(f.value) + end);
    StringComesBack(f.name, more);
    assert more[1..] == Print(f.value) + end;
    PrintedParses(f.value, end);
  }
}
