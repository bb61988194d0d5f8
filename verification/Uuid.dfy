/** The text form of UUIDs: `UUID::toString` and `UUID::fromString`. */
module Uuid {
  import opened Results
  import opened Bytes

  type Octets = o: seq<byte> | |o| == 16 witness seq(16, _ => 0)

  const DASH: byte := 45

  /** The lower-case hexadecimal digit of a number below sixteen. */
  function HexDigit(n: nat): (c: byte)
    requires n < 16
    ensures c != DASH
  {
    if n < 10 then 48 + n else 87 + n
  }

  function Hex2(b: byte): (s: seq<byte>)
    ensures |s| == 2
  {
    [HexDigit(b / 16), HexDigit(b % 16)]
  }

  /** The value of a hexadecimal digit of either case. */
  function Nibble(c: byte): (n: Option<nat>)
    ensures n.Some? ==> n.value < 16
  {
    if 48 <= c <= 57 then Some(c - 48)
    else if 97 <= c <= 102 then Some(c - 87)
    else if 65 <= c <= 70 then Some(c - 55)
    else None
  }

  predicate LowerHex(c: byte) {
    48 <= c <= 57 || 97 <= c <= 102
  }

  lemma NibbleHexDigit(n: nat)
    requires n < 16
    ensures Nibble(HexDigit(n)) == Some(n) && LowerHex(HexDigit(n))
  {
  }

  // -- toString ---------------------------------------------------------------

  predicate DashBefore(i: nat) {
    i == 4 || i == 6 || i == 8 || i == 10
  }

  /** What `toString` appends for octet `i`. */
  function Piece(b: byte, i: nat): seq<byte> {
    (if DashBefore(i) then [DASH] else []) + Hex2(b)
  }

  /** The text of the first `i` octets. */
  function TextUpTo(o: Octets, i: nat): seq<byte>
    requires i <= 16
  {
    if i == 0 then [] else TextUpTo(o, i - 1) + Piece(o[i - 1], i - 1)
  }

  function ToText(o: Octets): seq<byte> {
    TextUpTo(o, 16)
  }

  method ToString(o: Octets) returns (s: seq<byte>)
    ensures s == ToText(o)
  {
    s := [];
    for i := 0 to 16
      invariant s == TextUpTo(o, i)
    {
      if i == 4 || i == 6 || i == 8 || i == 10 {
        s := s + [DASH];
      }
      s := s + Hex2(o[i]);
    }
  }

  // -- fromString -------------------------------------------------------------

  function WithoutDashes(s: seq<byte>): (r: seq<byte>)
    ensures |r| <= |s|
    ensures DASH !in r
  {
    if s == [] then []
    else WithoutDashes(s[..|s| - 1]) + (if s[|s| - 1] != DASH then [s[|s| - 1]] else [])
  }

  predicate WhiteSpace(c: byte) {
    c == 32 || 9 <= c <= 13
  }

  /** `std::stoul` in base sixteen on a two-character string: leading white space, a plus
      sign and a bare `0x` prefix are accepted, trailing rubbish is ignored, no digit throws. */
  function ParsePair(a: byte, b: byte): (r: Option<byte>) {
    if WhiteSpace(a) || a == 43 then
      (match Nibble(b) case Some(n) => Some(n) case None => None)
    else
      match Nibble(a)
      case None => None
      case Some(hi) => match Nibble(b) case Some(lo) => Some(16 * hi + lo) case None => Some(hi)
  }

  predicate DashesInPlace(s: seq<byte>) {
    |s| == 36 && s[8] == DASH && s[13] == DASH && s[18] == DASH && s[23] == DASH
  }

  /** The octets of the first `i` pairs of digits. */
  function ParsePairs(hex: seq<byte>, i: nat): (r: Option<seq<byte>>)
    requires 2 * i <= |hex|
    ensures r.Some? ==> |r.value| == i
  {
    if i == 0 then Some([])
    else
      match ParsePairs(hex, i - 1)
      case None => None
      case Some(o) =>
        match ParsePair(hex[2 * i - 2], hex[2 * i - 1])
        case None => None
        case Some(b) => Some(o + [b])
  }

  function FromText(s: seq<byte>): (r: Option<Octets>) {
    if !DashesInPlace(s) then None
    else
      var hex := WithoutDashes(s);
      if |hex| != 32 then None else ParsePairs(hex, 16)
  }

  method FromString(s: seq<byte>) returns (r: Option<Octets>)
    ensures r == FromText(s)
  {
    if |s| != 36 || s[8] != DASH || s[13] != DASH || s[18] != DASH || s[23] != DASH {
      return None;
    }
    var hex: seq<byte> := [];
    for k := 0 to |s|
      invariant hex == WithoutDashes(s[..k])
    {
      assert s[..k + 1][..k] == s[..k];
      if s[k] != DASH {
        hex := hex + [s[k]];
      }
    }
    assert s[..|s|] == s;
    if |hex| != 32 {
      return None;
    }
    var octets: seq<byte> := [];
    for i := 0 to 16
      invariant ParsePairs(hex, i) == Some(octets)
    {
      var pair := ParsePair(hex[2 * i], hex[2 * i + 1]);
      assert ParsePairs(hex, i + 1) == match pair case None => None case Some(b) => Some(octets + [b]);
      if pair.None? {
        FailedPairs(hex, i + 1, 16);
        return None;
      }
      octets := octets + [pair.value];
    }
    r := Some(octets);
  }

  lemma {:induction false} FailedPairs(hex: seq<byte>, i: nat, j: nat)
    requires i <= j && 2 * j <= |hex|
    requires ParsePairs(hex, i).None?
    ensures ParsePairs(hex, j).None?
    decreases j
  {
    if i < j {
      FailedPairs(hex, i, j - 1);
    }
  }

  // -- canonical text -----------------------------------------------------------

  /** The offset at which the text of octet `i` ends. */
  function EndOf(i: nat): nat {
    2 * i + (if i > 4 then 1 else 0) + (if i > 6 then 1 else 0) + (if i > 8 then 1 else 0) + (if i > 10 then 1 else 0)
  }

  predicate DashAt(k: int) {
    k == 8 || k == 13 || k == 18 || k == 23
  }

  ghost predicate CanonicalPrefix(s: seq<byte>) {
    forall k :: 0 <= k < |s| ==> if DashAt(k) then s[k] == DASH else LowerHex(s[k])
  }

  /** Thirty-two lower-case hexadecimal digits in the 8-4-4-4-12 grouping. */
  ghost predicate Canonical(s: seq<byte>) {
    |s| == 36 && CanonicalPrefix(s)
  }

  lemma {:induction false} TextIsCanonical(o: Octets, i: nat)
    requires i <= 16
    ensures |TextUpTo(o, i)| == EndOf(i) && CanonicalPrefix(TextUpTo(o, i))
  {
    if i > 0 {
      TextIsCanonical(o, i - 1);
      NibbleHexDigit(o[i - 1] / 16);
      NibbleHexDigit(o[i - 1] % 16);
    }
  }

  lemma TextIsAscii(o: Octets)
    ensures forall k :: 0 <= k < |ToText(o)| ==> ToText(o)[k] < 0x80
  {
    TextIsCanonical(o, 16);
  }

  lemma {:induction false} WithoutDashesConcat(a: seq<byte>, b: seq<byte>)
    ensures WithoutDashes(a + b) == WithoutDashes(a) + WithoutDashes(b)
  {
    if b == [] {
      assert a + b == a;
    } else {
      var init, last := b[..|b| - 1], b[|b| - 1];
      WithoutDashesConcat(a, init);
      assert (a + b)[..|a + b| - 1] == a + init && (a + b)[|a + b| - 1] == last;
    }
  }

  lemma OneCharacter(c: byte)
    ensures WithoutDashes([c]) == if c != DASH then [c] else []
  {
    assert [c][..0] == [];
  }

  lemma PairParses(b: byte)
    ensures ParsePair(Hex2(b)[0], Hex2(b)[1]) == Some(b)
  {
    NibbleHexDigit(b / 16);
    NibbleHexDigit(b % 16);
    assert !WhiteSpace(HexDigit(b / 16)) && HexDigit(b / 16) != 43;
    assert b == 16 * (b / 16) + b % 16;
  }

  lemma PieceDigits(b: byte, i: nat)
    ensures WithoutDashes(Piece(b, i)) == Hex2(b)
    ensures ParsePair(Hex2(b)[0], Hex2(b)[1]) == Some(b)
  {
    hide ParsePair, WithoutDashes;
    PairParses(b);
    var h := Hex2(b);
    OneCharacter(h[0]);
    OneCharacter(h[1]);
    OneCharacter(DASH);
    assert h == [h[0]] + [h[1]];
    WithoutDashesConcat([h[0]], [h[1]]);
    WithoutDashesConcat([DASH], h);
    assert [] + h == h;
  }

  /** Dropping the dashes from the text of `i` octets and parsing the pairs gives the octets back. */
  lemma {:induction false} TextParses(o: Octets, i: nat)
    requires i <= 16
    ensures |WithoutDashes(TextUpTo(o, i))| == 2 * i
    ensures ParsePairs(WithoutDashes(TextUpTo(o, i)), i) == Some(o[..i])
  {
    if i > 0 {
      TextParses(o, i - 1);
      TextParsesStep(o, i - 1);
    }
  }

  lemma TextParsesStep(o: Octets, i: nat)
    requires i < 16
    requires |WithoutDashes(TextUpTo(o, i))| == 2 * i
    requires ParsePairs(WithoutDashes(TextUpTo(o, i)), i) == Some(o[..i])
    ensures |WithoutDashes(TextUpTo(o, i + 1))| == 2 * (i + 1)
    ensures ParsePairs(WithoutDashes(TextUpTo(o, i + 1)), i + 1) == Some(o[..i + 1])
  {
    hide WithoutDashes, ParsePair, ParsePairs, Hex2, Piece;
    var b, before := o[i], TextUpTo(o, i);
    PieceDigits(b, i);
    WithoutDashesConcat(before, Piece(b, i));
    PairsSnoc(WithoutDashes(before), Hex2(b), i);
    assert o[..i + 1] == o[..i] + [b];
  }

  lemma PairsSnoc(h: seq<byte>, pair: seq<byte>, i: nat)
    requires |h| == 2 * i && |pair| == 2
    ensures ParsePairs(h + pair, i + 1) ==
            match ParsePairs(h, i)
            case None => None
            case Some(o) => match ParsePair(pair[0], pair[1]) case None => None case Some(b) => Some(o + [b])
  {
    PairsOfPrefix(h, h + pair, i);
  }

  lemma {:induction false} PairsOfPrefix(h: seq<byte>, hex: seq<byte>, i: nat)
    requires h <= hex && 2 * i <= |h|
    ensures ParsePairs(hex, i) == ParsePairs(h, i)
  {
    if i > 0 {
      PairsOfPrefix(h, hex, i - 1);
    }
  }

  /** `fromString(u.toString()) == u`, for every UUID. */
  lemma TextRoundTrip(o: Octets)
    ensures FromText(ToText(o)) == Some(o)
    ensures |ToText(o)| == 36 && Canonical(ToText(o))
  {
    TextIsCanonical(o, 16);
    TextParses(o, 16);
    assert o[..16] == o;
  }

  lemma LowerHexDigit(c: byte)
    requires LowerHex(c)
    ensures Nibble(c).Some? && HexDigit(Nibble(c).value) == c && !WhiteSpace(c) && c != 43
  {
  }

  lemma CanonicalPiece(s: seq<byte>, i: nat)
    requires Canonical(s) && i < 16
    ensures EndOf(i) <= EndOf(i + 1) <= 36
    ensures var piece := s[EndOf(i)..EndOf(i + 1)];
            |WithoutDashes(piece)| == 2 &&
            ParsePair(WithoutDashes(piece)[0], WithoutDashes(piece)[1]).Some? &&
            Piece(ParsePair(WithoutDashes(piece)[0], WithoutDashes(piece)[1]).value, i) == piece
  {
    var piece := s[EndOf(i)..EndOf(i + 1)];
    var d := if DashBefore(i) then EndOf(i) + 1 else EndOf(i);
    assert !DashAt(d) && !DashAt(d + 1) && (DashBefore(i) ==> DashAt(EndOf(i)));
    LowerHexDigit(s[d]);
    LowerHexDigit(s[d + 1]);
    var b := ParsePair(s[d], s[d + 1]);
    var hi, lo := Nibble(s[d]).value, Nibble(s[d + 1]).value;
    assert b == Some(16 * hi + lo) && (16 * hi + lo) / 16 == hi && (16 * hi + lo) % 16 == lo;
    assert Hex2(b.value) == [s[d], s[d + 1]];
    if DashBefore(i) {
      assert piece == [DASH] + [s[d], s[d + 1]];
    } else {
      assert piece == [] + [s[d], s[d + 1]];
    }
    PieceDigits(b.value, i);
  }

  /** One more piece of canonical text parses to one more octet, whose piece it is. */
  lemma CanonicalStep(s: seq<byte>, i: nat) returns (b: byte)
    requires Canonical(s) && i < 16
    ensures EndOf(i) <= EndOf(i + 1) <= 36
    ensures |WithoutDashes(s[..EndOf(i)])| == 2 * i ==> |WithoutDashes(s[..EndOf(i + 1)])| == 2 * (i + 1)
    ensures |WithoutDashes(s[..EndOf(i)])| == 2 * i ==>
              ParsePairs(WithoutDashes(s[..EndOf(i + 1)]), i + 1) ==
              match ParsePairs(WithoutDashes(s[..EndOf(i)]), i) case None => None case Some(o) => Some(o + [b])
    ensures s[..EndOf(i + 1)] == s[..EndOf(i)] + Piece(b, i)
  {
    CanonicalPiece(s, i);
    var before, piece := s[..EndOf(i)], s[EndOf(i)..EndOf(i + 1)];
    var hex, pair := WithoutDashes(before), WithoutDashes(piece);
    b := ParsePair(pair[0], pair[1]).value;
    assert s[..EndOf(i + 1)] == before + piece;
    WithoutDashesConcat(before, piece);
    if |hex| == 2 * i {
      PairsSnoc(hex, pair, i);
    }
  }

  /** Canonical text is the text of what it parses to, octet by octet. */
  lemma {:induction false} CanonicalParses(s: seq<byte>, i: nat) returns (o: seq<byte>)
    requires Canonical(s) && i <= 16
    ensures EndOf(i) <= 36 && |o| == i
    ensures |WithoutDashes(s[..EndOf(i)])| == 2 * i
    ensures ParsePairs(WithoutDashes(s[..EndOf(i)]), i) == Some(o)
    ensures forall u: Octets :: u[..i] == o ==> TextUpTo(u, i) == s[..EndOf(i)]
  {
    if i == 0 {
      o := [];
    } else {
      var o' := CanonicalParses(s, i - 1);
      var b := CanonicalStep(s, i - 1);
      o := o' + [b];
      forall u: Octets | u[..i] == o
        ensures TextUpTo(u, i) == s[..EndOf(i)]
      {
        assert u[..i][..i - 1] == u[..i - 1] && u[..i][i - 1] == u[i - 1];
      }
    }
  }

  /** `toString` gives a string back exactly when the string was canonical: `fromString` also
      accepts upper-case digits and whatever `stoul` tolerates, and those are normalised away. */
  lemma CanonicalIff(s: seq<byte>)
    ensures Canonical(s) <==> FromText(s).Some? && ToText(FromText(s).value) == s
  {
    if Canonical(s) {
      var o := CanonicalParses(s, 16);
      assert s[..36] == s;
      assert o[..16] == o;
    } else if FromText(s).Some? {
      TextIsCanonical(FromText(s).value, 16);
    }
  }
}
