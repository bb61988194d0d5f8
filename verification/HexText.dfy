/** Hexadecimal text character by character: which digits are written and which are read, where the
    digits of a UUID stand, and that the case of a letter never matters. */
module HexText {
  import opened Results
  import opened Bytes
  import opened Uuid
  import JsonCodec
  import JsonText

  const LOWER := "0123456789abcdef"
  const UPPER := "0123456789ABCDEF"

  /** `c` is the lower-case digit for `n`. */
  predicate Writes(c: byte, n: int) {
    0 <= n < 16 && c as char == LOWER[n]
  }

  /** `c` is a digit for `n`, in either case. */
  predicate Denotes(c: byte, n: int) {
    0 <= n < 16 && (c as char == LOWER[n] || c as char == UPPER[n])
  }

  predicate IsDigit(c: byte) {
    exists n :: 0 <= n < 16 && Denotes(c, n)
  }

  /** `a` and `b` are one character up to the case of a letter. */
  predicate SameLetter(a: byte, b: byte) {
    a == b || ('A' <= a as char <= 'Z' && b == a + 32) || ('A' <= b as char <= 'Z' && a == b + 32)
  }

  predicate SameButCase(s: seq<byte>, t: seq<byte>) {
    |s| == |t| && forall i :: 0 <= i < |s| ==> SameLetter(s[i], t[i])
  }

  lemma DigitWritten(n: nat)
    requires n < 16
    ensures Writes(HexDigit(n), n)
  {
  }

  lemma DigitRead(c: byte, n: nat)
    requires n < 16
    ensures Nibble(c) == Some(n) <==> Denotes(c, n)
  {
  }

  lemma DigitOrNot(c: byte)
    ensures Nibble(c).Some? <==> IsDigit(c)
  {
    if Nibble(c).Some? { DigitRead(c, Nibble(c).value); }
    if IsDigit(c) {
      var n :| 0 <= n < 16 && Denotes(c, n);
      DigitRead(c, n);
    }
  }

  // -- pairs of digits -------------------------------------------------------------------------

  predicate WritesPair(a: byte, b: byte, v: byte) {
    Writes(a, v / 16) && Writes(b, v % 16)
  }

  predicate DenotesPair(a: byte, b: byte, v: byte) {
    Denotes(a, v / 16) && Denotes(b, v % 16)
  }

  /** What `stoul` makes of two characters in base sixteen: two digits; a digit and something else;
      or a digit after white space or a plus sign. */
  predicate Tolerates(a: byte, b: byte, v: byte) {
    || DenotesPair(a, b, v)
    || (Denotes(a, v) && !IsDigit(b))
    || ((a as char in " \t\n\r+" || a == 11 || a == 12) && Denotes(b, v))
  }

  lemma PairWritten(v: byte)
    ensures WritesPair(Hex2(v)[0], Hex2(v)[1], v)
  {
    DigitWritten(v / 16);
    DigitWritten(v % 16);
  }

  lemma PairRead(a: byte, b: byte, v: byte)
    ensures JsonText.HexPair(a, b) == Some(v) <==> DenotesPair(a, b, v)
    ensures ParsePair(a, b) == Some(v) <==> Tolerates(a, b, v)
  {
    hide Denotes, IsDigit;
    DigitOrNot(a);
    DigitOrNot(b);
    DigitRead(a, v / 16);
    DigitRead(b, v % 16);
    if v < 16 {
      DigitRead(a, v);
      DigitRead(b, v);
    }
    DenotesSmall(a, v);
    DenotesSmall(b, v);
    BlankIsNoDigit(a);
  }

  lemma DenotesSmall(c: byte, n: int)
    ensures Denotes(c, n) ==> 0 <= n < 16
  {
  }

  lemma BlankIsNoDigit(c: byte)
    ensures c as char in " \t\n\r+" <==> c == 32 || c == 9 || c == 10 || c == 13 || c == 43
    ensures WhiteSpace(c) || c == 43 ==> Nibble(c).None?
  {
  }

  lemma {:induction false} AnyCasePair(a: byte, b: byte, c: byte, d: byte)
    requires SameLetter(a, c) && SameLetter(b, d)
    ensures JsonText.HexPair(a, b) == JsonText.HexPair(c, d) && ParsePair(a, b) == ParsePair(c, d)
  {
    assert Nibble(a) == Nibble(c) && Nibble(b) == Nibble(d);
  }

  // -- hexadecimal bytes -------------------------------------------------------------------------

  /** The text of some bytes: two lower-case digits for each. */
  lemma {:induction false} BytesWritten(s: seq<byte>)
    ensures var t := JsonCodec.HexText(s);
      |t| == 2 * |s| && forall i :: 0 <= i < |s| ==> WritesPair(t[2 * i], t[2 * i + 1], s[i])
  {
    hide WritesPair, Hex2;
    if s != [] {
      var front := s[..|s| - 1];
      BytesWritten(front);
      PairWritten(s[|s| - 1]);
      var t := JsonCodec.HexText(s);
      assert t == JsonCodec.HexText(front) + Hex2(s[|s| - 1]);
    }
  }

  lemma {:induction false} PairsRead(t: seq<byte>, i: nat, s: seq<byte>)
    requires 2 * i <= |t|
    ensures JsonCodec.HexPairs(t, i) == Ok(s) <==> |s| == i && forall k :: 0 <= k < i ==> DenotesPair(t[2 * k], t[2 * k + 1], s[k])
  {
    hide DenotesPair, JsonText.HexPair;
    if i > 0 && |s| == i {
      var front, last := s[..i - 1], s[i - 1];
      PairsRead(t, i - 1, front);
      PairRead(t[2 * i - 2], t[2 * i - 1], last);
      assert s == front + [last];
      var r := JsonCodec.HexPairs(t, i);
      if r == Ok(s) {
        assert r.value[..i - 1] == front && r.value[i - 1] == last;
      }
    }
  }

  /** `parse_hex_bytes` yields some bytes exactly when the text is their digits, two for each, in
      either case. */
  lemma HexBytesIff(t: seq<byte>, s: seq<byte>)
    ensures JsonCodec.HexBytes(t) == Ok(s) <==>
      |t| == 2 * |s| && forall i :: 0 <= i < |s| ==> DenotesPair(t[2 * i], t[2 * i + 1], s[i])
  {
    hide DenotesPair;
    if |t| % 2 == 0 { PairsRead(t, |t| / 2, s); }
  }

  lemma {:induction false} SamePairs(t: seq<byte>, u: seq<byte>, i: nat)
    requires SameButCase(t, u) && 2 * i <= |t|
    ensures JsonCodec.HexPairs(t, i) == JsonCodec.HexPairs(u, i)
  {
    hide JsonText.HexPair, SameLetter;
    if i > 0 {
      SamePairs(t, u, i - 1);
      AnyCasePair(t[2 * i - 2], t[2 * i - 1], u[2 * i - 2], u[2 * i - 1]);
    }
  }

  /** The case of letters does not matter to the reader, and the text of any bytes with any of its
      letters in upper case is read as those bytes. */
  lemma HexBytesAnyCase(t: seq<byte>, u: seq<byte>)
    requires SameButCase(t, u)
    ensures JsonCodec.HexBytes(t) == JsonCodec.HexBytes(u)
    ensures forall s :: t == JsonCodec.HexText(s) ==> JsonCodec.HexBytes(u) == Ok(s)
  {
    hide JsonCodec.HexText, JsonCodec.HexPairs, SameLetter;
    if |t| % 2 == 0 { SamePairs(t, u, |t| / 2); }
    forall s | t == JsonCodec.HexText(s)
      ensures JsonCodec.HexBytes(u) == Ok(s)
    {
      JsonCodec.HexComesBack(s);
    }
  }

  // -- the text of a UUID ----------------------------------------------------------------------------

  /** Where the digits of octet `i` stand: in the 8-4-4-4-12 grouping. */
  function At(i: nat): nat {
    2 * i + (if i < 4 then 0 else if i < 6 then 1 else if i < 8 then 2 else if i < 10 then 3 else 4)
  }

  predicate Dashed(s: seq<byte>) {
    |s| == 36 && s[8] as char == '-' && s[13] as char == '-' && s[18] as char == '-' && s[23] as char == '-'
  }

  lemma {:induction false} TextWritten(o: Octets, i: nat)
    requires i <= 16
    ensures var t := TextUpTo(o, i);
      && |t| == EndOf(i)
      && (forall k :: 0 <= k < |t| && DashAt(k) ==> t[k] == DASH)
      && forall k :: 0 <= k < i ==> At(k) + 1 < |t| && WritesPair(t[At(k)], t[At(k) + 1], o[k])
  {
    hide WritesPair, Hex2;
    if i > 0 {
      TextWritten(o, i - 1);
      PairWritten(o[i - 1]);
      var t, before, pair := TextUpTo(o, i), TextUpTo(o, i - 1), Hex2(o[i - 1]);
      assert t == before + Piece(o[i - 1], i - 1);
      assert t[|t| - 2] == pair[0] && t[|t| - 1] == pair[1] && At(i - 1) == |t| - 2;
      assert forall k :: 0 <= k < i - 1 ==> t[At(k)] == before[At(k)] && t[At(k) + 1] == before[At(k) + 1];
      assert forall k :: 0 <= k < |before| ==> t[k] == before[k];
    }
  }

  /** `toString` writes the octets in order, two lower-case digits for each, the high one first, and
      dashes between the groups. */
  lemma UuidWritten(o: Octets)
    ensures Dashed(ToText(o)) && forall i :: 0 <= i < 16 ==> WritesPair(ToText(o)[At(i)], ToText(o)[At(i) + 1], o[i])
  {
    hide WritesPair;
    TextWritten(o, 16);
    assert DashAt(8) && DashAt(13) && DashAt(18) && DashAt(23);
  }

  lemma {:induction false} NoneDropped(s: seq<byte>)
    ensures |WithoutDashes(s)| == |s| <==> DASH !in s
    ensures DASH !in s ==> WithoutDashes(s) == s
  {
    if s != [] {
      NoneDropped(s[..|s| - 1]);
      assert s == s[..|s| - 1] + [s[|s| - 1]];
    }
  }

  lemma SplitAt(s: seq<byte>, k: nat)
    requires k < |s| && s[k] == DASH
    ensures WithoutDashes(s) == WithoutDashes(s[..k]) + WithoutDashes(s[k + 1..])
  {
    hide WithoutDashes;
    assert s == s[..k] + ([DASH] + s[k + 1..]);
    WithoutDashesConcat(s[..k], [DASH] + s[k + 1..]);
    WithoutDashesConcat([DASH], s[k + 1..]);
    OneCharacter(DASH);
    assert [] + WithoutDashes(s[k + 1..]) == WithoutDashes(s[k + 1..]);
  }

  /** The digits that are left: the five groups one after the other. */
  lemma DigitsLeft(s: seq<byte>)
    requires Dashed(s)
    ensures var hex := WithoutDashes(s);
      && (|hex| == 32 <==> forall k :: 0 <= k < 36 && !DashAt(k) ==> s[k] != DASH)
      && (|hex| == 32 ==> forall i :: 0 <= i < 16 ==> hex[2 * i] == s[At(i)] && hex[2 * i + 1] == s[At(i) + 1])
  {
    hide WithoutDashes;
    var a, b, c, d, e := s[..8], s[9..13], s[14..18], s[19..23], s[24..];
    SplitAt(s, 8);
    SplitAt(s[9..], 4);
    SplitAt(s[14..], 4);
    SplitAt(s[19..], 4);
    assert s[9..][..4] == b && s[9..][5..] == s[14..];
    assert s[14..][..4] == c && s[14..][5..] == s[19..];
    assert s[19..][..4] == d && s[19..][5..] == e;
    NoneDropped(a);
    NoneDropped(b);
    NoneDropped(c);
    NoneDropped(d);
    NoneDropped(e);
    var hex := WithoutDashes(s);
    if |hex| == 32 {
      assert hex == a + (b + (c + (d + e)));
    }
  }

  lemma {:induction false} OctetsRead(hex: seq<byte>, i: nat, o: seq<byte>)
    requires 2 * i <= |hex|
    ensures ParsePairs(hex, i) == Some(o) <==> |o| == i && forall k :: 0 <= k < i ==> Tolerates(hex[2 * k], hex[2 * k + 1], o[k])
  {
    hide Tolerates, ParsePair;
    if i > 0 && |o| == i {
      var front, last := o[..i - 1], o[i - 1];
      OctetsRead(hex, i - 1, front);
      PairRead(hex[2 * i - 2], hex[2 * i - 1], last);
      assert o == front + [last];
      var r := ParsePairs(hex, i);
      if r == Some(o) {
        assert r.value[..i - 1] == front && r.value[i - 1] == last;
      }
    }
  }

  /** `fromString` yields a UUID exactly when the text has 36 characters, a dash at the four places
      and at no other, and pairs that `stoul` takes for the octets in order. */
  lemma FromStringIff(s: seq<byte>, o: Octets)
    ensures FromText(s) == Some(o) <==>
      && Dashed(s)
      && forall i :: 0 <= i < 16 ==> s[At(i)] != DASH && s[At(i) + 1] != DASH && Tolerates(s[At(i)], s[At(i) + 1], o[i])
  {
    hide Tolerates, WithoutDashes, ParsePairs;
    if Dashed(s) {
      DigitsLeft(s);
      var hex := WithoutDashes(s);
      if |hex| == 32 { OctetsRead(hex, 16, o); }
      EveryPlace(s);
    }
  }

  /** Every place that is not a dash's is one of an octet's two. */
  lemma EveryPlace(s: seq<byte>)
    requires |s| == 36
    ensures (forall k :: 0 <= k < 36 && !DashAt(k) ==> s[k] != DASH) <==>
      forall i :: 0 <= i < 16 ==> s[At(i)] != DASH && s[At(i) + 1] != DASH
  {
    if forall i :: 0 <= i < 16 ==> s[At(i)] != DASH && s[At(i) + 1] != DASH {
      forall k | 0 <= k < 36 && !DashAt(k)
        ensures s[k] != DASH
      {
        var i := (k - (if k < 8 then 0 else if k < 13 then 1 else if k < 18 then 2 else if k < 23 then 3 else 4)) / 2;
        assert k == At(i) || k == At(i) + 1;
      }
    }
  }

  lemma {:induction false} SameWithoutDashes(s: seq<byte>, t: seq<byte>)
    requires SameButCase(s, t)
    ensures SameButCase(WithoutDashes(s), WithoutDashes(t))
  {
    if s != [] { SameWithoutDashes(s[..|s| - 1], t[..|t| - 1]); }
  }

  lemma {:induction false} SameOctets(s: seq<byte>, t: seq<byte>, i: nat)
    requires SameButCase(s, t) && 2 * i <= |s|
    ensures ParsePairs(s, i) == ParsePairs(t, i)
  {
    hide ParsePair, SameLetter;
    if i > 0 {
      SameOctets(s, t, i - 1);
      AnyCasePair(s[2 * i - 2], s[2 * i - 1], t[2 * i - 2], t[2 * i - 1]);
    }
  }

  /** The case of letters does not matter to `fromString`, and the text of a UUID with any of its
      letters in upper case parses to that UUID. */
  lemma UuidAnyCase(s: seq<byte>, t: seq<byte>)
    requires SameButCase(s, t)
    ensures FromText(s) == FromText(t)
    ensures forall o: Octets :: s == ToText(o) ==> FromText(t) == Some(o)
  {
    hide WithoutDashes, ParsePairs, ToText;
    SameWithoutDashes(s, t);
    if |WithoutDashes(s)| == 32 { SameOctets(WithoutDashes(s), WithoutDashes(t), 16); }
    forall o: Octets | s == ToText(o)
      ensures FromText(t) == Some(o)
    {
      TextRoundTrip(o);
    }
  }
}
