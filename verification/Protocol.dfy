/** The text layer of the LA-CAL bridge: trimming, fields, tokens, and the commands they spell. */
module Protocol {
  import opened Results

  // -- characters and tokens -----------------------------------------------------------------

  /** What `trim` strips. */
  predicate IsBlank(c: char) {
    c == ' ' || c == '\t' || c == '\r' || c == '\n'
  }

  /** What `operator>>` skips: vertical tab and form feed too. */
  predicate IsSpace(c: char) {
    IsBlank(c) || c == '\U{0B}' || c == '\U{0C}'
  }

  predicate TokenChar(c: char) {
    'a' <= c <= 'z' || 'A' <= c <= 'Z' || '0' <= c <= '9' || c == '_' || c == '-' || c == '.'
  }

  predicate ValidToken(s: string) {
    s != "" && forall i :: 0 <= i < |s| ==> TokenChar(s[i])
  }

  predicate AllBlank(s: string) {
    forall i :: 0 <= i < |s| ==> IsBlank(s[i])
  }

  predicate AllSpace(s: string) {
    forall i :: 0 <= i < |s| ==> IsSpace(s[i])
  }

  /** A non-empty run of characters that are not spaces. */
  predicate IsWord(s: string) {
    s != "" && forall i :: 0 <= i < |s| ==> !IsSpace(s[i])
  }

  const CAPITALS := "ABCDEFGHIJKLMNOPQRSTUVWXYZ"
  const SMALL := "abcdefghijklmnopqrstuvwxyz"
  const NUMERALS := "0123456789"

  /** The characters of tokens, those that `trim` strips, and those that separate fields. */
  lemma CharactersAre(c: char)
    ensures TokenChar(c) <==> c in CAPITALS || c in SMALL || c in NUMERALS || c in "_-."
    ensures IsBlank(c) <==> c in " \t\r\n"
    ensures IsSpace(c) <==> c in " \t\r\n\U{0B}\U{0C}"
  {
  }

  // -- trim ----------------------------------------------------------------------------------

  /** Neither the first nor the last character is blank. */
  predicate Tight(s: string) {
    s == "" || (!IsBlank(s[0]) && !IsBlank(s[|s| - 1]))
  }

  function Trim(s: string): (r: string)
    ensures Tight(r) && |r| <= |s|
    decreases |s|
  {
    if s != "" && IsBlank(s[0]) then Trim(s[1..])
    else if s != "" && IsBlank(s[|s| - 1]) then Trim(s[..|s| - 1])
    else s
  }

  /** Trimming finds the tight middle of a line, however much blank surrounds it. */
  lemma {:induction false} TrimExact(a: string, r: string, b: string)
    requires AllBlank(a) && AllBlank(b) && Tight(r)
    ensures Trim(a + r + b) == r
    decreases |a| + |b|
  {
    var s := a + r + b;
    if a != "" {
      assert s[1..] == a[1..] + r + b;
      TrimExact(a[1..], r, b);
    } else if b != "" {
      if r == "" {
        assert s[1..] == a + r + b[1..];
        TrimExact(a, r, b[1..]);
      } else {
        assert s[..|s| - 1] == a + r + b[..|b| - 1];
        TrimExact(a, r, b[..|b| - 1]);
      }
    } else {
      assert s == r;
    }
  }

  method TrimText(text: string) returns (s: string)
    ensures s == Trim(text)
  {
    s := text;
    while s != "" && IsBlank(s[0])
      invariant Trim(s) == Trim(text)
      decreases |s|
    {
      s := s[1..];
    }
    while s != "" && IsBlank(s[|s| - 1])
      invariant Trim(s) == Trim(text) && (s == "" || !IsBlank(s[0]))
      decreases |s|
    {
      s := s[..|s| - 1];
    }
  }

  // -- first field -----------------------------------------------------------------------------

  /** The number of characters before the first that satisfies the test; the length if none does. */
  function Until(s: string, stop: char -> bool): (n: nat)
    ensures n <= |s|
    ensures forall i :: 0 <= i < n ==> !stop(s[i])
    ensures n < |s| ==> stop(s[n])
  {
    if s == "" || stop(s[0]) then 0
    else
      var n := Until(s[1..], stop);
      assert forall i :: 1 <= i < n + 1 ==> s[i] == s[1..][i - 1];
      n + 1
  }

  lemma {:induction false} UntilExact(s: string, stop: char -> bool, n: nat)
    requires n <= |s|
    requires forall i :: 0 <= i < n ==> !stop(s[i])
    requires n < |s| ==> stop(s[n])
    ensures Until(s, stop) == n
  {
    if n > 0 {
      UntilExact(s[1..], stop, n - 1);
    }
  }

  /** The operation of a line and the rest of it; nothing for a blank line. Only a space ends the
      operation. */
  function FirstField(line: string): Option<(string, string)> {
    var s := Trim(line);
    if s == "" then None
    else
      var pos := Until(s, c => c == ' ');
      if pos == |s| then Some((s, "")) else Some((s[..pos], Trim(s[pos + 1..])))
  }

  method SplitFirst(line: string) returns (op: Option<string>, rest: string)
    ensures FirstField(line) == (if op.None? then None else Some((op.value, rest)))
  {
    var s := TrimText(line);
    if s == "" {
      return None, "";
    }
    var pos := 0;
    while pos < |s| && s[pos] != ' '
      invariant pos <= |s|
      invariant forall i :: 0 <= i < pos ==> s[i] != ' '
    {
      pos := pos + 1;
    }
    UntilExact(s, c => c == ' ', pos);
    if pos == |s| {
      return Some(s), "";
    }
    rest := TrimText(s[pos + 1..]);
    op := Some(s[..pos]);
  }

  lemma {:induction false} AllBlankTrims(s: string)
    ensures AllBlank(s) <==> Trim(s) == ""
    decreases |s|
  {
    if s != "" && IsBlank(s[0]) {
      AllBlankTrims(s[1..]);
      assert forall i :: 1 <= i < |s| ==> s[i] == s[1..][i - 1];
    } else if s != "" && IsBlank(s[|s| - 1]) {
      AllBlankTrims(s[..|s| - 1]);
    }
  }

  /** Of a line the operation is what stands before the first space, tabs included, whatever blank
      surrounds the line and separates it from the rest; a blank line has none. */
  lemma FirstFieldIs(a: string, op: string, gap: string, rest: string, b: string)
    requires AllBlank(a) && AllBlank(gap) && AllBlank(b)
    requires op != "" && ' ' !in op && !IsBlank(op[0]) && Tight(rest)
    ensures rest != "" ==> FirstField(a + op + (" " + gap + rest) + b) == Some((op, rest))
    ensures !IsBlank(op[|op| - 1]) ==> FirstField(a + op + b) == Some((op, ""))
    ensures FirstField(a) == None
  {
    hide Trim, Until;
    AllBlankTrims(a);
    if !IsBlank(op[|op| - 1]) {
      TrimExact(a, op, b);
      UntilExact(op, c => c == ' ', |op|);
    }
    if rest != "" {
      var tail := gap + rest;
      var s := op + " " + tail;
      assert s[|s| - 1] == rest[|rest| - 1] && s[0] == op[0];
      assert a + op + (" " + gap + rest) + b == a + s + b;
      TrimExact(a, s, b);
      UntilExact(s, c => c == ' ', |op|);
      assert s[..|op|] == op && s[|op| + 1..] == tail == gap + rest + "";
      TrimExact(gap, rest, "");
    }
  }

  // -- fields ------------------------------------------------------------------------------------

  function SplitFields(s: string): (fields: seq<string>)
    ensures forall i :: 0 <= i < |fields| ==> IsWord(fields[i])
    decreases |s|
  {
    if s == "" then []
    else if IsSpace(s[0]) then SplitFields(s[1..])
    else
      var n := Until(s, IsSpace);
      [s[..n]] + SplitFields(s[n..])
  }

  lemma NextSpace(s: string, pos: nat)
    requires pos < |s| && IsSpace(s[pos])
    ensures SplitFields(s[pos..]) == SplitFields(s[pos + 1..])
  {
    assert s[pos..][1..] == s[pos + 1..];
  }

  lemma NextWord(s: string, from: nat, to: nat)
    requires from < to <= |s| && (forall i :: from <= i < to ==> !IsSpace(s[i])) && (to < |s| ==> IsSpace(s[to]))
    ensures SplitFields(s[from..]) == [s[from..to]] + SplitFields(s[to..])
  {
    var t := s[from..];
    UntilExact(t, IsSpace, to - from);
    assert t[..to - from] == s[from..to] && t[to - from..] == s[to..];
  }

  method Fields(s: string) returns (out: seq<string>)
    ensures out == SplitFields(s)
  {
    hide SplitFields;
    out := [];
    var pos := 0;
    assert s[0..] == s;
    while pos < |s|
      invariant pos <= |s|
      invariant SplitFields(s) == out + SplitFields(s[pos..])
    {
      if IsSpace(s[pos]) {
        NextSpace(s, pos);
        pos := pos + 1;
      } else {
        var from := pos;
        while pos < |s| && !IsSpace(s[pos])
          invariant from <= pos <= |s|
          invariant forall i :: from <= i < pos ==> !IsSpace(s[i])
        {
          pos := pos + 1;
        }
        NextWord(s, from, pos);
        assert out + ([s[from..pos]] + SplitFields(s[pos..])) == (out + [s[from..pos]]) + SplitFields(s[pos..]);
        out := out + [s[from..pos]];
      }
    }
    NoFields(s[pos..]);
  }

  lemma NoFields(s: string)
    requires s == ""
    ensures SplitFields(s) == []
  {
  }

  /** Each field preceded by a gap. */
  function Spaced(gaps: seq<string>, fields: seq<string>): string
    requires |gaps| == |fields|
  {
    if fields == [] then "" else gaps[0] + fields[0] + Spaced(gaps[1..], fields[1..])
  }

  lemma {:induction false} SkipSpaces(gap: string, s: string)
    requires AllSpace(gap)
    ensures SplitFields(gap + s) == SplitFields(s)
  {
    if gap == "" {
      assert gap + s == s;
    } else {
      assert (gap + s)[1..] == gap[1..] + s;
      SkipSpaces(gap[1..], s);
    }
  }

  /** Fields come back whatever spaces were put between them. */
  lemma {:induction false} FieldsComeBack(gaps: seq<string>, fields: seq<string>)
    requires |gaps| == |fields|
    requires forall i :: 0 <= i < |fields| ==> IsWord(fields[i])
    requires forall i :: 0 <= i < |gaps| ==> AllSpace(gaps[i]) && (i > 0 ==> gaps[i] != "")
    ensures SplitFields(Spaced(gaps, fields)) == fields
  {
    if fields != [] {
      var f, rest := fields[0], Spaced(gaps[1..], fields[1..]);
      assert gaps[0] + f + rest == gaps[0] + (f + rest);
      SkipSpaces(gaps[0], f + rest);
      FollowedBySpace(gaps[1..], fields[1..]);
      UntilExact(f + rest, IsSpace, |f|);
      assert (f + rest)[..|f|] == f && (f + rest)[|f|..] == rest;
      FieldsComeBack(gaps[1..], fields[1..]);
    }
  }

  lemma FollowedBySpace(gaps: seq<string>, fields: seq<string>)
    requires |gaps| == |fields|
    requires forall i :: 0 <= i < |gaps| ==> AllSpace(gaps[i]) && gaps[i] != ""
    ensures Spaced(gaps, fields) != "" ==> IsSpace(Spaced(gaps, fields)[0])
  {
  }

  // -- generated ids and keys --------------------------------------------------------------------

  function Digit(d: nat): (c: char)
    requires d < 10
    ensures '0' <= c <= '9'
  {
    (('0' as int) + d) as char
  }

  /** `std::to_string` of an unsigned number. */
  function Decimal(n: nat): (s: string)
    ensures ValidToken(s) && forall i :: 0 <= i < |s| ==> '0' <= s[i] <= '9'
  {
    if n < 10 then [Digit(n)] else Decimal(n / 10) + [Digit(n % 10)]
  }

  lemma {:induction false} DecimalInjective(m: nat, n: nat)
    requires Decimal(m) == Decimal(n)
    ensures m == n
  {
    var s, t := Decimal(m), Decimal(n);
    assert s[|s| - 1] == Digit(m % 10) && t[|t| - 1] == Digit(n % 10);
    if m >= 10 && n >= 10 {
      assert s[..|s| - 1] == Decimal(m / 10) && t[..|t| - 1] == Decimal(n / 10);
      DecimalInjective(m / 10, n / 10);
    }
  }

  function GenId(n: nat): (id: string)
    ensures ValidToken(id)
  {
    "xsub." + Decimal(n)
  }

  /** A generated id is `xsub.` and the decimal digits of its number. */
  lemma GenIdIs(n: nat, d: nat)
    requires d < 10
    ensures GenId(d) == "xsub." + [NUMERALS[d]]
    ensures n > 0 ==> GenId(10 * n + d) == GenId(n) + [NUMERALS[d]]
  {
    assert Digit(d) == NUMERALS[d];
    if n > 0 {
      assert (10 * n + d) / 10 == n && (10 * n + d) % 10 == d;
      assert "xsub." + (Decimal(n) + [Digit(d)]) == "xsub." + Decimal(n) + [Digit(d)];
    }
  }

  lemma GenIdInjective(m: nat, n: nat)
    requires GenId(m) == GenId(n)
    ensures m == n
  {
    assert GenId(m)[5..] == Decimal(m) && GenId(n)[5..] == Decimal(n);
    DecimalInjective(m, n);
  }

  /** Type names are XML names, and stream ids are tokens: neither holds a newline. */
  type OneLine = s: string | '\n' !in s

  function Key(stream: string, topic: string, message: string): string {
    stream + "\n" + topic + "\n" + message
  }

  /** A stream's keys are exactly those that start with the stream and a newline. */
  lemma KeyPrefix(stream: OneLine, s: OneLine, topic: string, message: string)
    ensures stream + "\n" <= Key(s, topic, message) <==> stream == s
  {
    var k := Key(s, topic, message);
    assert k == s + "\n" + (topic + "\n" + message);
    assert k[..|s|] == s;
    if stream + "\n" <= k {
      var p := stream + "\n";
      assert p[|stream|] == k[|stream|];
      assert forall i :: 0 <= i < |stream| ==> stream[i] == p[i] == k[i];
      UntilExact(k, c => c == '\n', |stream|);
      UntilExact(k, c => c == '\n', |s|);
      assert stream == k[..|stream|];
    }
  }

  /** The newline-joined key names one (stream, topic, message); the topic may hold anything. */
  lemma KeyInjective(s: OneLine, t: string, m: OneLine, s': OneLine, t': string, m': OneLine)
    requires Key(s, t, m) == Key(s', t', m')
    ensures s == s' && t == t' && m == m'
  {
    var k := Key(s, t, m);
    assert s + "\n" <= k by { assert k == (s + "\n") + (t + "\n" + m); }
    KeyPrefix(s, s', t', m');
    assert k[|s| + 1..] == t + "\n" + m == t' + "\n" + m';
    var r := t + "\n" + m;
    assert r[|t|] == '\n' && r[|t'|] == '\n';
    assert r[|t| + 1..] == m && r[|t'| + 1..] == m';
    assert forall j :: |t| < j < |r| ==> r[j] == m[j - |t| - 1];
    assert forall j :: |t'| < j < |r| ==> r[j] == m'[j - |t'| - 1];
    assert t == r[..|t|] && t' == r[..|t'|];
  }

  /** The text around a newline. */
  lemma AtNewline(s: string) returns (before: string, after: string)
    requires '\n' in s
    ensures s == before + "\n" + after
  {
    var k :| 0 <= k < |s| && s[k] == '\n';
    before, after := s[..k], s[k + 1..];
  }

  /** A key of a stream can be that of another topic and message exactly when its topic or its
      message holds a newline. */
  lemma KeyCollidesIff(s: OneLine, t: string, m: string)
    ensures (exists t', m' :: (t', m') != (t, m) && Key(s, t', m') == Key(s, t, m)) <==> '\n' in t || '\n' in m
  {
    if '\n' in t {
      var a, b := AtNewline(t);
      assert Key(s, a, b + "\n" + m) == s + "\n" + (a + "\n" + b) + "\n" + m;
      assert |a| < |t|;
    } else if '\n' in m {
      var a, b := AtNewline(m);
      assert Key(s, t + "\n" + a, b) == s + "\n" + t + "\n" + (a + "\n" + b);
      assert |t + "\n" + a| > |t|;
    } else {
      forall t', m' | Key(s, t', m') == Key(s, t, m)
        ensures t' == t && m' == m
      {
        OneSplit(s, t, m, t', m');
      }
    }
  }

  /** With one newline only there is one way to cut. */
  lemma OneSplit(s: string, t: string, m: string, t': string, m': string)
    requires '\n' !in t && '\n' !in m && Key(s, t', m') == Key(s, t, m)
    ensures t' == t && m' == m
  {
    var k, r, r' := Key(s, t, m), t + "\n" + m, t' + "\n" + m';
    assert k == s + "\n" + r == s + "\n" + r';
    assert k[|s| + 1..] == r == r';
    assert r'[|t'|] == '\n';
    assert forall j :: 0 <= j < |t| ==> r[j] == t[j];
    assert forall j :: |t| < j < |r| ==> r[j] == m[j - |t| - 1];
    assert |t'| == |t|;
    assert t == r[..|t|] && m == r[|t| + 1..] && t' == r'[..|t'|] && m' == r'[|t'| + 1..];
  }
}
