/** The command lines a session understands: every command that parsing can yield has a spelling. */
module SessionCommands {
  import opened Results
  import opened Protocol
  import opened Session

  predicate Spellable(c: Command) {
    match c
    case XSubscribe(x) => ValidToken(x.stream) && IsWord(x.topicPattern) && IsWord(x.messagePattern)
    case XUnsubscribe(stream) => ValidToken(stream)
    case Subscribe(id, message, topic) => ValidToken(id) && IsWord(message) && ValidToken(topic)
    case Unsubscribe(id) => ValidToken(id)
    case Refused(reason) => reason != UnsupportedVersion
    case _ => true
  }

  function Line2(op: string, a: string): string {
    op + " " + a
  }

  function Spell(c: Command): string {
    match c
    case Blank => ""
    case Init => "INIT"
    case XSubscribe(x) => Line2("XSUB", x.stream + " " + x.topicPattern + " " + x.messagePattern)
    case XUnsubscribe(stream) => Line2("XUNSUB", stream)
    case Subscribe(id, message, topic) => Line2("SUB", id + " " + message + " " + topic)
    case Unsubscribe(id) => Line2("UNSUB", id)
    case Refused(reason) => if reason == IllegalState then "PUB" else "?"
  }

  lemma OperationComesBack(op: string, args: string)
    requires IsWord(op) && args != "" && Tight(args)
    ensures FirstField(Line2(op, args)) == Some((op, args))
  {
    hide Trim, Until;
    var s := Line2(op, args);
    TrimExact("", s, "");
    assert "" + s + "" == s;
    UntilExact(s, c => c == ' ', |op|);
    TrimExact("", args, "");
    assert "" + args + "" == args;
    assert s[..|op|] == op && s[|op| + 1..] == args;
  }

  lemma LoneOperation(op: string)
    requires IsWord(op)
    ensures FirstField(op) == Some((op, ""))
  {
    TrimExact("", op, "");
    assert "" + op + "" == op;
    UntilExact(op, c => c == ' ', |op|);
  }

  lemma OneField(a: string)
    requires IsWord(a)
    ensures SplitFields(a) == [a]
  {
    FieldsComeBack([""], [a]);
    assert Spaced([""], [a]) == a;
  }

  lemma ThreeFields(a: string, b: string, c: string)
    requires IsWord(a) && IsWord(b) && IsWord(c)
    ensures SplitFields(a + " " + b + " " + c) == [a, b, c]
  {
    var gaps, fields := ["", " ", " "], [a, b, c];
    assert gaps[1..] == [" ", " "] && fields[1..] == [b, c];
    assert gaps[1..][1..] == [" "] && fields[1..][1..] == [c];
    assert [" "][1..] == [] && [c][1..] == [];
    assert Spaced([" "], [c]) == " " + c;
    assert Spaced([" ", " "], [b, c]) == " " + b + (" " + c);
    assert Spaced(gaps, fields) == "" + a + (" " + b + (" " + c));
    assert a + " " + b + " " + c == "" + a + (" " + b + (" " + c));
    FieldsComeBack(gaps, fields);
  }

  /** Parsing undoes spelling. */
  lemma SpelledParses(c: Command)
    requires Spellable(c)
    ensures Parse(Spell(c)) == c
  {
    hide FirstField, SplitFields, ValidToken;
    match c
    case Blank => BlankLine();
    case Init => LoneOperation("INIT");
    case XSubscribe(x) => XSubscribeParses(x);
    case XUnsubscribe(stream) => OneFieldParses(stream);
    case Subscribe(id, message, topic) => SubscribeParses(id, message, topic);
    case Unsubscribe(id) => OneFieldParses(id);
    case Refused(reason) =>
      LoneOperation("PUB");
      LoneOperation("?");
  }

  lemma TokenIsWord(s: string)
    requires ValidToken(s)
    ensures IsWord(s)
  {
  }

  lemma ThreeFieldsTight(a: string, b: string, c: string)
    requires IsWord(a) && IsWord(b) && IsWord(c)
    ensures Tight(a + " " + b + " " + c) && a + " " + b + " " + c != ""
  {
  }

  lemma XSubscribeParses(x: XSub)
    requires ValidToken(x.stream) && IsWord(x.topicPattern) && IsWord(x.messagePattern)
    ensures Parse(Spell(XSubscribe(x))) == XSubscribe(x)
  {
    hide FirstField, SplitFields, ValidToken;
    TokenIsWord(x.stream);
    ThreeFieldsTight(x.stream, x.topicPattern, x.messagePattern);
    OperationComesBack("XSUB", x.stream + " " + x.topicPattern + " " + x.messagePattern);
    ThreeFields(x.stream, x.topicPattern, x.messagePattern);
  }

  lemma SubscribeParses(id: string, message: string, topic: string)
    requires ValidToken(id) && IsWord(message) && ValidToken(topic)
    ensures Parse(Spell(Subscribe(id, message, topic))) == Subscribe(id, message, topic)
  {
    hide FirstField, SplitFields, ValidToken;
    TokenIsWord(id);
    TokenIsWord(topic);
    ThreeFieldsTight(id, message, topic);
    OperationComesBack("SUB", id + " " + message + " " + topic);
    ThreeFields(id, message, topic);
  }

  lemma OneFieldParses(a: string)
    requires ValidToken(a)
    ensures Parse(Spell(Unsubscribe(a))) == Unsubscribe(a)
    ensures Parse(Spell(XUnsubscribe(a))) == XUnsubscribe(a)
  {
    hide FirstField, SplitFields, ValidToken;
    TokenIsWord(a);
    OperationComesBack("UNSUB", a);
    OperationComesBack("XUNSUB", a);
    OneField(a);
  }

  lemma BlankLine()
    ensures FirstField("") == None
  {
  }

  /** Every line parses to something spellable, so `Spell` reaches all that `Parse` yields. */
  lemma ParsedIsSpellable(payload: string)
    ensures Spellable(Parse(payload)) && Parse(Spell(Parse(payload))) == Parse(payload)
  {
    SpelledParses(Parse(payload));
  }

  // -- any spelling --------------------------------------------------------------------------------

  /** Words with spaces between them. */
  predicate Words(gaps: seq<string>, fields: seq<string>) {
    && fields != [] && |gaps| == |fields| && gaps[0] == ""
    && (forall i :: 0 <= i < |fields| ==> IsWord(fields[i]))
    && forall i :: 0 < i < |gaps| ==> AllSpace(gaps[i]) && gaps[i] != ""
  }

  lemma {:induction false} SpacedTight(gaps: seq<string>, fields: seq<string>)
    requires fields != [] && |gaps| == |fields|
    requires forall i :: 0 <= i < |fields| ==> IsWord(fields[i])
    ensures Spaced(gaps, fields) != "" && !IsBlank(Spaced(gaps, fields)[|Spaced(gaps, fields)| - 1])
    ensures gaps[0] == "" ==> !IsBlank(Spaced(gaps, fields)[0])
  {
    if |fields| > 1 {
      SpacedTight(gaps[1..], fields[1..]);
      var s, t := Spaced(gaps, fields), Spaced(gaps[1..], fields[1..]);
      assert s == gaps[0] + fields[0] + t && s[|s| - 1] == t[|t| - 1];
    } else {
      assert Spaced(gaps[1..], fields[1..]) == "";
      assert Spaced(gaps, fields) == gaps[0] + fields[0];
    }
  }

  /** What the fields of a command say: how many there may be, which must be tokens, and that a
      message pattern left out is `*`. */
  lemma CommandIs(a: string, op: string, gap: string, gaps: seq<string>, fields: seq<string>, b: string)
    requires AllBlank(a) && AllBlank(gap) && AllBlank(b) && IsWord(op) && Words(gaps, fields)
    ensures var c := Parse(a + op + (" " + gap + Spaced(gaps, fields)) + b);
      && (op == "INIT" ==> c == Init)
      && (op == "XSUB" ==>
           if |fields| == 2 && ValidToken(fields[0]) then c == XSubscribe(XSub(fields[0], fields[1], "*"))
           else if |fields| == 3 && ValidToken(fields[0]) then c == XSubscribe(XSub(fields[0], fields[1], fields[2]))
           else c == Refused(IllegalArgument))
      && (op == "SUB" ==>
           if (|fields| == 3 || (|fields| == 4 && ValidToken(fields[3]))) && ValidToken(fields[0]) && ValidToken(fields[2])
           then c == Subscribe(fields[0], fields[1], fields[2])
           else c == Refused(IllegalArgument))
      && (op == "UNSUB" ==> c == if |fields| == 1 && ValidToken(fields[0]) then Unsubscribe(fields[0]) else Refused(IllegalArgument))
      && (op == "XUNSUB" ==> c == if |fields| == 1 && ValidToken(fields[0]) then XUnsubscribe(fields[0]) else Refused(IllegalArgument))
      && (op == "PUB" ==> c == Refused(IllegalState))
      && (op !in ["INIT", "XSUB", "SUB", "UNSUB", "XUNSUB", "PUB"] ==> c == Refused(IllegalArgument))
  {
    hide FirstField, SplitFields, ValidToken, Spaced;
    SpacedTight(gaps, fields);
    FirstFieldIs(a, op, gap, Spaced(gaps, fields), b);
    FieldsComeBack(gaps, fields);
  }
}
