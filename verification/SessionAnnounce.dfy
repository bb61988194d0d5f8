/** A wildcard MSG is announced first, over every run of a session. */
module SessionAnnounce {
  import opened Protocol
  import opened Session
  import opened SessionWrites
  import opened SessionIds

  // -- what is promised ---------------------------------------------------------------------------

  /** The XSUBINFO line that must come before a wildcard MSG. */
  function Announcement(line: Line): Line
    requires line.Msg? && line.origin.Wildcard?
  {
    XSubInfo(line.origin.stream, line.id, line.sample.topic, line.sample.message)
  }

  predicate IsWildcard(line: Line) {
    line.Msg? && line.origin.Wildcard?
  }

  /** Every wildcard MSG comes after the announcement of its id for the topic and message it carries. */
  predicate Announced(lines: seq<Line>) {
    forall j :: 0 <= j < |lines| && IsWildcard(lines[j]) ==> Announcement(lines[j]) in lines[..j]
  }

  /** No id is announced twice. */
  predicate OncePerId(lines: seq<Line>) {
    forall i, j :: 0 <= i < j < |lines| && lines[i].XSubInfo? && lines[j].XSubInfo? ==> lines[i].id != lines[j].id
  }

  // -- what keeps it ---------------------------------------------------------------------------------

  function InfoLine(issued: seq<Issue>, k: nat): Line
    requires k < |issued|
  {
    XSubInfo(issued[k].stream, GenId(k + 1), issued[k].topic, issued[k].message)
  }

  ghost predicate IsIssued(issued: seq<Issue>, line: Line) {
    exists k: nat :: k < |issued| && line == InfoLine(issued, k)
  }

  predicate Carries(a: Act) {
    a.Check? || a.Post?
  }

  /** A carried XSUBINFO is the next act and is new; a carried wildcard MSG has an issued id, and
      once its check has passed its announcement has been posted. */
  ghost predicate ActOk(s: Session, i: nat)
    requires i < |s.pass|
  {
    var a := s.pass[i];
    Carries(a) ==>
      && (a.line.Msg? || a.line.XSubInfo?)
      && (a.line.XSubInfo? ==> i == 0 && IsIssued(s.tables.issued, a.line) && a.line !in s.wire.posted)
      && (IsWildcard(a.line) ==> IsIssued(s.tables.issued, Announcement(a.line)))
      && (IsWildcard(a.line) && a.Post? ==> Announcement(a.line) in s.wire.posted)
  }

  /** An issued id has been announced, or is about to be, or never will because the client closed. */
  predicate Told(s: Session, k: nat)
    requires k < |s.tables.issued|
  {
    var line := InfoLine(s.tables.issued, k);
    line in s.wire.posted || !s.open || (s.pass != [] && Carries(s.pass[0]) && s.pass[0].line == line)
  }

  predicate HandlerReplies(handler: seq<Todo>) {
    forall i :: 0 <= i < |handler| ==> handler[i].Send? ==> IsReply(handler[i].line)
  }

  ghost predicate PostedOk(s: Session) {
    && Announced(s.wire.posted) && OncePerId(s.wire.posted)
    && forall line :: line in s.wire.posted && line.XSubInfo? ==> IsIssued(s.tables.issued, line)
  }

  ghost predicate AnnounceInv(s: Session) {
    && IdInv(s.tables)
    && HandlerReplies(s.handler)
    && PostedOk(s)
    && (forall i :: 0 <= i < |s.pass| ==> ActOk(s, i))
    && (forall k: nat :: k < |s.tables.issued| ==> Told(s, k))
  }

  // -- steps of the asio thread --------------------------------------------------------------------------

  /** What an asio step does to what this file is about. */
  predicate AsioFrame(s: Session, t: Session) {
    && t.tables.issued == s.tables.issued
    && (t.open ==> s.open)
    && (t.pass == s.pass || (s.pass == [] && |t.pass| == 1 && t.pass[0].Look?))
    && ( t.wire.posted == s.wire.posted
       || (t.wire.posted != [] && t.wire.posted == s.wire.posted + [t.wire.posted[|t.wire.posted| - 1]]
           && IsReply(t.wire.posted[|t.wire.posted| - 1])))
    && HandlerReplies(t.handler)
  }

  lemma HandleFrames(s: Session, c: Command, init: InitArgument)
    requires s.handler == []
    ensures AsioFrame(s, Handle(s, c, init))
  {
    hide WithoutStream, GenId, Key;
  }

  lemma AsioStepFrames(s: Session, e: Event)
    requires !e.Deliver? && HandlerReplies(s.handler)
    ensures AsioFrame(s, Step(s, e))
  {
    hide Parse, Handle, GenId, Key;
    match e
    case Received(payload, init) => if !Busy(s) { HandleFrames(s, Parse(payload), init); }
    case Resume =>
      if Busy(s) { assert forall i :: 0 < i < |s.handler| ==> s.handler[1..][i - 1] == s.handler[i]; }
    case _ =>
  }

  lemma FrameKeeps(s: Session, t: Session)
    requires AnnounceInv(s) && AsioFrame(s, t) && IdInv(t.tables)
    ensures AnnounceInv(t)
  {
    hide GenId, Key, IdInv;
    assert forall line :: line in s.wire.posted ==> line in t.wire.posted;
    assert forall line :: line in t.wire.posted && !IsReply(line) ==> line in s.wire.posted;
    assert forall j :: 0 <= j < |s.wire.posted| ==> t.wire.posted[..j] == s.wire.posted[..j];
    forall i | 0 <= i < |t.pass|
      ensures ActOk(t, i)
    {
      if s.pass != [] { assert ActOk(s, i); }
    }
    forall k: nat | k < |t.tables.issued|
      ensures Told(t, k)
    {
      assert Told(s, k);
    }
  }

  // -- steps of a delivery pass ------------------------------------------------------------------------------

  lemma ToldKept(s: Session, t: Session)
    requires forall k: nat :: k < |s.tables.issued| ==> Told(s, k)
    requires t.tables.issued == s.tables.issued && (t.open ==> s.open)
    requires forall line :: line in s.wire.posted ==> line in t.wire.posted
    requires
      s.pass == [] || !Carries(s.pass[0]) || !s.pass[0].line.XSubInfo? || !s.open || s.pass[0].line in t.wire.posted
      || (t.pass != [] && Carries(t.pass[0]) && t.pass[0].line == s.pass[0].line)
    ensures forall k: nat :: k < |t.tables.issued| ==> Told(t, k)
  {
    forall k: nat | k < |t.tables.issued|
      ensures Told(t, k)
    {
      assert Told(s, k);
    }
  }

  lemma SnapshotActOk(s: Session, i: nat)
    requires i < |s.pass|
    requires s.pass[i].Ensure? || (s.pass[i].Check? && s.pass[i].line.Msg? && s.pass[i].line.origin.Standard?)
    ensures ActOk(s, i)
  {
  }

  /** An act that moves to another place, or stands where it stood, in an otherwise unchanged session. */
  lemma ActOkMoves(s: Session, t: Session, k: nat, i: nat)
    requires k < |s.pass| && i < |t.pass| && t.pass[i] == s.pass[k] && t == s.(pass := t.pass)
    requires ActOk(s, k) && k > 0
    ensures ActOk(t, i)
  {
  }

  lemma LookKeeps(s: Session, order: seq<string>)
    requires AnnounceInv(s) && s.pass != [] && s.pass[0].Look?
    ensures AnnounceInv(Advance(s, order))
  {
    hide GenId, Key, IdInv, PostedOk, IsIssued, ActOk, Told, StandardActs, WildcardActs, Enumerates;
    var t, subs, sample := Advance(s, order), s.tables.subs, s.pass[0].sample;
    if Enumerates(order, subs.Keys) {
      OrderOfKeys(order, subs.Keys);
      ActsSend(subs, order, s.tables.xsubs, sample);
      var a, b := StandardActs(subs, order, sample), WildcardActs(s.tables.xsubs, sample);
      assert t.pass == a + b + s.pass[1..];
      forall i | 0 <= i < |t.pass|
        ensures ActOk(t, i)
      {
        if i >= |a| + |b| {
          ActOkMoves(s, t, i - |a| - |b| + 1, i);
        } else {
          assert if i < |a| then t.pass[i] in a else t.pass[i] in b;
          SnapshotActOk(t, i);
        }
      }
      ToldKept(s, t);
      assert PostedOk(t) by { SamePosted(s, t); }
    }
  }

  lemma OrderOfKeys(order: seq<string>, keys: set<string>)
    requires Enumerates(order, keys)
    ensures forall i :: 0 <= i < |order| ==> order[i] in keys
  {
  }

  lemma SamePosted(s: Session, t: Session)
    requires PostedOk(s) && t == s.(pass := t.pass)
    ensures PostedOk(t)
  {
  }

  lemma CheckKeeps(s: Session, order: seq<string>)
    requires AnnounceInv(s) && s.pass != [] && s.pass[0].Check?
    ensures AnnounceInv(Advance(s, order))
  {
    hide GenId, Key, IdInv, Announced, OncePerId;
    var t, line := Advance(s, order), s.pass[0].line;
    assert ActOk(s, 0);
    if s.open && IsWildcard(line) {
      var k: nat :| k < |s.tables.issued| && Announcement(line) == InfoLine(s.tables.issued, k);
      assert Told(s, k);
    }
    forall i | 0 <= i < |t.pass|
      ensures ActOk(t, i)
    {
      var j := if s.open then i else i + 1;
      assert ActOk(s, j);
    }
    ToldKept(s, t);
  }

  lemma PostKeepsAnnounced(s: Session, order: seq<string>)
    requires AnnounceInv(s) && s.pass != [] && s.pass[0].Post?
    ensures AnnounceInv(Advance(s, order))
  {
    hide GenId, Key, IdInv;
    var t, line, issued := Advance(s, order), s.pass[0].line, s.tables.issued;
    var old_, new_ := s.wire.posted, t.wire.posted;
    assert ActOk(s, 0);
    assert forall j :: 0 <= j < |old_| ==> new_[..j] == old_[..j];
    assert new_[..|old_|] == old_;
    forall x | x in new_ && x.XSubInfo? && x != line && line.XSubInfo?
      ensures x.id != line.id
    {
      assert x in old_;
      var j: nat :| j < |issued| && x == InfoLine(issued, j);
      var k: nat :| k < |issued| && line == InfoLine(issued, k);
      if x.id == line.id { GenIdInjective(j + 1, k + 1); }
    }
    assert OncePerId(new_);
    assert PostedOk(t);
    forall i | 0 <= i < |t.pass|
      ensures ActOk(t, i)
    {
      assert ActOk(s, i + 1);
    }
    ToldKept(s, t);
  }

  lemma EnsureKeeps(s: Session, order: seq<string>)
    requires AnnounceInv(s) && s.pass != [] && s.pass[0].Ensure?
    ensures AnnounceInv(Advance(s, order))
  {
    hide GenId, Key;
    var t, stream, sample := Advance(s, order), s.pass[0].stream, s.pass[0].sample;
    var key := Key(stream, sample.topic, sample.message);
    if key in s.tables.concrete {
      var k: nat :| Backed(s.tables, key, k);
      var i := s.tables.issued[k];
      KeyInjective(stream, sample.topic, sample.message, i.stream, i.topic, i.message);
      assert Announcement(t.pass[0].line) == InfoLine(s.tables.issued, k);
      FoundKeeps(s, t);
    } else {
      IssuedKeeps(s.tables, stream, sample.topic, sample.message);
      NewKeeps(s, t);
    }
  }

  lemma FoundKeeps(s: Session, t: Session)
    requires AnnounceInv(s) && s.pass != [] && s.pass[0].Ensure?
    requires t.pass != [] && t == s.(pass := [t.pass[0]] + s.pass[1..])
    requires t.pass[0].Check? && IsWildcard(t.pass[0].line)
    requires IsIssued(s.tables.issued, Announcement(t.pass[0].line))
    ensures AnnounceInv(t)
  {
    hide GenId, Key, IdInv, Announced, OncePerId, IsIssued;
    forall i | 0 <= i < |t.pass|
      ensures ActOk(t, i)
    {
      assert ActOk(s, i);
    }
    ToldKept(s, t);
  }

  lemma NewKeeps(s: Session, t: Session)
    requires AnnounceInv(s) && s.pass != [] && s.pass[0].Ensure? && IdInv(t.tables)
    requires |t.tables.issued| == |s.tables.issued| + 1 && s.tables.issued <= t.tables.issued
    requires |t.pass| == |s.pass| + 1 && t.pass[2..] == s.pass[1..]
    requires t == s.(pass := t.pass, tables := t.tables)
    requires t.pass[0].Check? && t.pass[0].line == InfoLine(t.tables.issued, |s.tables.issued|)
    requires t.pass[1].Check? && IsWildcard(t.pass[1].line) && Announcement(t.pass[1].line) == t.pass[0].line
    ensures AnnounceInv(t)
  {
    hide Key, IdInv;
    var issued, line := s.tables.issued, t.pass[0].line;
    forall x | IsIssued(issued, x)
      ensures IsIssued(t.tables.issued, x)
    {
      var k: nat :| k < |issued| && x == InfoLine(issued, k);
      assert x == InfoLine(t.tables.issued, k);
    }
    assert IsIssued(t.tables.issued, line);
    assert line !in s.wire.posted by {
      if line in s.wire.posted {
        var k: nat :| k < |issued| && line == InfoLine(issued, k);
        GenIdInjective(k + 1, |issued| + 1);
      }
    }
    forall i | 0 <= i < |t.pass|
      ensures ActOk(t, i)
    {
      if i >= 2 {
        assert t.pass[i] == t.pass[2..][i - 2] == s.pass[1..][i - 2] == s.pass[i - 1];
        assert ActOk(s, i - 1);
      }
    }
    forall k: nat | k < |t.tables.issued|
      ensures Told(t, k)
    {
      if k < |issued| { assert Told(s, k); }
    }
  }

  lemma AnnounceStep(s: Session, e: Event)
    requires AnnounceInv(s)
    ensures AnnounceInv(Step(s, e))
  {
    hide GenId, Key, PostedOk, IdInv, ActOk, Told, Advance, AsioStep, Continue;
    if e.Deliver? && s.pass != [] {
      match s.pass[0]
      case Look(_) => LookKeeps(s, e.order);
      case Check(_) => CheckKeeps(s, e.order);
      case Post(_) => PostKeepsAnnounced(s, e.order);
      case Ensure(_, _) => EnsureKeeps(s, e.order);
    } else if !e.Deliver? {
      TablesStep(s, e);
      AsioStepFrames(s, e);
      FrameKeeps(s, Step(s, e));
    }
  }

  lemma {:induction false} AnnounceKept(s: Session, es: seq<Event>)
    requires AnnounceInv(s)
    ensures AnnounceInv(Run(s, es))
    decreases |es|
  {
    hide Step, AnnounceInv;
    if es != [] {
      AnnounceStep(s, es[0]);
      AnnounceKept(Step(s, es[0]), es[1..]);
    }
  }

  /** Over every run, whatever is subscribed, unsubscribed and subscribed again: a wildcard MSG
      comes after the XSUBINFO line that names its id, topic and message, and no id is announced
      twice. */
  lemma WildcardAnnouncedFirst(es: seq<Event>)
    ensures Announced(Run(Start(), es).wire.posted) && OncePerId(Run(Start(), es).wire.posted)
  {
    AnnounceKept(Start(), es);
  }
}
