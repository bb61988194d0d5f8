/** Where MSG lines come from, over every run of a session: each answers a subscription that
    matches it, and an erased standard subscription yields at most one more. */
module SessionOrigins {
  import opened Protocol
  import opened Session
  import opened SessionWrites
  import opened SessionIds
  import opened SessionAnnounce
  import Glob

  // -- every line answers a subscription ------------------------------------------------------------

  predicate Selects(x: XSub, stream: OneLine, topic: string, message: string) {
    x.stream == stream && Glob.Glob(x.topicPattern, topic) && Glob.Glob(x.messagePattern, message)
  }

  ghost predicate AnyWild(wild: seq<XSub>, stream: OneLine, topic: string, message: string) {
    exists x :: x in wild && Selects(x, stream, topic, message)
  }

  /** The subscription that a line answers was made before, and it matches. */
  ghost predicate Solicited(t: Tables, line: Line) {
    match line
    case Msg(id, sample, Standard(k)) =>
      k < |t.made| && t.made[k] == StandardSub(id, sample.message, sample.topic, k)
    case Msg(_, sample, Wildcard(stream)) => AnyWild(t.wild, stream, sample.topic, sample.message)
    case XSubInfo(stream, _, topic, message) => AnyWild(t.wild, stream, topic, message)
    case _ => true
  }

  ghost predicate ActSolicited(t: Tables, a: Act) {
    match a
    case Look(_) => true
    case Check(line) => Solicited(t, line)
    case Post(line) => Solicited(t, line)
    case Ensure(stream, sample) => AnyWild(t.wild, stream, sample.topic, sample.message)
  }

  predicate TablesOk(t: Tables) {
    && (forall id :: id in t.subs ==> t.subs[id].id == id && t.subs[id].serial < |t.made| && t.made[t.subs[id].serial] == t.subs[id])
    && (forall x :: x in t.xsubs ==> x in t.wild)
  }

  ghost predicate OriginInv(s: Session) {
    && TablesOk(s.tables)
    && (forall a :: a in s.pass ==> ActSolicited(s.tables, a))
    && (forall line :: line in s.wire.posted ==> Solicited(s.tables, line))
    && HandlerReplies(s.handler)
  }

  lemma GrownSolicits(t: Tables, u: Tables, line: Line)
    requires TablesGrow(t, u) && Solicited(t, line)
    ensures Solicited(u, line)
  {
    assert forall x :: x in t.wild ==> x in u.wild;
  }

  lemma HandleTables(s: Session, c: Command, init: InitArgument)
    requires TablesOk(s.tables)
    ensures TablesOk(Handle(s, c, init).tables)
  {
    hide GenId, Key, WithoutStream;
    if c.XUnsubscribe? { FilterExact(s.tables.xsubs, c.stream); }
  }

  lemma AsioKeepsOrigins(s: Session, e: Event)
    requires OriginInv(s) && !e.Deliver?
    ensures OriginInv(Step(s, e))
  {
    hide GenId, Key, TablesOk, Parse, Handle, Solicited, Enqueue, FinishWrite;
    var t := Step(s, e);
    AsioStepFrames(s, e);
    StepGrows(s, e);
    assert TablesOk(t.tables) by {
      if e.Received? { HandleTables(s, Parse(e.payload), e.init); }
    }
    forall line | Solicited(s.tables, line)
      ensures Solicited(t.tables, line)
    {
      GrownSolicits(s.tables, t.tables, line);
    }
    forall a | a in t.pass
      ensures ActSolicited(t.tables, a)
    {
      if a.Ensure? { GrownWild(s.tables.wild, t.tables.wild, a.stream, a.sample); }
    }
    forall line | line in t.wire.posted
      ensures Solicited(t.tables, line)
    {
      if IsReply(line) { ReplySolicited(t.tables, line); }
    }
  }

  lemma GrownWild(v: seq<XSub>, w: seq<XSub>, stream: OneLine, sample: Sample)
    requires v <= w && AnyWild(v, stream, sample.topic, sample.message)
    ensures AnyWild(w, stream, sample.topic, sample.message)
  {
    assert forall x :: x in v ==> x in w;
  }

  lemma ReplySolicited(t: Tables, line: Line)
    requires IsReply(line)
    ensures Solicited(t, line)
  {
  }

  lemma {:induction false} StandardActsSolicited(t: Tables, order: seq<string>, sample: Sample)
    requires TablesOk(t) && forall i :: 0 <= i < |order| ==> order[i] in t.subs
    ensures forall a :: a in StandardActs(t.subs, order, sample) ==> ActSolicited(t, a)
  {
    if order != [] {
      StandardActsSolicited(t, order[1..], sample);
    }
  }

  lemma {:induction false} WildcardActsSolicited(t: Tables, xsubs: seq<XSub>, sample: Sample)
    requires forall x :: x in xsubs ==> x in t.wild
    ensures forall a :: a in WildcardActs(xsubs, sample) ==> ActSolicited(t, a)
  {
    if xsubs != [] {
      WildcardActsSolicited(t, xsubs[1..], sample);
      var x := xsubs[0];
      assert x in t.wild;
      assert Selects(x, x.stream, sample.topic, sample.message) ==> AnyWild(t.wild, x.stream, sample.topic, sample.message);
    }
  }

  lemma AdvanceKeepsOrigins(s: Session, order: seq<string>)
    requires OriginInv(s) && s.pass != []
    ensures OriginInv(Advance(s, order))
  {
    hide GenId, Key, AnyWild, StandardActs, WildcardActs, Enumerates;
    var t := Advance(s, order);
    assert s.pass[0] in s.pass && forall a :: a in s.pass[1..] ==> a in s.pass;
    if s.pass[0].Look? && Enumerates(order, s.tables.subs.Keys) {
      LookSolicited(s, order);
    }
    assert forall line :: Solicited(s.tables, line) ==> Solicited(t.tables, line);
    assert forall a :: ActSolicited(s.tables, a) ==> ActSolicited(t.tables, a);
  }

  lemma LookSolicited(s: Session, order: seq<string>)
    requires TablesOk(s.tables) && s.pass != [] && s.pass[0].Look? && Enumerates(order, s.tables.subs.Keys)
    ensures var acts := StandardActs(s.tables.subs, order, s.pass[0].sample) + WildcardActs(s.tables.xsubs, s.pass[0].sample);
      forall a :: a in acts ==> ActSolicited(s.tables, a)
  {
    StandardActsSolicited(s.tables, order, s.pass[0].sample);
    WildcardActsSolicited(s.tables, s.tables.xsubs, s.pass[0].sample);
  }

  lemma OriginStep(s: Session, e: Event)
    requires OriginInv(s)
    ensures OriginInv(Step(s, e))
  {
    hide AsioStep, Advance, Continue, OriginInv;
    if !e.Deliver? {
      AsioKeepsOrigins(s, e);
    } else if s.pass != [] {
      AdvanceKeepsOrigins(s, e.order);
    }
  }

  lemma {:induction false} OriginsKept(s: Session, es: seq<Event>)
    requires OriginInv(s)
    ensures OriginInv(Run(s, es))
    decreases |es|
  {
    hide Step, OriginInv;
    if es != [] {
      OriginStep(s, es[0]);
      OriginsKept(Step(s, es[0]), es[1..]);
    }
  }

  /** The patterns mean what a glob means, whatever the matcher does. */
  ghost predicate Wants(x: XSub, stream: OneLine, sample: Sample) {
    x.stream == stream && Glob.Matches(x.topicPattern, sample.topic) && Glob.Matches(x.messagePattern, sample.message)
  }

  /** Over every run a client is sent nothing it did not ask for: a standard MSG carries the id,
      message and topic of one SUB, and a wildcard MSG and its announcement name a topic and message
      that the patterns of some XSUB of that stream match. */
  lemma NothingUnsolicited(es: seq<Event>, j: nat)
    requires j < |Run(Start(), es).wire.posted|
    ensures var t, line := Run(Start(), es).tables, Run(Start(), es).wire.posted[j];
      && (line.Msg? && line.origin.Standard? ==>
           var k := line.origin.serial;
           k < |t.made| && t.made[k].id == line.id && t.made[k].message == line.sample.message && t.made[k].topic == line.sample.topic)
      && (IsWildcard(line) ==> exists x :: x in t.wild && Wants(x, line.origin.stream, line.sample))
  {
    OriginsKept(Start(), es);
    var t, line := Run(Start(), es).tables, Run(Start(), es).wire.posted[j];
    hide Run;
    assert Solicited(t, line);
    if IsWildcard(line) {
      var x :| x in t.wild && Selects(x, line.origin.stream, line.sample.topic, line.sample.message);
      Glob.GlobSound(x.topicPattern, line.sample.topic);
      Glob.GlobSound(x.messagePattern, line.sample.message);
      assert Wants(x, line.origin.stream, line.sample);
    }
  }
}
