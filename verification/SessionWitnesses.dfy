/** Runs that show what the two threads do allow, and exactly when ids speak for themselves. */
module SessionWitnesses {
  import opened Protocol
  import opened Session
  import opened SessionAnnounce
  import opened SessionOrigins
  import opened SessionCommands
  import SessionOrphans
  import Glob

  // -- following a run step by step ---------------------------------------------------------------

  lemma Then(s: Session, es: seq<Event>, e: Event) returns (fs: seq<Event>)
    ensures fs == es + [e] && Run(s, fs) == Step(Run(s, es), e)
  {
    fs := es + [e];
    RunThen(s, es, e);
  }

  function Say(c: Command): Event {
    Received(Spell(c), Accepted(true, "svc"))
  }

  /** A verbose client after its handshake. */
  function Ready(): Session {
    Session(true, true, true, Reading, [], [], Tables([], map[], map[], 1, [], [], []),
            Wire([Info("svc"), Okay], 0, [], 0, [], 0, false))
  }

  /** A client told that its INIT was accepted, with the rest of the handler still to run. */
  function AfterInit(handler: seq<Todo>, posted: seq<Line>): Session {
    Session(true, true, true, Handling, handler, [], Tables([], map[], map[], 1, [], [], []), Wire(posted, 0, [], 0, [], 0, false))
  }

  lemma InitAccepted()
    ensures Step(Start().(phase := Reading), Say(Init)) == AfterInit([Send(Info("svc")), Send(Okay), Rearm], [])
  {
    SpelledParses(Init);
    hide Parse, Spell;
  }

  lemma Opened() returns (es: seq<Event>)
    ensures Run(Start(), es) == Ready()
    ensures forall i :: 0 <= i < |es| ==> es[i].Received? ==> es[i] == Say(Init)
  {
    hide Run, Handle, Parse, Spell;
    RunNothing(Start());
    es := Then(Start(), [], Request(true, true));
    es := Then(Start(), es, Upgraded(true));
    assert Run(Start(), es) == Start().(phase := Reading);
    InitAccepted();
    es := Then(Start(), es, Say(Init));
    es := Then(Start(), es, Resume);
    assert Run(Start(), es) == AfterInit([Send(Okay), Rearm], [Info("svc")]);
    es := Then(Start(), es, Resume);
    assert Run(Start(), es) == AfterInit([Rearm], [Info("svc"), Okay]);
    es := Then(Start(), es, Resume);
  }

  lemma RunNothing(s: Session)
    ensures Run(s, []) == s
  {
  }

  // -- standard subscriptions ---------------------------------------------------------------------------

  /** What the subscription `id` of message `M` on topic `T` makes of a ready session. */
  function WithSub(id: string): Tables {
    var sub := StandardSub(id, "M", "T", 0);
    Tables([], map[id := sub], map[], 1, [], [sub], [])
  }

  function Hit(id: string): Line {
    Msg(id, Sample("T", "M", "{}"), Standard(0))
  }

  /** A MSG can be posted before the `+OK` of the SUB it answers: the state lock is released before
      the acknowledgement is sent. */
  lemma MsgBeforeItsOk(id: string) returns (es: seq<Event>)
    requires ValidToken(id)
    ensures Run(Start(), es).wire.posted == [Info("svc"), Okay, Hit(id)]
    ensures Run(Start(), es + [Resume]).wire.posted == [Info("svc"), Okay, Hit(id), Okay]
    ensures forall i :: 0 <= i < |es| ==> es[i].Received? ==> es[i] == Say(Init) || es[i] == Say(Subscribe(id, "M", "T"))
  {
    hide Parse, Spell, Run;
    var c := Subscribe(id, "M", "T");
    SpelledParses(c);
    var s0 := Ready();
    var s1 := s0.(tables := WithSub(id), phase := Handling, handler := [Send(Okay), Rearm]);
    assert Step(s0, Say(c)) == s1;
    es := Opened();
    es := Then(Start(), es, Say(c));
    es := Then(Start(), es, Visit(Hit(id).sample));
    es := Then(Start(), es, Deliver([id]));
    SnapshotOfOne(s1.(pass := [Look(Hit(id).sample)]), id);
    es := Then(Start(), es, Deliver([]));
    es := Then(Start(), es, Deliver([]));
    var fs := Then(Start(), es, Resume);
  }

  lemma SnapshotOfOne(s: Session, id: string)
    requires s.tables == WithSub(id) && s.pass == [Look(Hit(id).sample)]
    ensures Advance(s, [id]) == s.(pass := [Check(Hit(id))])
  {
    assert s.tables.subs.Keys == {id};
    assert Enumerates([id], s.tables.subs.Keys);
    assert [id][1..] == [];
    assert StandardActs(s.tables.subs, [id], Hit(id).sample) == [Check(Hit(id))] + StandardActs(s.tables.subs, [], Hit(id).sample);
  }

  /** A ready session with one standard subscription, acknowledged. */
  function Subscribed(id: string): Session {
    Ready().(tables := WithSub(id), wire := Ready().wire.(posted := [Info("svc"), Okay, Okay]))
  }

  lemma ReachSubscribed(id: string) returns (es: seq<Event>)
    requires ValidToken(id)
    ensures Run(Start(), es) == Subscribed(id)
  {
    hide Parse, Spell, Run;
    var c := Subscribe(id, "M", "T");
    SpelledParses(c);
    var s1 := Ready().(tables := WithSub(id), phase := Handling, handler := [Send(Okay), Rearm]);
    assert Step(Ready(), Say(c)) == s1;
    es := Opened();
    es := Then(Start(), es, Say(c));
    es := Then(Start(), es, Resume);
    es := Then(Start(), es, Resume);
  }

  /** A MSG can be posted after the `+OK` of the UNSUB of its subscription: delivery works from a
      snapshot. So the bound of one is met. */
  lemma MsgAfterUnsubOk(id: string) returns (es: seq<Event>, fs: seq<Event>)
    requires ValidToken(id)
    ensures id in Run(Start(), es).tables.subs
    ensures Run(Start(), es).wire.posted == [Info("svc"), Okay, Okay]
    ensures Run(Start(), es + [Say(Unsubscribe(id))] + fs).wire.posted == [Info("svc"), Okay, Okay, Okay, Hit(id)]
  {
    hide Parse, Spell, Run;
    var d := Unsubscribe(id);
    SpelledParses(d);
    es := ReachSubscribed(id);
    es := Then(Start(), es, Visit(Hit(id).sample));
    SnapshotOfOne(Subscribed(id).(pass := [Look(Hit(id).sample)]), id);
    es := Then(Start(), es, Deliver([id]));
    var s4 := Subscribed(id).(pass := [Check(Hit(id))]);
    var s5 := s4.(tables := s4.tables.(subs := map[]), phase := Handling, handler := [Send(Okay), Rearm]);
    assert WithSub(id).subs - {id} == map[];
    assert Step(s4, Say(d)) == s5;
    var gs := Then(Start(), es, Say(d));
    var hs := Then(Start(), gs, Resume);
    hs := Then(Start(), hs, Deliver([]));
    hs := Then(Start(), hs, Deliver([]));
    fs := [Resume, Deliver([]), Deliver([])];
    assert hs == gs + fs;
  }

  // -- wildcard subscriptions -----------------------------------------------------------------------------

  /** A star matches every text without one. */
  lemma StarMatches(text: string)
    requires '*' !in text
    ensures Glob.Glob("*", text)
  {
    EverythingMatches(text);
    Glob.GlobExact("*", text);
  }

  lemma {:induction false} EverythingMatches(text: string)
    ensures Glob.Matches("*", text)
  {
    assert "*"[1..] == "";
    if text != "" { EverythingMatches(text[1..]); }
  }

  /** A ready session with one wildcard subscription to everything, acknowledged. */
  function Watching(stream: OneLine): Session {
    var x := XSub(stream, "*", "*");
    Ready().(tables := Tables([x], map[], map[], 1, [x], [], []), wire := Ready().wire.(posted := [Info("svc"), Okay, Okay]))
  }

  lemma ReachWatching(stream: OneLine) returns (es: seq<Event>)
    requires ValidToken(stream)
    ensures Run(Start(), es) == Watching(stream)
  {
    hide Parse, Spell, Run;
    var x := XSub(stream, "*", "*");
    var c := XSubscribe(x);
    SpelledParses(c);
    var s1 := Ready().(tables := Tables([x], map[], map[], 1, [x], [], []), phase := Handling, handler := [Send(Okay), Rearm]);
    assert Step(Ready(), Say(c)) == s1;
    es := Opened();
    es := Then(Start(), es, Say(c));
    es := Then(Start(), es, Resume);
    es := Then(Start(), es, Resume);
  }

  lemma WildcardSnapshot(s: Session, stream: OneLine, sample: Sample)
    requires s.tables == Watching(stream).tables && s.pass == [Look(sample)] && '*' !in sample.topic && '*' !in sample.message
    ensures Advance(s, []) == s.(pass := [Ensure(stream, sample)])
  {
    StarMatches(sample.topic);
    StarMatches(sample.message);
    var x := XSub(stream, "*", "*");
    assert s.tables.subs.Keys == {} && [x][1..] == [];
    assert WildcardActs([x], sample) == [Ensure(stream, sample)] + WildcardActs([], sample);
  }

  /** The stream's snapshot is taken and its concrete id still to be asked for. */
  function Asking(stream: OneLine): Session {
    Watching(stream).(pass := [Ensure(stream, Hit("").sample)])
  }

  lemma ReachAsking(stream: OneLine) returns (es: seq<Event>)
    requires ValidToken(stream)
    ensures Run(Start(), es) == Asking(stream)
  {
    hide Parse, Spell, Run;
    es := ReachWatching(stream);
    es := Then(Start(), es, Visit(Hit("").sample));
    WildcardSnapshot(Watching(stream).(pass := [Look(Hit("").sample)]), stream, Hit("").sample);
    es := Then(Start(), es, Deliver([]));
  }

  /** The same after XUNSUB, with the rest of its handler still to run. */
  function Dropped(stream: OneLine): Session {
    var s := Asking(stream);
    s.(tables := s.tables.(xsubs := []), phase := Handling, handler := [Send(Okay), Rearm])
  }

  lemma DropStep(stream: OneLine)
    requires ValidToken(stream)
    ensures Step(Asking(stream), Say(XUnsubscribe(stream))) == Dropped(stream)
  {
    SpelledParses(XUnsubscribe(stream));
    NothingKept(stream);
    hide Parse, Spell;
  }

  /** After an XUNSUB has removed the stream and its entries and has been acknowledged, a pass that
      took its snapshot before brings a concrete subscription of the stream into being. */
  lemma OrphanAfterXUnsub(stream: OneLine) returns (es: seq<Event>, fs: seq<Event>)
    requires ValidToken(stream)
    ensures var t := Run(Start(), es + [Say(XUnsubscribe(stream))]);
      t.tables.xsubs == [] && t.tables.concrete == map[] && SessionOrphans.Pending(t.pass, stream)
    ensures var u := Run(Start(), es + [Say(XUnsubscribe(stream))] + fs);
      && u.wire.posted == [Info("svc"), Okay, Okay, Okay] && u.phase == Reading
      && u.tables.xsubs == [] && SessionOrphans.HasEntry(u.tables, stream)
    ensures SessionOrphans.NoXSub(fs, stream)
  {
    hide Parse, Spell, Run, Key, GenId, Handle;
    es := ReachAsking(stream);
    DropStep(stream);
    var gs := Then(Start(), es, Say(XUnsubscribe(stream)));
    assert Run(Start(), gs) == Dropped(stream);
    assert Dropped(stream).pass[0].Ensure?;
    var hs := Then(Start(), gs, Resume);
    hs := Then(Start(), hs, Resume);
    var u := Run(Start(), hs);
    assert u.pass == Dropped(stream).pass && u.tables == Dropped(stream).tables;
    SessionOrphans.EnsureMakesEntry(u);
    hs := Then(Start(), hs, Deliver([]));
    assert Run(Start(), hs) == Advance(u, []);
    fs := [Resume, Resume, Deliver([])];
    assert hs == gs + fs;
  }

  lemma NothingKept(stream: OneLine)
    ensures DropStream(Watching(stream).tables, stream) == Watching(stream).tables.(xsubs := [])
  {
    var x := XSub(stream, "*", "*");
    assert [x][1..] == [];
    assert WithoutStream([x], stream) == [] + WithoutStream([], stream);
  }

  // -- ids chosen by the client ---------------------------------------------------------------------------

  /** A SUB can choose an id that the server generates too. */
  ghost predicate Generated(id: string) {
    exists n :: id == GenId(n)
  }

  predicate SubsFrom(es: seq<Event>, ids: set<string>) {
    forall i :: 0 <= i < |es| && es[i].Received? && Parse(es[i].payload).Subscribe? ==> Parse(es[i].payload).id in ids
  }

  predicate Names(info: Line, msg: Line)
    requires msg.Msg?
  {
    info.XSubInfo? && info.id == msg.id && info.topic == msg.sample.topic && info.message == msg.sample.message
  }

  /** Judged by its id alone, every MSG with a generated id was announced before. */
  ghost predicate AnnouncedById(lines: seq<Line>) {
    forall j :: 0 <= j < |lines| && lines[j].Msg? && Generated(lines[j].id) ==>
      exists i :: 0 <= i < j && Names(lines[i], lines[j])
  }

  lemma HandleMakes(s: Session, c: Command, init: InitArgument, ids: set<string>)
    requires MadeIn(s.tables, ids)
    requires c.Subscribe? ==> c.id in ids
    ensures MadeIn(Handle(s, c, init).tables, ids)
  {
    hide GenId, Key, WithoutStream;
  }

  predicate MadeIn(t: Tables, ids: set<string>) {
    forall k :: 0 <= k < |t.made| ==> t.made[k].id in ids
  }

  lemma MadeStep(s: Session, e: Event, ids: set<string>)
    requires MadeIn(s.tables, ids) && SubsFrom([e], ids)
    ensures MadeIn(Step(s, e).tables, ids)
  {
    hide GenId, Key, Handle, Parse, StandardActs, WildcardActs, Enumerates, Enqueue, FinishWrite;
    if e.Received? {
      assert [e][0] == e;
      HandleMakes(s, Parse(e.payload), e.init, ids);
    }
  }

  lemma {:induction false} MadeFrom(s: Session, es: seq<Event>, ids: set<string>)
    requires MadeIn(s.tables, ids) && SubsFrom(es, ids)
    ensures MadeIn(Run(s, es).tables, ids)
    decreases |es|
  {
    hide Step, Parse, MadeIn;
    if es != [] {
      MadeStep(s, es[0], ids);
      assert forall i :: 0 <= i < |es| - 1 ==> es[1..][i] == es[i + 1];
      MadeFrom(Step(s, es[0]), es[1..], ids);
    }
  }

  /** Whatever else clients and publishers do: a MSG with a generated id is always preceded by its
      XSUBINFO if, and only if, no client subscribes under a generated id. */
  lemma AnnouncedByIdIff(ids: set<string>)
    requires forall id :: id in ids ==> ValidToken(id)
    ensures (forall es :: SubsFrom(es, ids) ==> AnnouncedById(Run(Start(), es).wire.posted)) <==> (forall id :: id in ids ==> !Generated(id))
  {
    hide Run, Spell, Parse, AnnouncedById;
    if id :| id in ids && Generated(id) {
      var es := MsgBeforeItsOk(id);
      SpelledParses(Init);
      SpelledParses(Subscribe(id, "M", "T"));
      assert SubsFrom(es, ids);
      NotAnnounced(id);
    } else {
      forall es | SubsFrom(es, ids)
        ensures AnnouncedById(Run(Start(), es).wire.posted)
      {
        GeneratedAreAnnounced(es, ids);
      }
    }
  }

  lemma NotAnnounced(id: string)
    requires Generated(id)
    ensures !AnnouncedById([Info("svc"), Okay, Hit(id)])
  {
    var lines := [Info("svc"), Okay, Hit(id)];
    assert lines[2].Msg? && Generated(lines[2].id);
  }

  lemma GeneratedAreAnnounced(es: seq<Event>, ids: set<string>)
    requires SubsFrom(es, ids) && forall id :: id in ids ==> !Generated(id)
    ensures AnnouncedById(Run(Start(), es).wire.posted)
  {
    WildcardAnnouncedFirst(es);
    MadeFrom(Start(), es, ids);
    var lines := Run(Start(), es).wire.posted;
    forall j | 0 <= j < |lines| && lines[j].Msg? && Generated(lines[j].id)
      ensures exists i :: 0 <= i < j && Names(lines[i], lines[j])
    {
      NothingUnsolicited(es, j);
      var i :| 0 <= i < j && lines[i] == Announcement(lines[j]);
      assert Names(lines[i], lines[j]);
    }
  }
}
