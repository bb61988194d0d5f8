/** What a client is answered: the lines and the state after each command, one `+OK` for each
    accepted command of a verbose client and none for any other, over every run. */
module SessionReplies {
  import opened Protocol
  import opened Session
  import opened SessionWrites
  import opened SessionAnnounce
  import opened SessionIds
  import ClientSession

  // -- the answer to each command -------------------------------------------------------------

  /** The state after a command in which the lines were posted, if the client was open, and that
      left the client open or not, reading again or not. */
  predicate Answered(s: Session, t: Session, lines: seq<Line>, closes: bool) {
    && t.handler == [] && t.pass == s.pass
    && t.wire == s.wire.(posted := s.wire.posted + if s.open then lines else [])
    && t.open == (s.open && !closes)
    && t.phase == (if t.open then Reading else Stopped)
  }

  predicate Same(s: Session, t: Session) {
    t.initialized == s.initialized && t.verbose == s.verbose && t.tables == s.tables
  }

  function Okays(verbose: bool): seq<Line> {
    if verbose then [Okay] else []
  }

  lemma DrainReply(s: Session, todo: seq<Todo>)
    requires |todo| <= 2
    ensures var t := ClientSession.Drain(Reply(s, todo));
      t == Do(ClientSession.DoAll(s.(phase := Handling, handler := []), todo), Rearm)
  {
    ClientSession.DrainDoesAll(Reply(s, todo), todo, Rearm);
  }

  lemma DoNothing(s: Session)
    ensures ClientSession.DoAll(s, []) == s
  {
  }

  lemma DoOne(s: Session, a: Todo)
    ensures ClientSession.DoAll(s, [a]) == Do(s, a)
  {
    assert [a][1..] == [];
  }

  lemma DoTwo(s: Session, a: Todo, b: Todo)
    ensures ClientSession.DoAll(s, [a, b]) == Do(Do(s, a), b)
  {
    assert [a, b][1..] == [b];
    DoOne(Do(s, a), b);
  }

  lemma AcksAnswer(s: Session, verbose: bool)
    requires s.handler == [] && s.verbose == verbose
    ensures var t := ClientSession.Drain(Reply(s, Ack(s))); Answered(s, t, Okays(verbose), false) && Same(s, t)
  {
    hide ClientSession.Drain, ClientSession.DoAll;
    DrainReply(s, Ack(s));
    var u := s.(phase := Handling, handler := []);
    DoNothing(u);
    DoOne(u, Send(Okay));
    assert s.wire.posted + [] == s.wire.posted;
  }

  lemma FailureAnswer(s: Session, reason: Reason)
    requires s.handler == []
    ensures var t := ClientSession.Drain(Reply(s, [Send(Failure(reason))])); Answered(s, t, [Failure(reason)], false) && Same(s, t)
    ensures var t := ClientSession.Drain(Reply(s, [Send(Failure(reason)), Close])); Answered(s, t, [Failure(reason)], true) && Same(s, t)
  {
    hide ClientSession.Drain, ClientSession.DoAll;
    DrainReply(s, [Send(Failure(reason))]);
    DrainReply(s, [Send(Failure(reason)), Close]);
    var u := s.(phase := Handling, handler := []);
    DoOne(u, Send(Failure(reason)));
    DoTwo(u, Send(Failure(reason)), Close);
    assert s.wire.posted + [] == s.wire.posted;
  }

  lemma NoAnswer(s: Session)
    requires s.handler == []
    ensures var t := ClientSession.Drain(Reply(s, [])); Answered(s, t, [], false) && Same(s, t)
  {
    hide ClientSession.Drain, ClientSession.DoAll;
    DrainReply(s, []);
    DoNothing(s.(phase := Handling, handler := []));
    assert s.wire.posted + [] == s.wire.posted;
  }

  lemma GreetingAnswer(s: Session, verbose: bool, serviceId: string)
    requires s.handler == [] && s.verbose == verbose
    ensures var t := ClientSession.Drain(Reply(s, [Send(Info(serviceId))] + Ack(s)));
      Answered(s, t, [Info(serviceId)] + Okays(verbose), false) && Same(s, t)
  {
    hide ClientSession.Drain, ClientSession.DoAll;
    DrainReply(s, [Send(Info(serviceId))] + Ack(s));
    var u := s.(phase := Handling, handler := []);
    DoOne(u, Send(Info(serviceId)));
    DoTwo(u, Send(Info(serviceId)), Send(Okay));
    assert [Send(Info(serviceId))] + [] == [Send(Info(serviceId))];
    assert [Send(Info(serviceId))] + [Send(Okay)] == [Send(Info(serviceId)), Send(Okay)];
    assert s.wire.posted + [Info(serviceId)] + [Okay] == s.wire.posted + ([Info(serviceId)] + [Okay]);
    assert s.wire.posted + ([Info(serviceId)] + []) == s.wire.posted + [Info(serviceId)];
    assert s.wire.posted + [] == s.wire.posted;
  }

  /** A text frame, handled to its end, before the handshake: INIT is accepted and answered by INFO
      and, if that is what was asked for, `+OK`; anything else but a blank line is refused, and ends
      the session. */
  lemma AnsweredBeforeInit(s: Session, payload: string, init: InitArgument)
    requires s.phase == Reading && s.handler == [] && !s.initialized
    ensures var t := ClientSession.Drain(Step(s, Received(payload, init)));
      && t.tables == s.tables
      && (Parse(payload) == Blank ==> Answered(s, t, [], false) && Same(s, t))
      && (Parse(payload) == Init && init.Accepted? ==>
           Answered(s, t, [Info(init.serviceId)] + Okays(init.verbose), false) && t.initialized && t.verbose == init.verbose)
      && (Parse(payload) == Init && init.NoVersion? ==> Answered(s, t, [Failure(UnsupportedVersion)], true) && !t.initialized)
      && (Parse(payload) == Init && (init.MissingField? || init.Broken?) ==>
           Answered(s, t, [Failure(IllegalArgument)], true) && !t.initialized)
      && (Parse(payload) != Blank && Parse(payload) != Init ==> Answered(s, t, [Failure(IllegalState)], true) && Same(s, t))
  {
    hide Parse, ClientSession.Drain, Ack;
    NoAnswer(s);
    FailureAnswer(s, IllegalState);
    FailureAnswer(s, IllegalArgument);
    FailureAnswer(s, UnsupportedVersion);
    match init
    case Accepted(v, serviceId) => GreetingAnswer(s.(verbose := v, initialized := true), v, serviceId);
    case Broken(Some(v)) => FailureAnswer(s.(verbose := v), IllegalArgument);
    case _ =>
  }

  /** A binary frame is read and ignored. */
  lemma BinaryIgnored(s: Session)
    requires s.phase == Reading && s.handler == []
    ensures var t := ClientSession.Drain(Step(s, ReceivedBinary)); Answered(s, t, [], false) && Same(s, t)
  {
    NoAnswer(s);
  }

  /** The standard subscription that a SUB makes. */
  predicate NewSub(s: Session, t: Session, id: string, message: string, topic: string) {
    && t.tables.subs.Keys == s.tables.subs.Keys + {id}
    && (forall k :: k in s.tables.subs && k != id ==> t.tables.subs[k] == s.tables.subs[k])
    && id in t.tables.subs
    && var sub := t.tables.subs[id];
    && sub.id == id && sub.message == message && sub.topic == topic && sub.serial == |s.tables.made|
    && t.tables.made == s.tables.made + [sub]
  }

  /** After the handshake: the lines and the tables that each command leaves, the refused ones as
      they were. Only INIT ends the session. */
  lemma AnsweredAfterInit(s: Session, payload: string, init: InitArgument)
    requires s.phase == Reading && s.handler == [] && s.initialized
    ensures var t := ClientSession.Drain(Step(s, Received(payload, init)));
      && t.initialized && t.verbose == s.verbose
      && match Parse(payload) {
        case Blank => Answered(s, t, [], false) && Same(s, t)
        case Init => Answered(s, t, [Failure(IllegalState)], true) && Same(s, t)
        case XSubscribe(x) =>
          Answered(s, t, Okays(s.verbose), false) && t.tables == s.tables.(xsubs := s.tables.xsubs + [x], wild := s.tables.wild + [x])
        case XUnsubscribe(_) =>
          Answered(s, t, Okays(s.verbose), false) && t.tables == s.tables.(xsubs := t.tables.xsubs, concrete := t.tables.concrete)
        case Subscribe(id, message, topic) =>
          if id in s.tables.subs then Answered(s, t, [Failure(IllegalState)], false) && Same(s, t)
          else
            && Answered(s, t, Okays(s.verbose), false) && NewSub(s, t, id, message, topic)
            && t.tables == s.tables.(subs := t.tables.subs, made := t.tables.made)
        case Unsubscribe(id) =>
          if id !in s.tables.subs then Answered(s, t, [Failure(IllegalState)], false) && Same(s, t)
          else
            && Answered(s, t, Okays(s.verbose), false)
            && t.tables == s.tables.(subs := map k | k in s.tables.subs && k != id :: s.tables.subs[k])
        case Refused(reason) => Answered(s, t, [Failure(reason)], false) && Same(s, t)
      }
  {
    hide Parse, ClientSession.Drain, Ack, WithoutStream;
    NoAnswer(s);
    FailureAnswer(s, IllegalState);
    match Parse(payload)
    case XSubscribe(x) => AcksAnswer(s.(tables := AddXSub(s.tables, x)), s.verbose); AckSame(s, AddXSub(s.tables, x));
    case XUnsubscribe(stream) =>
      AcksAnswer(s.(tables := DropStream(s.tables, stream)), s.verbose);
      AckSame(s, DropStream(s.tables, stream));
    case Subscribe(id, message, topic) =>
      AcksAnswer(s.(tables := AddSub(s.tables, id, message, topic)), s.verbose);
      AckSame(s, AddSub(s.tables, id, message, topic));
    case Unsubscribe(id) =>
      var u := s.tables.(subs := s.tables.subs - {id});
      assert s.tables.subs - {id} == map k | k in s.tables.subs && k != id :: s.tables.subs[k];
      AcksAnswer(s.(tables := u), s.verbose);
      AckSame(s, u);
    case Refused(reason) => FailureAnswer(s, reason);
    case _ =>
  }

  lemma AckSame(s: Session, t: Tables)
    ensures Ack(s.(tables := t)) == Ack(s)
  {
  }

  // -- one `+OK` for each accepted command, over every run --------------------------------------------

  function OkCount(lines: seq<Line>): nat {
    if lines == [] then 0 else (if lines[|lines| - 1] == Okay then 1 else 0) + OkCount(lines[..|lines| - 1])
  }

  function PendingOks(handler: seq<Todo>): nat {
    if handler == [] then 0 else (if handler[0] == Send(Okay) then 1 else 0) + PendingOks(handler[1..])
  }

  /** `+OK` lines posted, or about to be by the handler under way. */
  function Oks(s: Session): nat {
    OkCount(s.wire.posted) + if s.open then PendingOks(s.handler) else 0
  }

  /** The command is accepted. */
  predicate Succeeds(s: Session, c: Command, init: InitArgument) {
    match c
    case Init => !s.initialized && init.Accepted?
    case XSubscribe(_) => s.initialized
    case XUnsubscribe(_) => s.initialized
    case Subscribe(id, _, _) => s.initialized && id !in s.tables.subs
    case Unsubscribe(id) => s.initialized && id in s.tables.subs
    case _ => false
  }

  /** The event is a command that an open client sends and that is accepted. */
  predicate Accepts(s: Session, e: Event) {
    e.Received? && s.handler == [] && s.phase == Reading && s.open && Succeeds(s, Parse(e.payload), e.init)
  }

  function Accepted(s: Session, es: seq<Event>): nat
    decreases |es|
  {
    if es == [] then 0 else (if Accepts(s, es[0]) then 1 else 0) + Accepted(Step(s, es[0]), es[1..])
  }

  /** A handler that closes the client sends no `+OK`. */
  ghost predicate OkInv(s: Session) {
    AnnounceInv(s) && (Close in s.handler ==> PendingOks(s.handler) == 0)
  }

  lemma PendingReply(s: Session, todo: seq<Todo>)
    requires |todo| <= 2
    ensures var t := Reply(s, todo);
      && PendingOks(t.handler) ==
           (if |todo| > 0 && todo[0] == Send(Okay) then 1 else 0) + (if |todo| > 1 && todo[1] == Send(Okay) then 1 else 0)
      && (Close in t.handler <==> Close in todo)
  {
    var h := todo + [Rearm];
    assert PendingOks([Rearm]) == 0 by { assert [Rearm][1..] == []; }
    if |todo| == 0 {
      assert h == [Rearm];
    } else if |todo| == 1 {
      assert h[1..] == [Rearm];
    } else {
      assert h[1..][1..] == [Rearm];
    }
  }

  lemma ReplyKeeps(s: Session, todo: seq<Todo>)
    ensures var t := Reply(s, todo); t.wire == s.wire && t.open == s.open && t.verbose == s.verbose && t.initialized == s.initialized
  {
  }

  /** What handling a command leaves to be sent. */
  predicate Leaves(s: Session, t: Session, acks: bool) {
    && t.wire == s.wire && t.open == s.open
    && PendingOks(t.handler) == (if acks then 1 else 0)
    && (Close in t.handler ==> !acks)
  }

  lemma CommandOks(s: Session, c: Command, init: InitArgument)
    requires s.handler == []
    ensures var t := Handle(s, c, init); Leaves(s, t, Succeeds(s, c, init) && t.verbose) && (Succeeds(s, c, init) ==> t.initialized)
  {
    hide PendingOks, Reply, DropStream, AddSub, AddXSub;
    forall u: Session, todo: seq<Todo> | |todo| <= 2
      ensures var t := Reply(u, todo);
        && t.wire == u.wire && t.open == u.open && t.verbose == u.verbose && t.initialized == u.initialized
        && PendingOks(t.handler) ==
             (if |todo| > 0 && todo[0] == Send(Okay) then 1 else 0) + (if |todo| > 1 && todo[1] == Send(Okay) then 1 else 0)
        && (Close in t.handler <==> Close in todo)
    {
      PendingReply(u, todo);
      ReplyKeeps(u, todo);
    }
  }

  lemma PostedOne(lines: seq<Line>, line: Line)
    ensures OkCount(lines + [line]) == OkCount(lines) + if line == Okay then 1 else 0
  {
    assert (lines + [line])[..|lines|] == lines;
  }

  lemma ResumeOks(s: Session)
    requires s.handler != [] && (Close in s.handler ==> PendingOks(s.handler) == 0)
    ensures Oks(Continue(s)) == Oks(s) && (Close in Continue(s).handler ==> PendingOks(Continue(s).handler) == 0)
  {
    hide OkCount;
    var todo := s.handler[0];
    assert forall x :: x in s.handler[1..] ==> x in s.handler;
    if todo.Send? { PostedOne(s.wire.posted, todo.line); }
    assert todo == Close ==> Close in s.handler;
  }

  lemma AdvanceOks(s: Session, order: seq<string>)
    requires AnnounceInv(s) && s.pass != []
    ensures Oks(Advance(s, order)) == Oks(s) && Advance(s, order).handler == s.handler
    ensures Advance(s, order).initialized == s.initialized && Advance(s, order).verbose == s.verbose
  {
    hide OkCount, PendingOks, StandardActs, WildcardActs, Enumerates, GenId, Key, Issued, IdInv, PostedOk, IsIssued;
    if s.pass[0].Post? {
      assert ActOk(s, 0);
      PostedOne(s.wire.posted, s.pass[0].line);
    }
  }

  lemma StepOks(s: Session, e: Event)
    requires OkInv(s)
    ensures OkInv(Step(s, e))
    ensures Oks(Step(s, e)) == Oks(s) + if Accepts(s, e) && Step(s, e).verbose then 1 else 0
    ensures Accepts(s, e) ==> Step(s, e).initialized
  {
    hide Parse, Handle, Advance, Continue, OkCount, AnnounceInv;
    AnnounceStep(s, e);
    match e
    case Received(payload, init) =>
      if s.handler == [] && s.phase == Reading { CommandOks(s, Parse(payload), init); }
    case Resume => if s.handler != [] { ResumeOks(s); }
    case Deliver(order) => if s.pass != [] { AdvanceOks(s, order); }
    case _ => OtherOks(s, e);
  }

  lemma OtherOks(s: Session, e: Event)
    requires !e.Received? && !e.Resume? && !e.Deliver?
    ensures Step(s, e).wire.posted == s.wire.posted
    ensures Step(s, e).handler == s.handler || (s.handler == [] && Step(s, e).handler == [Rearm])
    ensures s.handler != [] ==> Step(s, e).open == s.open
    ensures Oks(Step(s, e)) == Oks(s)
  {
    hide OkCount;
    assert [Rearm][1..] == [];
  }

  lemma {:induction false} RunOks(s: Session, es: seq<Event>)
    requires OkInv(s) && s.initialized
    ensures Oks(Run(s, es)) == Oks(s) + if s.verbose then Accepted(s, es) else 0
    decreases |es|
  {
    hide Step, Oks, Accepts, OkInv;
    if es != [] {
      StepOks(s, es[0]);
      StepGrows(s, es[0]);
      RunOks(Step(s, es[0]), es[1..]);
    }
  }

  /** Over every run: a client that is initialized and verbose has been sent, or is about to be sent
      by the handler under way, one `+OK` for each command accepted while it was open; one that is
      not has been sent none. */
  lemma {:induction false} OneOkEach(es: seq<Event>)
    ensures var t := Run(Start(), es);
      && Oks(t) == (if t.initialized && t.verbose then Accepted(Start(), es) else 0)
      && (!t.initialized || !t.verbose ==> Okay !in t.wire.posted)
  {
    hide Oks;
    StartOks();
    UninitializedOks(Start(), es);
    NoneCounted(Run(Start(), es));
  }

  lemma StartOks()
    ensures OkInv(Start()) && Oks(Start()) == 0
  {
  }

  lemma {:induction false} UninitializedOks(s: Session, es: seq<Event>)
    requires OkInv(s) && !s.initialized && Oks(s) == 0
    ensures var t := Run(s, es); Oks(t) == if t.initialized && t.verbose then Accepted(s, es) else 0
    decreases |es|
  {
    hide Step, Oks, Accepts, OkInv;
    if es != [] {
      var t := Step(s, es[0]);
      StepOks(s, es[0]);
      if t.initialized {
        RunOks(t, es[1..]);
        NothingReverts(t, es[1..]);
      } else {
        UninitializedOks(t, es[1..]);
      }
    }
  }

  lemma {:induction false} OkCounted(lines: seq<Line>)
    ensures Okay in lines ==> OkCount(lines) > 0
  {
    if lines != [] {
      OkCounted(lines[..|lines| - 1]);
      assert lines == lines[..|lines| - 1] + [lines[|lines| - 1]];
    }
  }

  lemma NoneCounted(s: Session)
    ensures Oks(s) == 0 ==> Okay !in s.wire.posted
  {
    OkCounted(s.wire.posted);
  }
}
