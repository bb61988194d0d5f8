/** The write queue and the handshake, over every run of a session. */
module SessionWrites {
  import opened Protocol
  import opened Session

  // -- what never reverts --------------------------------------------------------------------------

  predicate TablesGrow(t: Tables, u: Tables) {
    t.issued <= u.issued && t.made <= u.made && t.wild <= u.wild && t.nextId <= u.nextId
  }

  predicate Grows(s: Session, t: Session) {
    && (s.initialized ==> t.initialized && t.verbose == s.verbose)
    && (!s.open ==> !t.open)
    && TablesGrow(s.tables, t.tables)
    && s.wire.posted <= t.wire.posted
    && s.wire.written <= t.wire.written
  }

  lemma HandleGrows(s: Session, c: Command, init: InitArgument)
    ensures Grows(s, Handle(s, c, init))
  {
    hide GenId, Key, WithoutStream;
  }

  lemma AdvanceGrows(s: Session, order: seq<string>)
    requires s.pass != []
    ensures Grows(s, Advance(s, order))
  {
    hide StandardActs, WildcardActs, GenId, Key;
  }

  lemma StepGrows(s: Session, e: Event)
    ensures Grows(s, Step(s, e))
  {
    hide Parse, Handle, Advance;
    match e
    case Received(payload, init) => HandleGrows(s, Parse(payload), init);
    case Deliver(order) => if s.pass != [] { AdvanceGrows(s, order); }
    case _ =>
  }

  /** Initialization, closure and the negotiated verbosity are final; histories only grow. */
  lemma {:induction false} NothingReverts(s: Session, es: seq<Event>)
    ensures Grows(s, Run(s, es))
    decreases |es|
  {
    hide Step;
    if es != [] {
      StepGrows(s, es[0]);
      NothingReverts(Step(s, es[0]), es[1..]);
    }
  }

  // -- the write queue -------------------------------------------------------------------------------

  predicate WriteInv(w: Wire) {
    && w.ran <= |w.posted|
    && w.inFlight <= 1
    && w.written + w.queue == w.posted[..w.ran]
    && (w.inFlight == 1 <==> w.queue != [] && !w.failed)
    && (w.failed ==> w.queue != [])
    && w.started == |w.written| + (if w.queue == [] then 0 else 1)
  }

  lemma EnqueueKeeps(w: Wire)
    requires WriteInv(w) && w.ran < |w.posted|
    ensures WriteInv(Enqueue(w))
    ensures w.failed ==> Enqueue(w).failed && Enqueue(w).started == w.started
  {
    var line := w.posted[w.ran];
    assert w.posted[..w.ran + 1] == w.posted[..w.ran] + [line];
    assert w.written + (w.queue + [line]) == w.written + w.queue + [line];
  }

  lemma FinishKeeps(w: Wire, ok: bool)
    requires WriteInv(w) && w.inFlight > 0 && w.queue != []
    ensures WriteInv(FinishWrite(w, ok)) && !w.failed
  {
    assert w.written + w.queue == w.written + [w.queue[0]] + w.queue[1..];
  }

  lemma PostKeeps(w: Wire, line: Line)
    requires WriteInv(w)
    ensures WriteInv(Posted(w, line))
    ensures Posted(w, line).failed == w.failed && Posted(w, line).started == w.started
  {
    assert Posted(w, line).posted[..w.ran] == w.posted[..w.ran];
  }

  lemma WriteStep(s: Session, e: Event)
    requires WriteInv(s.wire)
    ensures WriteInv(Step(s, e).wire)
    ensures s.wire.failed ==> Step(s, e).wire.failed && Step(s, e).wire.started == s.wire.started
  {
    hide Parse, StandardActs, WildcardActs, WriteInv, Enqueue, FinishWrite, Posted;
    match e
    case RunPosted => if s.wire.ran < |s.wire.posted| { EnqueueKeeps(s.wire); }
    case WriteDone(ok) => if s.wire.inFlight > 0 && s.wire.queue != [] { FinishKeeps(s.wire, ok); }
    case Deliver(_) => if s.pass != [] && s.pass[0].Post? { PostKeeps(s.wire, s.pass[0].line); }
    case Resume => if Busy(s) && s.handler[0].Send? { PostKeeps(s.wire, s.handler[0].line); }
    case _ =>
  }

  /** In every run at most one write is in flight, exactly while a line is queued and no write has
      failed; lines written and lines queued are the posted lines in order; and a failed write is
      the last one started. */
  lemma {:induction false} WritesInOrder(s: Session, es: seq<Event>)
    requires WriteInv(s.wire)
    ensures WriteInv(Run(s, es).wire)
    ensures s.wire.failed ==> Run(s, es).wire.failed && Run(s, es).wire.started == s.wire.started
    decreases |es|
  {
    hide Step;
    if es != [] {
      WriteStep(s, es[0]);
      WritesInOrder(Step(s, es[0]), es[1..]);
    }
  }

  // -- the handshake ----------------------------------------------------------------------------------

  /** A line that an asio handler sends. */
  predicate IsReply(line: Line) {
    line.Info? || line.Okay? || line.Failure?
  }

  /** No subscription exists, and a pass under way has nothing to deliver. */
  predicate Quiet(s: Session) {
    s.tables.subs == map[] && s.tables.xsubs == [] && (s.pass == [] || (|s.pass| == 1 && s.pass[0].Look?))
  }

  predicate Waiting(s: Session) {
    && !s.initialized && Quiet(s) && s.wire.posted == []
    && (s.handler == [] || s.handler == [Rearm])
    && (!s.open ==> s.phase == Stopped)
  }

  predicate Refusing(s: Session) {
    && !s.initialized && Quiet(s)
    && if s.wire.posted == [] then
         s.open && |s.handler| == 3 && s.handler[0].Send? && s.handler[0].line.Failure? && s.handler[1..] == [Close, Rearm]
       else
         && |s.wire.posted| == 1 && s.wire.posted[0].Failure?
         && (s.handler == [Close, Rearm] || (!s.open && (s.handler == [Rearm] || s.phase == Stopped)))
  }

  predicate Greeting(s: Session) {
    && s.initialized && Quiet(s) && s.open
    && if s.wire.posted == [] then
         |s.handler| > 0 && s.handler[0].Send? && s.handler[0].line.Info? && s.handler[1..] == Ack(s) + [Rearm]
       else
         |s.wire.posted| == 1 && s.wire.posted[0].Info? && s.handler == [Send(Okay), Rearm]
  }

  predicate Greeted(s: Session) {
    && s.initialized
    && s.wire.posted != [] && s.wire.posted[0].Info?
    && (s.verbose ==> |s.wire.posted| > 1 && s.wire.posted[1] == Okay)
    && (forall i :: 0 < i < |s.wire.posted| ==> !s.wire.posted[i].Info?)
    && (forall i :: 0 <= i < |s.handler| ==> s.handler[i].Send? ==> !s.handler[i].line.Info?)
    && NoInfo(s.pass)
  }

  /** A handler re-arms the read last, and only then. */
  predicate EndsInRearm(handler: seq<Todo>) {
    forall i :: 0 <= i < |handler| ==> (handler[i] == Rearm <==> i == |handler| - 1)
  }

  predicate HandshakeInv(s: Session) {
    && EndsInRearm(s.handler)
    && (s.handler != [] <==> s.phase == Handling)
    && (Waiting(s) || Refusing(s) || Greeting(s) || Greeted(s))
  }

  lemma HandshakeReceived(s: Session, c: Command, init: InitArgument)
    requires HandshakeInv(s) && s.phase == Reading
    ensures HandshakeInv(Handle(s, c, init))
  {
    hide WithoutStream;
    if Greeted(s) { GreetedReceived(s, c, init); } else { WaitingReceived(s, c, init); }
  }

  lemma GreetedReceived(s: Session, c: Command, init: InitArgument)
    requires Greeted(s)
    ensures var t := Handle(s, c, init); Greeted(t) && EndsInRearm(t.handler) && t.handler != [] && t.phase == Handling
  {
    hide WithoutStream;
  }

  lemma WaitingReceived(s: Session, c: Command, init: InitArgument)
    requires HandshakeInv(s) && Waiting(s) && s.phase == Reading
    ensures HandshakeInv(Handle(s, c, init))
  {
    var t := Handle(s, c, init);
    if t.initialized {
      assert t.handler[1..] == Ack(t) + [Rearm];
      assert Greeting(t);
    } else if t.handler == [Rearm] {
      assert Waiting(t);
    } else {
      assert t.handler[1..] == [Close, Rearm];
      assert Refusing(t);
    }
  }

  lemma HandshakeResume(s: Session)
    requires HandshakeInv(s) && s.handler != []
    ensures HandshakeInv(Continue(s))
  {
    var t := Continue(s);
    assert forall i :: 0 <= i < |t.handler| ==> t.handler[i] == s.handler[i + 1];
    if Greeted(s) {
      assert Greeted(t);
    } else if Greeting(s) {
      assert Greeting(t) || Greeted(t);
    } else if Waiting(s) {
      assert Waiting(t);
    } else {
      assert Refusing(t);
    }
  }

  /** What a snapshot leaves to do: MSG lines to check, and concrete ids to ask for. */
  lemma {:induction false} ActsSend(subs: map<string, StandardSub>, order: seq<string>, xsubs: seq<XSub>, sample: Sample)
    requires forall i :: 0 <= i < |order| ==> order[i] in subs
    ensures forall a :: a in StandardActs(subs, order, sample) ==> a.Check? && a.line.Msg? && a.line.origin.Standard?
    ensures forall a :: a in WildcardActs(xsubs, sample) ==> a.Ensure?
    decreases |order| + |xsubs|
  {
    if order != [] {
      ActsSend(subs, order[1..], [], sample);
    }
    if xsubs != [] {
      ActsSend(subs, [], xsubs[1..], sample);
    }
  }

  /** No act sends INFO. */
  predicate NoInfo(pass: seq<Act>) {
    forall i :: 0 <= i < |pass| ==> pass[i].Check? || pass[i].Post? ==> !pass[i].line.Info?
  }

  lemma NothingToEnumerate(order: seq<string>, keys: set<string>)
    requires Enumerates(order, keys)
    ensures keys == {} ==> order == []
  {
    if order != [] {
      assert order[0] in keys;
    }
  }

  lemma NoInfoConcat(a: seq<Act>, b: seq<Act>)
    requires NoInfo(a) && NoInfo(b)
    ensures NoInfo(a + b)
  {
  }

  lemma SnapshotSendsNoInfo(subs: map<string, StandardSub>, order: seq<string>, xsubs: seq<XSub>, sample: Sample)
    requires forall i :: 0 <= i < |order| ==> order[i] in subs
    ensures NoInfo(StandardActs(subs, order, sample)) && NoInfo(WildcardActs(xsubs, sample))
  {
    hide StandardActs, WildcardActs;
    ActsSend(subs, order, xsubs, sample);
    var a, b := StandardActs(subs, order, sample), WildcardActs(xsubs, sample);
    assert forall i :: 0 <= i < |a| ==> a[i] in a;
    assert forall i :: 0 <= i < |b| ==> b[i] in b;
  }

  lemma NothingToSend(order: seq<string>, sample: Sample)
    requires Enumerates(order, {})
    ensures StandardActs(map[], [], sample) + WildcardActs([], sample) == [] && order == []
  {
    NothingToEnumerate(order, {});
  }

  lemma LookSendsNoInfo(s: Session, order: seq<string>)
    requires s.pass != [] && s.pass[0].Look? && NoInfo(s.pass)
    ensures NoInfo(Advance(s, order).pass)
    ensures Quiet(s) ==> Quiet(Advance(s, order))
  {
    hide StandardActs, WildcardActs;
    var subs, xsubs, sample := s.tables.subs, s.tables.xsubs, s.pass[0].sample;
    if Enumerates(order, subs.Keys) {
      SnapshotSendsNoInfo(subs, order, xsubs, sample);
      var a, b, rest := StandardActs(subs, order, sample), WildcardActs(xsubs, sample), s.pass[1..];
      assert forall i :: 0 <= i < |rest| ==> rest[i] == s.pass[i + 1];
      NoInfoConcat(a, b);
      NoInfoConcat(a + b, rest);
      if Quiet(s) {
        assert subs.Keys == {};
        NothingToSend(order, sample);
        assert a + b + rest == [];
      }
    }
  }

  lemma GreetedAdvance(s: Session, order: seq<string>)
    requires Greeted(s) && s.pass != []
    ensures Greeted(Advance(s, order))
  {
    hide StandardActs, WildcardActs, Enumerates, GenId, Key, Issued;
    if s.pass[0].Look? {
      LookSendsNoInfo(s, order);
    } else {
      assert forall i :: 1 <= i < |s.pass| ==> s.pass[1..][i - 1] == s.pass[i];
    }
  }

  lemma HandshakeAdvance(s: Session, order: seq<string>)
    requires HandshakeInv(s) && s.pass != []
    ensures HandshakeInv(Advance(s, order))
  {
    hide StandardActs, WildcardActs, Enumerates, GenId, Key;
    if Greeted(s) {
      GreetedAdvance(s, order);
      assert Advance(s, order).handler == s.handler && Advance(s, order).phase == s.phase;
    } else {
      LookSendsNoInfo(s, order);
      assert Advance(s, order) == s.(pass := Advance(s, order).pass);
    }
  }

  lemma HandshakeStep(s: Session, e: Event)
    requires HandshakeInv(s) && WriteInv(s.wire)
    ensures HandshakeInv(Step(s, e))
  {
    hide Parse, Handle, Advance, Continue;
    match e
    case Received(payload, init) =>
      if !Busy(s) && s.phase == Reading { HandshakeReceived(s, Parse(payload), init); }
    case Resume =>
      if Busy(s) { HandshakeResume(s); }
    case Deliver(order) =>
      if s.pass != [] { HandshakeAdvance(s, order); }
    case _ =>
  }

  /** A session posts nothing, or one refusal, or a greeting and then whatever follows. */
  predicate Greets(s: Session) {
    || s.wire.posted == []
    || (|s.wire.posted| == 1 && s.wire.posted[0].Failure? && !s.initialized)
    || ( && s.initialized && s.wire.posted[0].Info?
         && (s.verbose && |s.wire.posted| > 1 ==> s.wire.posted[1] == Okay)
         && forall i :: 0 < i < |s.wire.posted| ==> !s.wire.posted[i].Info?)
  }

  lemma {:induction false} HandshakeKept(s: Session, es: seq<Event>)
    requires HandshakeInv(s) && WriteInv(s.wire)
    ensures HandshakeInv(Run(s, es)) && WriteInv(Run(s, es).wire)
    decreases |es|
  {
    hide Step, HandshakeInv, WriteInv;
    if es != [] {
      HandshakeStep(s, es[0]);
      WriteStep(s, es[0]);
      HandshakeKept(Step(s, es[0]), es[1..]);
    }
  }

  /** Over every run: no MSG and no XSUBINFO comes before INFO, `+OK` comes right after it when the
      client is verbose, there is one INFO at most, and a refused client is sent nothing more. */
  lemma Handshake(es: seq<Event>)
    ensures Greets(Run(Start(), es))
    ensures WriteInv(Run(Start(), es).wire)
  {
    assert Waiting(Start());
    HandshakeKept(Start(), es);
  }
}
