/** The client object of the LA-CAL bridge and the methods that change it. Each method is proved to
    be steps of the session machine taken in a row; `Session` says what may come between them. */
module ClientSession {
  import opened Results
  import opened Protocol
  import opened Session
  import Glob

  // -- a handler without interruption ---------------------------------------------------------------

  /** What remains of a handler, run to its end. */
  function Drain(s: Session): (t: Session)
    ensures t.handler == []
    decreases |s.handler|
  {
    if s.handler == [] then s else Drain(Continue(s))
  }

  /** Draining is a run of the machine in which only the handler moves. */
  lemma {:induction false} DrainIsRun(s: Session)
    ensures Drain(s) == Run(s, seq(|s.handler|, _ => Resume))
    decreases |s.handler|
  {
    var es := seq(|s.handler|, _ => Resume);
    if s.handler != [] {
      DrainIsRun(Continue(s));
      assert es[1..] == seq(|s.handler| - 1, _ => Resume);
    }
  }

  function DoAll(s: Session, todo: seq<Todo>): Session
    decreases |todo|
  {
    if todo == [] then s else DoAll(Do(s, todo[0]), todo[1..])
  }

  /** A handler's reply, all but re-arming the read. */
  function Finish(t: Session): Session
    requires t.handler != []
  {
    DoAll(t.(handler := []), t.handler[..|t.handler| - 1])
  }

  lemma {:induction false} DrainDoesAll(s: Session, todo: seq<Todo>, last: Todo)
    requires s.handler == todo + [last]
    ensures Drain(s) == Do(DoAll(s.(handler := []), todo), last)
    decreases |todo|
  {
    hide Drain;
    if todo == [] {
      assert s.handler == [last];
      DrainOne(s);
      DrainOne(Continue(s));
    } else {
      assert s.handler[0] == todo[0] && s.handler[1..] == todo[1..] + [last];
      DrainOne(s);
      DrainDoesAll(Continue(s), todo[1..], last);
      assert Continue(s).(handler := []) == Do(s.(handler := []), todo[0]);
    }
  }

  lemma DrainOne(s: Session)
    ensures Drain(s) == if s.handler == [] then s else Drain(Continue(s))
  {
  }

  // -- the object --------------------------------------------------------------------------------------

  class Client {
    var open: bool
    var initialized: bool
    var verbose: bool
    var phase: Phase
    var xsubs: seq<XSub>
    var standardSubs: map<string, StandardSub>
    var concreteSubs: map<string, string>
    var nextSubId: nat
    var writeQueue: seq<Line>
    // Histories and the asio queue, which the class in the program does not hold itself.
    var posted: seq<Line>
    var ran: nat
    var inFlight: nat
    var written: seq<Line>
    var started: nat
    var failed: bool
    var wild: seq<XSub>
    var made: seq<StandardSub>
    var issued: seq<Issue>

    /** What the object holds, as a state of the machine with no handler and no pass under way. */
    function View(): Session
      reads this
    {
      Session(open, initialized, verbose, phase, [], [],
              Tables(xsubs, standardSubs, concreteSubs, nextSubId, wild, made, issued),
              Wire(posted, ran, writeQueue, inFlight, written, started, failed))
    }

    constructor ()
      ensures View() == Start()
    {
      open, initialized, verbose, phase := true, false, true, Http;
      xsubs, standardSubs, concreteSubs, nextSubId := [], map[], map[], 1;
      writeQueue, posted, ran, inFlight, written, started, failed := [], [], 0, 0, [], 0, false;
      wild, made, issued := [], [], [];
    }

    method SendLine(line: Line) returns (sent: bool)
      modifies this`posted
      ensures View() == Do(old(View()), Send(line)) && sent == open
    {
      if !open {
        return false;
      }
      posted := posted + [line];
      return true;
    }

    /** The acknowledgement that ends a handler. */
    method Acknowledge()
      requires phase == Handling
      modifies this`posted
      ensures View() == Finish(Reply(old(View()), Ack(old(View()))))
    {
      FinishReply(View(), Ack(View()));
      if verbose {
        var _ := SendLine(Okay);
        assert [Send(Okay)][1..] == [];
      }
    }

    /** The error line that ends a handler. */
    method Refuse(reason: Reason)
      requires phase == Handling
      modifies this`posted
      ensures View() == Finish(Reply(old(View()), [Send(Failure(reason))]))
      ensures View().(open := false) == Finish(Reply(old(View()), [Send(Failure(reason)), Close]))
    {
      FinishReply(View(), [Send(Failure(reason))]);
      FinishReply(View(), [Send(Failure(reason)), Close]);
      assert [Send(Failure(reason))][1..] == [];
      assert [Send(Failure(reason)), Close][1..] == [Close] && [Close][1..] == [];
      var _ := SendLine(Failure(reason));
    }

    method HandleInitLine(init: InitArgument) returns (ok: bool)
      requires phase == Handling
      modifies this
      ensures (if ok then View() else View().(open := false)) == Finish(HandleInit(old(View()), init))
    {
      hide Finish, DoAll;
      if initialized {
        Refuse(IllegalState);
        return false;
      }
      match init
      case Broken(verboseSet) =>
        if verboseSet.Some? { verbose := verboseSet.value; }
        Refuse(IllegalArgument);
        return false;
      case MissingField =>
        Refuse(IllegalArgument);
        return false;
      case NoVersion =>
        Refuse(UnsupportedVersion);
        return false;
      case Accepted(v, serviceId) =>
        verbose := v;
        initialized := true;
        ghost var s := View();
        var _ := SendLine(Info(serviceId));
        FinishFirst(s, Send(Info(serviceId)), Ack(s));
        Acknowledge();
        return true;
    }

    method HandleXSub(rest: string)
      requires phase == Handling
      modifies this
      ensures View() == Finish(Serve(old(View()), XSubCommand(SplitFields(rest))))
    {
      hide Finish, DoAll, SplitFields, ValidToken;
      var fields := Fields(rest);
      if |fields| < 2 || |fields| > 3 || !ValidToken(fields[0]) {
        Refuse(IllegalArgument);
        return;
      }
      var xsub := XSub(fields[0], fields[1], "*");
      if |fields| == 3 {
        xsub := xsub.(messagePattern := fields[2]);
      }
      xsubs := xsubs + [xsub];
      wild := wild + [xsub];
      Acknowledge();
    }

    method HandleSub(rest: string)
      requires phase == Handling
      modifies this
      ensures View() == Finish(Serve(old(View()), SubCommand(SplitFields(rest))))
    {
      hide Finish, DoAll, SplitFields, ValidToken;
      var fields := Fields(rest);
      if |fields| < 3 || |fields| > 4 {
        Refuse(IllegalArgument);
        return;
      }
      if !ValidToken(fields[0]) || !ValidToken(fields[2]) || (|fields| == 4 && !ValidToken(fields[3])) {
        Refuse(IllegalArgument);
        return;
      }
      var sub := StandardSub(fields[0], fields[1], fields[2], |made|);
      if sub.id in standardSubs {
        Refuse(IllegalState);
        return;
      }
      standardSubs := standardSubs[sub.id := sub];
      made := made + [sub];
      Acknowledge();
    }

    method HandleUnsub(rest: string)
      requires phase == Handling
      modifies this
      ensures View() == Finish(Serve(old(View()), UnsubCommand(SplitFields(rest))))
    {
      hide Finish, DoAll, SplitFields, ValidToken;
      var fields := Fields(rest);
      if |fields| != 1 || !ValidToken(fields[0]) {
        Refuse(IllegalArgument);
        return;
      }
      if fields[0] !in standardSubs {
        Refuse(IllegalState);
        return;
      }
      standardSubs := standardSubs - {fields[0]};
      Acknowledge();
    }

    method HandleXUnsub(rest: string)
      requires phase == Handling
      modifies this
      ensures View() == Finish(Serve(old(View()), XUnsubCommand(SplitFields(rest))))
    {
      hide Finish, DoAll, SplitFields, ValidToken;
      var fields := Fields(rest);
      if |fields| != 1 || !ValidToken(fields[0]) {
        Refuse(IllegalArgument);
        return;
      }
      xsubs := RemoveStream(xsubs, fields[0]);
      concreteSubs := EraseStream(concreteSubs, fields[0]);
      assert View().tables == DropStream(old(View()).tables, fields[0]);
      Acknowledge();
    }

    method HandleLine(payload: string, init: InitArgument)
      requires phase == Handling
      modifies this
      ensures View() == Finish(Handle(old(View()), Parse(payload), init))
    {
      hide Finish, DoAll, SplitFields, FirstField, HandleInit, ValidToken, AddSub, AddXSub, DropStream;
      var op, rest := SplitFirst(payload);
      if op.None? {
        FinishNothing(View());
        return;
      }
      if op.value == "INIT" {
        var ok := HandleInitLine(init);
        if !ok { open := false; }
      } else if !initialized {
        Refuse(IllegalState);
        open := false;
      } else if op.value == "XSUB" {
        HandleXSub(rest);
      } else if op.value == "XUNSUB" {
        HandleXUnsub(rest);
      } else if op.value == "SUB" {
        HandleSub(rest);
      } else if op.value == "UNSUB" {
        HandleUnsub(rest);
      } else if op.value == "PUB" {
        Refuse(IllegalState);
      } else {
        Refuse(IllegalArgument);
      }
    }

    /** Completion of a read of a text frame. */
    method OnText(payload: string, init: InitArgument)
      requires phase == Reading
      modifies this
      ensures View() == Drain(Step(old(View()), Received(payload, init)))
    {
      hide Finish, Handle, Parse, Drain;
      phase := Handling;
      HandleLine(payload, init);
      phase := if open then Reading else Stopped;
      DrainHandled(old(View()), Parse(payload), init);
    }

    /** The lambda that `SendLine` posted. */
    method RunPostedLine(line: Line)
      requires phase != Handling && ran < |posted| && line == posted[ran]
      modifies this
      ensures View() == Step(old(View()), RunPosted)
    {
      hide Step;
      RunPostedStep(View());
      var writeInProgress := writeQueue != [];
      writeQueue := writeQueue + [line];
      ran := ran + 1;
      if !writeInProgress {
        WriteNext();
      }
    }

    method WriteNext()
      modifies this`inFlight, this`started
      ensures View().wire == StartWrite(old(View()).wire)
    {
      inFlight, started := inFlight + 1, started + 1;
    }

    method OnWritten(ok: bool)
      requires phase != Handling && inFlight > 0 && writeQueue != []
      modifies this
      ensures View() == Step(old(View()), WriteDone(ok))
    {
      hide Step;
      WriteDoneStep(View(), ok);
      inFlight := inFlight - 1;
      if !ok {
        open := false;
        failed := true;
        return;
      }
      written := written + [writeQueue[0]];
      writeQueue := writeQueue[1..];
      if writeQueue != [] {
        WriteNext();
      }
    }

    method EnsureConcreteSubscription(stream: OneLine, topic: string, message: OneLine)
      returns (isNew: bool, id: string)
      modifies this`nextSubId, this`concreteSubs, this`issued
      ensures isNew == (Key(stream, topic, message) !in old(concreteSubs))
      ensures Key(stream, topic, message) in concreteSubs && id == concreteSubs[Key(stream, topic, message)]
      ensures isNew ==> id == GenId(old(nextSubId))
      ensures View() == if isNew then old(View()).(tables := Issued(old(View()).tables, stream, topic, message)) else old(View())
    {
      var key := Key(stream, topic, message);
      if key in concreteSubs {
        return false, concreteSubs[key];
      }
      id := GenId(nextSubId);
      nextSubId := nextSubId + 1;
      concreteSubs := concreteSubs[key := id];
      issued := issued + [Issue(stream, topic, message)];
      return true, id;
    }

    /** The copy of the standard subscriptions that a delivery works from. */
    method Snapshot() returns (subs: seq<StandardSub>, order: seq<string>)
      ensures Enumerates(order, standardSubs.Keys)
      ensures |subs| == |order| && forall i :: 0 <= i < |order| ==> order[i] in standardSubs && subs[i] == standardSubs[order[i]]
    {
      subs, order := [], [];
      var todo := standardSubs.Keys;
      while todo != {}
        invariant todo <= standardSubs.Keys
        invariant forall k :: k in standardSubs.Keys ==> (k in order <==> k !in todo)
        invariant forall i :: 0 <= i < |order| ==> order[i] in standardSubs
        invariant forall i, j :: 0 <= i < j < |order| ==> order[i] != order[j]
        invariant |subs| == |order| && forall i :: 0 <= i < |order| ==> subs[i] == standardSubs[order[i]]
        decreases |todo|
      {
        var k :| k in todo;
        todo := todo - {k};
        subs, order := subs + [standardSubs[k]], order + [k];
      }
    }

    /** A line that the pass sends: the check of `open`, then the posting. */
    method SendFromPass(ghost was: Session, ghost es: seq<Event>, ghost rest: seq<Act>, line: Line)
      returns (ghost fs: seq<Event>)
      requires open && Run(was, es) == View().(pass := [Check(line)] + rest)
      modifies this`posted
      ensures Run(was, fs) == View().(pass := rest)
      ensures View() == Do(old(View()), Send(line)) && fs == es + [Event.Deliver([]), Event.Deliver([])]
    {
      hide Run, AsioStep, Continue, Enumerates, StandardActs, WildcardActs;
      ghost var s := View();
      var _ := SendLine(line);
      fs := es + [Event.Deliver([])];
      RunThen(was, es, Event.Deliver([]));
      CheckThenPost(s, rest, line);
      RunThen(was, fs, Event.Deliver([]));
      fs := fs + [Event.Deliver([])];
    }

    /** The wildcard part of a delivery, for one matching wildcard subscription. */
    method DeliverConcrete(ghost was: Session, ghost es: seq<Event>, ghost rest: seq<Act>, stream: OneLine, sample: Sample)
      returns (ghost fs: seq<Event>)
      requires open && Run(was, es) == View().(pass := [Ensure(stream, sample)] + rest)
      modifies this`posted, this`nextSubId, this`concreteSubs, this`issued
      ensures open && Run(was, fs) == View().(pass := rest)
      ensures es <= fs && forall i :: |es| <= i < |fs| ==> fs[i].Deliver?
    {
      hide Run, AsioStep, Continue, Enumerates, StandardActs, WildcardActs, Key, GenId;
      ghost var s := View();
      var isNew, id := EnsureConcreteSubscription(stream, sample.topic, sample.message);
      fs := es + [Event.Deliver([])];
      RunThen(was, es, Event.Deliver([]));
      EnsureStep(s, rest, stream, sample);
      ghost var msg := Msg(id, sample, Wildcard(stream));
      if isNew {
        fs := SendFromPass(was, fs, [Check(msg)] + rest, XSubInfo(stream, id, sample.topic, sample.message));
      }
      fs := SendFromPass(was, fs, rest, Msg(id, sample, Wildcard(stream)));
    }

    /** The standard fan-out of a delivery, over its copy of the subscriptions. */
    method DeliverStandard(subs: seq<StandardSub>, sample: Sample,
                           ghost order: seq<string>, ghost was: Session, ghost es: seq<Event>, ghost more: seq<Act>)
      returns (ghost fs: seq<Event>)
      requires |subs| == |order| && forall i :: 0 <= i < |order| ==> order[i] in standardSubs && subs[i] == standardSubs[order[i]]
      requires open && Run(was, es) == View().(pass := StandardActs(standardSubs, order, sample) + more)
      modifies this`posted
      ensures open && Run(was, fs) == View().(pass := more)
      ensures es <= fs && forall i :: |es| <= i < |fs| ==> fs[i].Deliver?
    {
      hide Run, StandardActs, WildcardActs;
      fs := es;
      assert order[0..] == order;
      for i := 0 to |subs|
        invariant open
        invariant Run(was, fs) == View().(pass := StandardActs(standardSubs, order[i..], sample) + more)
        invariant es <= fs && forall i :: |es| <= i < |fs| ==> fs[i].Deliver?
      {
        ghost var rest := StandardActs(standardSubs, order[i + 1..], sample) + more;
        NextStandard(standardSubs, order, i, sample, more);
        if subs[i].topic == sample.topic && subs[i].message == sample.message {
          fs := SendFromPass(was, fs, rest, Msg(subs[i].id, sample, Standard(subs[i].serial)));
        }
      }
      NoMoreActs(standardSubs, order, sample, more);
    }

    /** The wildcard fan-out of a delivery, over its copy of the wildcard subscriptions. */
    method DeliverWildcards(xs: seq<XSub>, sample: Sample, ghost was: Session, ghost es: seq<Event>)
      returns (ghost fs: seq<Event>)
      requires open && Run(was, es) == View().(pass := WildcardActs(xs, sample))
      modifies this`posted, this`nextSubId, this`concreteSubs, this`issued
      ensures View() == Run(was, fs)
      ensures es <= fs && forall i :: |es| <= i < |fs| ==> fs[i].Deliver?
    {
      hide Run, StandardActs, WildcardActs;
      fs := es;
      assert xs[0..] == xs;
      for i := 0 to |xs|
        invariant open
        invariant Run(was, fs) == View().(pass := WildcardActs(xs[i..], sample))
        invariant es <= fs && forall i :: |es| <= i < |fs| ==> fs[i].Deliver?
      {
        ghost var rest := WildcardActs(xs[i + 1..], sample);
        NextWildcard(xs, i, sample);
        var topicHit, _ := Glob.GlobMatch(xs[i].topicPattern, sample.topic);
        var messageHit, _ := Glob.GlobMatch(xs[i].messagePattern, sample.message);
        if topicHit && messageHit {
          fs := DeliverConcrete(was, fs, rest, xs[i].stream, sample);
        }
      }
      NoMoreActs(map[], [], sample, []);
      assert xs[|xs|..] == [];
    }

    /** One delivery to this client. Uninterrupted it is a run of the machine in which only the
        monitor moves, from the visit to the end of the pass. */
    method Deliver(sample: Sample) returns (ghost es: seq<Event>)
      modifies this`posted, this`nextSubId, this`concreteSubs, this`issued
      ensures View() == Run(old(View()), es)
      ensures es != [] && es[0] == Visit(sample) && forall i :: 1 <= i < |es| ==> es[i].Deliver?
    {
      hide Run, Advance, AsioStep, Enumerates, StandardActs, WildcardActs;
      ghost var was := View();
      es := [Visit(sample)];
      RunOne(was, Visit(sample));
      if !open {
        return;
      }
      var xs := xsubs;
      var subs, order := Snapshot();
      es := es + [Event.Deliver(order)];
      RunThen(was, [Visit(sample)], Event.Deliver(order));
      TakeSnapshot(was, order, sample);
      es := DeliverStandard(subs, sample, order, was, es, WildcardActs(xs, sample));
      es := DeliverWildcards(xs, sample, was, es);
    }
  }

  lemma RunPostedStep(s: Session)
    requires !Busy(s) && s.wire.ran < |s.wire.posted|
    ensures Step(s, RunPosted) == s.(wire := Enqueue(s.wire))
  {
  }

  lemma WriteDoneStep(s: Session, ok: bool)
    requires !Busy(s) && s.wire.inFlight > 0 && s.wire.queue != []
    ensures Step(s, WriteDone(ok)) == s.(open := s.open && ok, wire := FinishWrite(s.wire, ok))
  {
  }

  lemma RunOne(s: Session, e: Event)
    ensures Run(s, [e]) == Step(s, e)
  {
    assert [e][1..] == [];
  }

  lemma CheckThenPost(s: Session, rest: seq<Act>, line: Line)
    requires s.open && s.handler == []
    ensures Step(s.(pass := [Check(line)] + rest), Event.Deliver([])) == s.(pass := [Post(line)] + rest)
    ensures Step(s.(pass := [Post(line)] + rest), Event.Deliver([])) == Do(s, Send(line)).(pass := rest)
  {
    assert ([Check(line)] + rest)[1..] == rest && ([Post(line)] + rest)[1..] == rest;
  }

  lemma EnsureStep(s: Session, rest: seq<Act>, stream: OneLine, sample: Sample)
    ensures var key, id := Key(stream, sample.topic, sample.message), GenId(s.tables.nextId);
      Step(s.(pass := [Ensure(stream, sample)] + rest), Event.Deliver([])) ==
        if key in s.tables.concrete then
          s.(pass := [Check(Msg(s.tables.concrete[key], sample, Wildcard(stream)))] + rest)
        else
          s.(tables := Issued(s.tables, stream, sample.topic, sample.message),
             pass := [Check(XSubInfo(stream, id, sample.topic, sample.message))] + ([Check(Msg(id, sample, Wildcard(stream)))] + rest))
  {
    hide Key, GenId;
    assert ([Ensure(stream, sample)] + rest)[1..] == rest;
    var id := GenId(s.tables.nextId);
    var a, b := Check(XSubInfo(stream, id, sample.topic, sample.message)), Check(Msg(id, sample, Wildcard(stream)));
    assert [a, b] + rest == [a] + ([b] + rest);
  }

  lemma TakeSnapshot(s: Session, order: seq<string>, sample: Sample)
    requires s.open && s.pass == [] && Enumerates(order, s.tables.subs.Keys)
    ensures Step(Step(s, Visit(sample)), Event.Deliver(order)) ==
      s.(pass := StandardActs(s.tables.subs, order, sample) + WildcardActs(s.tables.xsubs, sample))
  {
    var acts := StandardActs(s.tables.subs, order, sample) + WildcardActs(s.tables.xsubs, sample);
    assert acts + [Look(sample)][1..] == acts;
  }

  lemma NextStandard(subs: map<string, StandardSub>, order: seq<string>, i: nat, sample: Sample, more: seq<Act>)
    requires i < |order| && forall i :: 0 <= i < |order| ==> order[i] in subs
    ensures var sub, rest := subs[order[i]], StandardActs(subs, order[i + 1..], sample) + more;
      StandardActs(subs, order[i..], sample) + more ==
        if sub.topic == sample.topic && sub.message == sample.message then [Check(Msg(sub.id, sample, Standard(sub.serial)))] + rest else rest
  {
    assert order[i..][1..] == order[i + 1..];
  }

  lemma NextWildcard(xs: seq<XSub>, i: nat, sample: Sample)
    requires i < |xs|
    ensures WildcardActs(xs[i..], sample) ==
      if Glob.Glob(xs[i].topicPattern, sample.topic) && Glob.Glob(xs[i].messagePattern, sample.message) then
        [Ensure(xs[i].stream, sample)] + WildcardActs(xs[i + 1..], sample)
      else WildcardActs(xs[i + 1..], sample)
  {
    assert xs[i..][1..] == xs[i + 1..];
  }

  lemma NoMoreActs(subs: map<string, StandardSub>, order: seq<string>, sample: Sample, more: seq<Act>)
    requires forall i :: 0 <= i < |order| ==> order[i] in subs
    ensures StandardActs(subs, order[|order|..], sample) + more == more
    ensures WildcardActs([], sample) == []
  {
  }

  lemma DrainHandled(s: Session, c: Command, init: InitArgument)
    requires s.handler == []
    ensures Drain(Handle(s, c, init)) == Do(Finish(Handle(s.(phase := Handling), c, init)), Rearm)
  {
    hide Drain, DoAll;
    var t := Handle(s, c, init);
    assert t == Handle(s.(phase := Handling), c, init);
    DrainDoesAll(t, t.handler[..|t.handler| - 1], Rearm);
  }

  lemma FinishReply(s: Session, todo: seq<Todo>)
    requires s.phase == Handling && s.handler == []
    ensures Finish(Reply(s, todo)) == DoAll(s, todo)
  {
    assert (todo + [Rearm])[..|todo|] == todo;
  }

  lemma FinishNothing(s: Session)
    requires s.phase == Handling && s.handler == []
    ensures Finish(Reply(s, [])) == s
  {
    FinishReply(s, []);
  }

  /** The first of several lines, then the others. */
  lemma FinishFirst(s: Session, first: Todo, todo: seq<Todo>)
    requires s.phase == Handling && s.handler == []
    requires first.Send?
    ensures Finish(Reply(s, [first] + todo)) == Finish(Reply(Do(s, first), todo))
  {
    FinishReply(s, [first] + todo);
    FinishReply(Do(s, first), todo);
    assert ([first] + todo)[1..] == todo;
  }

  /** `std::remove_if` and `erase` over the wildcard subscriptions. */
  method RemoveStream(xsubs: seq<XSub>, stream: string) returns (kept: seq<XSub>)
    ensures kept == WithoutStream(xsubs, stream)
  {
    kept := [];
    for i := 0 to |xsubs|
      invariant WithoutStream(xsubs, stream) == kept + WithoutStream(xsubs[i..], stream)
    {
      assert xsubs[i..][1..] == xsubs[i + 1..];
      if xsubs[i].stream != stream {
        kept := kept + [xsubs[i]];
      }
    }
  }

  /** The erasing loop over the concrete subscriptions, in whatever order the map is walked. */
  method EraseStream(concrete: map<string, string>, stream: string) returns (kept: map<string, string>)
    ensures kept == map k | k in concrete && !(stream + "\n" <= k) :: concrete[k]
  {
    kept := concrete;
    var todo := concrete.Keys;
    while todo != {}
      invariant todo <= concrete.Keys
      invariant kept == map k | k in concrete && (k in todo || !(stream + "\n" <= k)) :: concrete[k]
      decreases |todo|
    {
      var k :| k in todo;
      todo := todo - {k};
      if stream + "\n" <= k {
        kept := kept - {k};
      }
    }
  }
}
