/** One LA-CAL client as the two server threads see it, at the granularity of lock regions.

    The asio thread runs one completion handler at a time; a handler that takes the state lock
    sends its reply only after releasing it, so the rest of a handler is kept in `handler` and
    executed step by step. The monitor thread delivers one sample at a time; the rest of its pass
    over this client is kept in `pass`. An event that is not enabled changes nothing, so every
    sequence of events is a run. */
module Session {
  import opened Results
  import opened Protocol
  import Glob

  // -- commands ----------------------------------------------------------------------------------

  datatype Reason = IllegalState | IllegalArgument | UnsupportedVersion

  datatype Command =
    | Blank
    | Init
    | XSubscribe(xsub: XSub)
    | XUnsubscribe(stream: string)
    | Subscribe(id: string, message: string, topic: string)
    | Unsubscribe(id: string)
    | Refused(reason: Reason)

  datatype XSub = XSub(stream: OneLine, topicPattern: string, messagePattern: string)

  function XSubCommand(f: seq<string>): Command {
    if |f| < 2 || |f| > 3 || !ValidToken(f[0]) then Refused(IllegalArgument)
    else XSubscribe(XSub(f[0], f[1], if |f| == 3 then f[2] else "*"))
  }

  function SubCommand(f: seq<string>): Command {
    if |f| < 3 || |f| > 4 || !ValidToken(f[0]) || !ValidToken(f[2]) || (|f| == 4 && !ValidToken(f[3])) then
      Refused(IllegalArgument)
    else Subscribe(f[0], f[1], f[2])
  }

  function UnsubCommand(f: seq<string>): Command {
    if |f| != 1 || !ValidToken(f[0]) then Refused(IllegalArgument) else Unsubscribe(f[0])
  }

  function XUnsubCommand(f: seq<string>): Command {
    if |f| != 1 || !ValidToken(f[0]) then Refused(IllegalArgument) else XUnsubscribe(f[0])
  }

  function Parse(payload: string): (c: Command)
    ensures c.XSubscribe? ==> ValidToken(c.xsub.stream)
    ensures c.XUnsubscribe? ==> ValidToken(c.stream)
    ensures c.Subscribe? ==> ValidToken(c.id) && ValidToken(c.topic)
    ensures c.Unsubscribe? ==> ValidToken(c.id)
  {
    match FirstField(payload)
    case None => Blank
    case Some((op, rest)) =>
      if op == "INIT" then Init
      else if op == "XSUB" then XSubCommand(SplitFields(rest))
      else if op == "XUNSUB" then XUnsubCommand(SplitFields(rest))
      else if op == "SUB" then SubCommand(SplitFields(rest))
      else if op == "UNSUB" then UnsubCommand(SplitFields(rest))
      else if op == "PUB" then Refused(IllegalState)
      else Refused(IllegalArgument)
  }

  /** What the JSON argument of INIT turns out to be; `Broken` is any exception, thrown before or
      after `verbose` was set. */
  datatype InitArgument =
    | Broken(verboseSet: Option<bool>)
    | MissingField
    | NoVersion
    | Accepted(verbose: bool, serviceId: string)

  // -- lines ---------------------------------------------------------------------------------------

  datatype Sample = Sample(topic: string, message: OneLine, json: string)

  /** The subscription a MSG line comes from. A standard one is told apart from earlier and later
      ones of the same id by its serial number, which the program does not have. */
  datatype Origin = Standard(serial: nat) | Wildcard(stream: OneLine)

  /** A line sent to the client. `sample` and `origin` say why a MSG was sent; only its id and the
      JSON of the sample are on the wire. */
  datatype Line =
    | Info(serviceId: string)
    | Okay
    | Failure(reason: Reason)
    | XSubInfo(stream: OneLine, id: string, topic: string, message: OneLine)
    | Msg(id: string, sample: Sample, origin: Origin)

  // -- state -----------------------------------------------------------------------------------------

  datatype Phase = Http | Rejecting | Accepting | Reading | Handling | Stopped

  /** What remains of an asio handler. */
  datatype Todo = Send(line: Line) | Close | Rearm

  /** What remains of a delivery pass. `sendLine` reads `open` and posts in two steps. */
  datatype Act =
    | Look(sample: Sample)
    | Check(line: Line)
    | Post(line: Line)
    | Ensure(stream: OneLine, sample: Sample)

  datatype StandardSub = StandardSub(id: string, message: string, topic: string, serial: nat)

  /** A (stream, topic, message) that was given a concrete id. */
  datatype Issue = Issue(stream: OneLine, topic: string, message: OneLine)

  /** What `stateMutex` protects. */
  datatype Tables = Tables(
    xsubs: seq<XSub>,
    subs: map<string, StandardSub>,
    concrete: map<string, string>,
    nextId: nat,
    wild: seq<XSub>,         // history: wildcard subscriptions made
    made: seq<StandardSub>,  // history: standard subscriptions made; the k-th has serial k
    issued: seq<Issue>       // history: concrete ids handed out; the k-th is GenId(k + 1)
  )

  /** Lines on their way out. */
  datatype Wire = Wire(
    posted: seq<Line>,   // history: everything posted to the asio thread, in order
    ran: nat,            // how many of the posted lambdas have run
    queue: seq<Line>,
    inFlight: nat,       // writes started and not completed
    written: seq<Line>,  // history: lines whose write completed
    started: nat,        // history: writes started
    failed: bool         // history: a write has failed
  )

  datatype Session = Session(
    open: bool,
    initialized: bool,
    verbose: bool,
    phase: Phase,
    handler: seq<Todo>,
    pass: seq<Act>,
    tables: Tables,
    wire: Wire
  )

  function Start(): Session {
    Session(true, false, true, Http, [], [], Tables([], map[], map[], 1, [], [], []), Wire([], 0, [], 0, [], 0, false))
  }

  datatype Event =
    | Request(ok: bool, owp: bool)
    | Rejected
    | Upgraded(ok: bool)
    | ReadFailed
    | ReceivedBinary
    | Received(payload: string, init: InitArgument)
    | Resume
    | RunPosted
    | WriteDone(ok: bool)
    | Visit(sample: Sample)
    | Deliver(order: seq<string>)

  // -- the asio thread ---------------------------------------------------------------------------------

  /** The sendLine calls and the closing that follow a handler's lock region. */
  function Reply(s: Session, todo: seq<Todo>): Session {
    s.(phase := Handling, handler := todo + [Rearm])
  }

  function Ack(s: Session): seq<Todo> {
    if s.verbose then [Send(Okay)] else []
  }

  function HandleInit(s: Session, init: InitArgument): Session {
    if s.initialized then Reply(s, [Send(Failure(IllegalState)), Close])
    else
      match init
      case Broken(v) =>
        Reply(if v.Some? then s.(verbose := v.value) else s, [Send(Failure(IllegalArgument)), Close])
      case MissingField => Reply(s, [Send(Failure(IllegalArgument)), Close])
      case NoVersion => Reply(s, [Send(Failure(UnsupportedVersion)), Close])
      case Accepted(v, serviceId) =>
        var s := s.(verbose := v, initialized := true);
        Reply(s, [Send(Info(serviceId))] + Ack(s))
  }

  /** `std::remove_if` over the wildcard subscriptions. */
  function WithoutStream(xsubs: seq<XSub>, stream: string): seq<XSub> {
    if xsubs == [] then []
    else (if xsubs[0].stream == stream then [] else [xsubs[0]]) + WithoutStream(xsubs[1..], stream)
  }

  function DropStream(t: Tables, stream: string): Tables {
    var kept := map k | k in t.concrete && !(stream + "\n" <= k) :: t.concrete[k];
    t.(xsubs := WithoutStream(t.xsubs, stream), concrete := kept)
  }

  function AddSub(t: Tables, id: string, message: string, topic: string): Tables {
    var sub := StandardSub(id, message, topic, |t.made|);
    t.(subs := t.subs[id := sub], made := t.made + [sub])
  }

  function AddXSub(t: Tables, x: XSub): Tables {
    t.(xsubs := t.xsubs + [x], wild := t.wild + [x])
  }

  /** A command other than INIT, after the handshake. */
  function Serve(s: Session, c: Command): Session {
    match c
    case XSubscribe(x) => Reply(s.(tables := AddXSub(s.tables, x)), Ack(s))
    case XUnsubscribe(stream) => Reply(s.(tables := DropStream(s.tables, stream)), Ack(s))
    case Subscribe(id, message, topic) =>
      if id in s.tables.subs then Reply(s, [Send(Failure(IllegalState))])
      else Reply(s.(tables := AddSub(s.tables, id, message, topic)), Ack(s))
    case Unsubscribe(id) =>
      if id !in s.tables.subs then Reply(s, [Send(Failure(IllegalState))])
      else Reply(s.(tables := s.tables.(subs := s.tables.subs - {id})), Ack(s))
    case Refused(reason) => Reply(s, [Send(Failure(reason))])
    case _ => Reply(s, [])
  }

  function Handle(s: Session, c: Command, init: InitArgument): Session {
    if c == Blank then Reply(s, [])
    else if c == Init then HandleInit(s, init)
    else if !s.initialized then Reply(s, [Send(Failure(IllegalState)), Close])
    else Serve(s, c)
  }

  function Posted(w: Wire, line: Line): Wire {
    w.(posted := w.posted + [line])
  }

  function Do(s: Session, todo: Todo): Session {
    match todo
    case Send(line) => if s.open then s.(wire := Posted(s.wire, line)) else s
    case Close => s.(open := false)
    case Rearm => s.(phase := if s.open then Reading else Stopped)
  }

  /** The next step of the running handler. */
  function Continue(s: Session): Session
    requires s.handler != []
  {
    Do(s.(handler := s.handler[1..]), s.handler[0])
  }

  /** A posted lambda: queue the line, and start writing unless a write is in progress. */
  function Enqueue(w: Wire): Wire
    requires w.ran < |w.posted|
  {
    var next := w.(ran := w.ran + 1, queue := w.queue + [w.posted[w.ran]]);
    if w.queue == [] then StartWrite(next) else next
  }

  function StartWrite(w: Wire): Wire {
    w.(inFlight := w.inFlight + 1, started := w.started + 1)
  }

  /** Completion of a write; the line being written is the head of the queue. */
  function FinishWrite(w: Wire, ok: bool): Wire
    requires w.inFlight > 0 && w.queue != []
  {
    var done := w.(inFlight := w.inFlight - 1);
    if !ok then done.(failed := true)
    else
      var next := done.(written := w.written + [w.queue[0]], queue := w.queue[1..]);
      if next.queue == [] then next else StartWrite(next)
  }

  // -- the monitor thread ---------------------------------------------------------------------------------

  function StandardActs(subs: map<string, StandardSub>, order: seq<string>, sample: Sample): seq<Act>
    requires forall i :: 0 <= i < |order| ==> order[i] in subs
  {
    if order == [] then []
    else
      var sub := subs[order[0]];
      (if sub.topic == sample.topic && sub.message == sample.message then
         [Check(Msg(sub.id, sample, Standard(sub.serial)))]
       else [])
      + StandardActs(subs, order[1..], sample)
  }

  function WildcardActs(xsubs: seq<XSub>, sample: Sample): seq<Act> {
    if xsubs == [] then []
    else
      (if Glob.Glob(xsubs[0].topicPattern, sample.topic) && Glob.Glob(xsubs[0].messagePattern, sample.message) then
         [Ensure(xsubs[0].stream, sample)]
       else [])
      + WildcardActs(xsubs[1..], sample)
  }

  /** An iteration order of an unordered map: each key once. */
  predicate Enumerates(order: seq<string>, keys: set<string>) {
    && (forall i :: 0 <= i < |order| ==> order[i] in keys)
    && (forall k :: k in keys ==> k in order)
    && forall i, j :: 0 <= i < j < |order| ==> order[i] != order[j]
  }

  function Issued(t: Tables, stream: OneLine, topic: string, message: OneLine): Tables {
    t.(nextId := t.nextId + 1,
       concrete := t.concrete[Key(stream, topic, message) := GenId(t.nextId)],
       issued := t.issued + [Issue(stream, topic, message)])
  }

  /** The next step of the delivery pass. */
  function Advance(s: Session, order: seq<string>): Session
    requires s.pass != []
  {
    var rest := s.pass[1..];
    match s.pass[0]
    case Look(sample) =>
      if Enumerates(order, s.tables.subs.Keys) then
        s.(pass := StandardActs(s.tables.subs, order, sample) + WildcardActs(s.tables.xsubs, sample) + rest)
      else s
    case Check(line) => s.(pass := (if s.open then [Post(line)] else []) + rest)
    case Post(line) => s.(pass := rest, wire := Posted(s.wire, line))
    case Ensure(stream, sample) =>
      var key := Key(stream, sample.topic, sample.message);
      if key in s.tables.concrete then
        s.(pass := [Check(Msg(s.tables.concrete[key], sample, Wildcard(stream)))] + rest)
      else
        var id := GenId(s.tables.nextId);
        s.(tables := Issued(s.tables, stream, sample.topic, sample.message),
           pass := [Check(XSubInfo(stream, id, sample.topic, sample.message)),
                    Check(Msg(id, sample, Wildcard(stream)))] + rest)
  }

  // -- runs ------------------------------------------------------------------------------------------------

  /** The asio thread is inside a handler: no other handler runs. */
  predicate Busy(s: Session) {
    s.handler != []
  }

  function Step(s: Session, e: Event): Session {
    match e
    case Visit(sample) => if s.pass == [] && s.open then s.(pass := [Look(sample)]) else s
    case Deliver(order) => if s.pass != [] then Advance(s, order) else s
    case Resume => if Busy(s) then Continue(s) else s
    case _ => if Busy(s) then s else AsioStep(s, e)
  }

  function AsioStep(s: Session, e: Event): Session {
    match e
    case Request(ok, owp) =>
      if s.phase != Http then s
      else if !ok then s.(open := false, phase := Stopped)
      else s.(phase := if owp then Accepting else Rejecting)
    case Rejected => if s.phase == Rejecting then s.(open := false, phase := Stopped) else s
    case Upgraded(ok) =>
      if s.phase != Accepting then s
      else if ok then s.(phase := Reading)
      else s.(open := false, phase := Stopped)
    case ReadFailed => if s.phase == Reading then s.(open := false, phase := Stopped) else s
    case ReceivedBinary => if s.phase == Reading then Reply(s, []) else s
    case Received(payload, init) => if s.phase == Reading then Handle(s, Parse(payload), init) else s
    case RunPosted => if s.wire.ran < |s.wire.posted| then s.(wire := Enqueue(s.wire)) else s
    case WriteDone(ok) =>
      if s.wire.inFlight > 0 && s.wire.queue != [] then s.(open := s.open && ok, wire := FinishWrite(s.wire, ok)) else s
    case _ => s
  }

  function Run(s: Session, es: seq<Event>): Session
    decreases |es|
  {
    if es == [] then s else Run(Step(s, es[0]), es[1..])
  }

  lemma {:induction false} RunConcat(s: Session, es: seq<Event>, fs: seq<Event>)
    ensures Run(s, es + fs) == Run(Run(s, es), fs)
    decreases |es|
  {
    if es == [] {
      assert es + fs == fs;
    } else {
      assert (es + fs)[1..] == es[1..] + fs;
      RunConcat(Step(s, es[0]), es[1..], fs);
    }
  }

  lemma RunThen(s: Session, es: seq<Event>, e: Event)
    ensures Run(s, es + [e]) == Step(Run(s, es), e)
  {
    RunConcat(s, es, [e]);
    assert [e][1..] == [];
  }
}
