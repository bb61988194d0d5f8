/** Exactly when a MSG of a standard subscription can still be posted after its UNSUB, and already
    before the `+OK` of its SUB. */
module SessionDelivery {
  import opened Protocol
  import opened Session
  import opened SessionWrites
  import opened SessionAnnounce
  import opened SessionOrigins
  import opened SessionCommands
  import opened SessionUnsub
  import opened SessionPasses

  // -- when nothing can be posted any more ---------------------------------------------------------

  /** The pass will not post a MSG of the k-th subscription: what carries one will be checked, and
      the check will fail. */
  predicate Silent(s: Session, k: nat) {
    forall i :: 0 <= i < |s.pass| && CarriesSerial(s.pass[i], k) ==> s.pass[i].Check? && !s.open
  }

  /** No later snapshot will bring up the k-th subscription, or nothing will be posted at all. */
  predicate Over(s: Session, k: nat) {
    !s.open || (!Live(s.tables, k) && k < |s.tables.made|)
  }

  lemma NoneSilent(s: Session, k: nat)
    requires forall i :: 0 <= i < |s.pass| ==> !MayPost(s, i, k)
    ensures Silent(s, k)
  {
    assert forall i :: 0 <= i < |s.pass| && CarriesSerial(s.pass[i], k) ==> !MayPost(s, i, k);
  }

  lemma {:induction false} SnapshotIsLive(t: Tables, order: seq<string>, sample: Sample, k: nat)
    requires forall i :: 0 <= i < |order| ==> order[i] in t.subs
    ensures forall a :: a in StandardActs(t.subs, order, sample) ==> a.Check? && (CarriesSerial(a, k) ==> Live(t, k))
  {
    if order != [] {
      SnapshotIsLive(t, order[1..], sample, k);
    }
  }

  lemma LookSilent(s: Session, order: seq<string>, k: nat)
    requires s.pass != [] && s.pass[0].Look? && LookAlone(s.pass) && Over(s, k) && Silent(s, k)
    ensures Silent(Advance(s, order), k) && Advance(s, order).wire == s.wire
  {
    hide StandardActs, WildcardActs;
    if Enumerates(order, s.tables.subs.Keys) {
      var sample, t := s.pass[0].sample, Advance(s, order);
      SnapshotActs(s, order);
      SnapshotIsLive(s.tables, order, sample, k);
      ActsSend(s.tables.subs, order, s.tables.xsubs, sample);
      var a, b := StandardActs(s.tables.subs, order, sample), WildcardActs(s.tables.xsubs, sample);
      assert forall i :: 0 <= i < |t.pass| ==> t.pass[i] in a || t.pass[i] in b;
    }
  }

  lemma OtherActSilent(s: Session, order: seq<string>, k: nat)
    requires s.pass != [] && !s.pass[0].Look? && Silent(s, k)
    ensures Silent(Advance(s, order), k)
    ensures Count(Advance(s, order).wire.posted, k) == Count(s.wire.posted, k)
  {
    hide GenId, Key, Count;
    assert forall i :: 0 <= i < |s.pass| - 1 ==> s.pass[1..][i] == s.pass[i + 1];
    if s.pass[0].Post? {
      CountConcat(s.wire.posted, [s.pass[0].line], k);
      CountCons(s.pass[0].line, [], k);
    }
  }

  lemma AsioSilent(s: Session, e: Event, k: nat)
    requires HandlerReplies(s.handler) && !e.Deliver? && Silent(s, k)
    ensures Silent(Step(s, e), k)
    ensures Count(Step(s, e).wire.posted, k) == Count(s.wire.posted, k)
  {
    hide Step, Count;
    AsioStepFrames(s, e);
    var old_, new_ := s.wire.posted, Step(s, e).wire.posted;
    if new_ != old_ {
      CountConcat(old_, [new_[|new_| - 1]], k);
      CountCons(new_[|new_| - 1], [], k);
    }
  }

  lemma SilentStep(s: Session, e: Event, k: nat)
    requires PassInv(s) && Silent(s, k) && Over(s, k)
    ensures Silent(Step(s, e), k) && Over(Step(s, e), k)
    ensures Count(Step(s, e).wire.posted, k) == Count(s.wire.posted, k)
  {
    hide AsioStep, Continue, Advance, Count, Silent, Live, TablesOk, Solicited, ActSolicited;
    StepGrows(s, e);
    if s.open { DeadStaysDead(s, e, k); }
    if !e.Deliver? {
      AsioSilent(s, e, k);
    } else if s.pass != [] {
      if s.pass[0].Look? { LookSilent(s, e.order, k); } else { OtherActSilent(s, e.order, k); }
    }
  }

  lemma {:induction false} SilentRun(s: Session, es: seq<Event>, k: nat)
    requires PassInv(s) && Silent(s, k) && Over(s, k)
    ensures Count(Run(s, es).wire.posted, k) == Count(s.wire.posted, k)
    decreases |es|
  {
    hide Step, Count, Silent, Over, PassInv;
    if es != [] {
      SilentStep(s, es[0], k);
      PassInvStep(s, es[0]);
      SilentRun(Step(s, es[0]), es[1..], k);
    }
  }

  // -- after UNSUB -------------------------------------------------------------------------------------

  /** In every run: once an UNSUB has erased a standard subscription, one more MSG of it can be
      posted if, and only if, the pass under way carries one that has been checked, or will be while
      the client is open. */
  lemma LateMsgIff(es: seq<Event>, payload: string, init: InitArgument, id: string)
    requires id in Run(Start(), es).tables.subs
    requires id !in Step(Run(Start(), es), Received(payload, init)).tables.subs
    ensures var s, t := Run(Start(), es), Step(Run(Start(), es), Received(payload, init));
      var k := s.tables.subs[id].serial;
      (exists fs :: Count(Run(t, fs).wire.posted, k) > Count(t.wire.posted, k)) <==> exists i :: 0 <= i < |t.pass| && MayPost(t, i, k)
  {
    hide Step, Run, Count, Solicited, ActSolicited;
    var s, e := Run(Start(), es), Received(payload, init);
    var t, k := Step(s, e), s.tables.subs[id].serial;
    StartPass();
    PassKept(Start(), es);
    PassInvStep(s, e);
    StepGrows(s, e);
    ErasedIsDead(s, e, id);
    if i :| 0 <= i < |t.pass| && MayPost(t, i, k) {
      var fs := CarriedIsPosted(t, i, k);
    } else {
      NoneSilent(t, k);
      forall fs
        ensures Count(Run(t, fs).wire.posted, k) == Count(t.wire.posted, k)
      {
        SilentRun(t, fs, k);
      }
    }
  }

  // -- before the `+OK` of SUB --------------------------------------------------------------------------

  predicate NoResume(es: seq<Event>) {
    forall i :: 0 <= i < |es| ==> !es[i].Resume?
  }

  lemma {:induction false} NotCounted(lines: seq<Line>, k: nat)
    requires forall line :: line in lines && line.Msg? ==> line.origin != Standard(k)
    ensures Count(lines, k) == 0
  {
    if lines != [] { NotCounted(lines[1..], k); }
  }

  /** The serial of the next subscription is on no line yet. */
  lemma NextSerialIsNew(s: Session)
    requires OriginInv(s)
    ensures Count(s.wire.posted, |s.tables.made|) == 0
    ensures forall i :: 0 <= i < |s.pass| ==> !CarriesSerial(s.pass[i], |s.tables.made|)
  {
    hide TablesOk, Count;
    var k := |s.tables.made|;
    assert forall line :: Solicited(s.tables, line) && line.Msg? ==> line.origin != Standard(k);
    NotCounted(s.wire.posted, k);
    assert forall i :: 0 <= i < |s.pass| ==> ActSolicited(s.tables, s.pass[i]);
  }

  /** A snapshot finds a subscription that matches. */
  lemma {:induction false} MatchIsFound(subs: map<string, StandardSub>, order: seq<string>, sample: Sample, id: string) returns (i: nat)
    requires (forall j :: 0 <= j < |order| ==> order[j] in subs) && id in order
    requires subs[id].topic == sample.topic && subs[id].message == sample.message
    ensures var acts := StandardActs(subs, order, sample);
      i < |acts| && acts[i] == Check(Msg(subs[id].id, sample, Standard(subs[id].serial)))
  {
    if order[0] == id {
      i := 0;
    } else {
      i := MatchIsFound(subs, order[1..], sample, id);
      i := i + |StandardActs(subs, order, sample)| - |StandardActs(subs, order[1..], sample)|;
    }
  }

  /** An open client whose handler is not finished can be sent a MSG of any live subscription. */
  lemma LiveIsDelivered(s: Session, id: string, message: OneLine) returns (fs: seq<Event>)
    requires s.open && LookAlone(s.pass) && id in s.tables.subs && s.tables.subs[id].message == message
    ensures NoResume(fs) && Count(Run(s, fs).wire.posted, s.tables.subs[id].serial) > 0
  {
    hide Run, AsioStep, Continue, Advance, Count, StandardActs, WildcardActs, Enumerates;
    var k, sample := s.tables.subs[id].serial, Sample(s.tables.subs[id].topic, message, "");
    var es := PassEnds(s);
    var t := Run(s, es);
    RunThen(s, es, Visit(sample));
    var u := t.(pass := [Look(sample)]);
    assert Step(t, Visit(sample)) == u;
    var order := SomeOrder(u.tables.subs.Keys);
    InOrder(order, u.tables.subs.Keys, id);
    RunThen(s, es + [Visit(sample)], Deliver(order));
    var v := Advance(u, order);
    assert Step(u, Deliver(order)) == v;
    SnapshotActs(u, order);
    AdvanceMonitorKeeps(u, order);
    var i := MatchIsFound(u.tables.subs, order, sample, id);
    assert v.pass[i] == StandardActs(u.tables.subs, order, sample)[i];
    var gs := CarriedIsPosted(v, i, k);
    var head := es + [Visit(sample)] + [Deliver(order)];
    fs := head + gs;
    RunConcat(s, head, gs);
  }

  lemma InOrder(order: seq<string>, keys: set<string>, id: string)
    requires Enumerates(order, keys) && id in keys
    ensures id in order && forall i :: 0 <= i < |order| ==> order[i] in keys
  {
  }

  /** In every run: after a SUB is accepted and before its handler goes on to the `+OK`, a MSG of
      the new subscription can be posted if, and only if, the client is open. */
  lemma EarlyMsgIff(es: seq<Event>, payload: string, init: InitArgument, id: string, message: string, topic: string)
    requires var s := Run(Start(), es); s.phase == Reading && !Busy(s) && s.initialized && id !in s.tables.subs
    requires Parse(payload) == Subscribe(id, message, topic)
    ensures var s, t := Run(Start(), es), Step(Run(Start(), es), Received(payload, init));
      (exists fs :: NoResume(fs) && Count(Run(t, fs).wire.posted, |s.tables.made|) > 0) <==> t.open
  {
    hide Run, Count, Solicited, ActSolicited, TablesOk;
    var s, e := Run(Start(), es), Received(payload, init);
    var t, k := Step(s, e), |s.tables.made|;
    StartPass();
    PassKept(Start(), es);
    PassInvStep(s, e);
    NextSerialIsNew(s);
    assert t.pass == s.pass && t.wire == s.wire && t.open == s.open;
    ParsedIsSpellable(payload);
    if t.open {
      var fs := LiveIsDelivered(t, id, message);
    } else {
      forall fs | NoResume(fs)
        ensures Count(Run(t, fs).wire.posted, k) == 0
      {
        SilentRun(t, fs, k);
      }
    }
  }

  lemma StartPass()
    ensures PassInv(Start())
  {
  }
}
