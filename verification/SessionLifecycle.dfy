/** How a session begins and ends: nobody is served before an upgrade that asked for the protocol,
    what closes a client, and what can still be posted to a closed one. */
module SessionLifecycle {
  import opened Protocol
  import opened Session
  import opened SessionWrites

  // -- before the upgrade ---------------------------------------------------------------------

  /** A request that asks for `owp`, and after it an upgrade that succeeds. */
  predicate Admitted(es: seq<Event>) {
    exists i, j :: 0 <= i < j < |es| && es[i] == Request(true, true) && es[j] == Upgraded(true)
  }

  /** Nothing has been read from the client and nothing posted to it. */
  predicate Unserved(s: Session) {
    && !s.initialized && s.handler == [] && s.phase != Reading && s.phase != Handling
    && s.wire.posted == [] && Quiet(s)
  }

  lemma UnservedStep(s: Session, e: Event)
    requires Unserved(s)
    ensures Unserved(Step(s, e)) || (s.phase == Accepting && e == Upgraded(true))
    ensures Step(s, e).phase == Accepting ==> s.phase == Accepting || e == Request(true, true)
    ensures s.phase == Rejecting || s.phase == Stopped ==>
      Unserved(Step(s, e)) && (Step(s, e).phase == Rejecting || Step(s, e).phase == Stopped)
  {
    hide Handle, Advance, Parse, Enumerates, StandardActs, WildcardActs;
    if e.Deliver? && s.pass != [] {
      LookSendsNoInfo(s, e.order);
      LookMoves(s, e.order);
    }
  }

  lemma LookMoves(s: Session, order: seq<string>)
    requires s.pass != [] && s.pass[0].Look?
    ensures Advance(s, order) == s.(pass := Advance(s, order).pass)
  {
  }

  lemma {:induction false} AdmittedFirst(es: seq<Event>)
    ensures var t := Run(Start(), es); Unserved(t) || Admitted(es)
    ensures Run(Start(), es).phase == Accepting && Unserved(Run(Start(), es)) ==> Request(true, true) in es
    decreases |es|
  {
    hide Step, Unserved;
    if es == [] {
      StartUnserved();
    } else {
      var front, e := es[..|es| - 1], es[|es| - 1];
      assert es == front + [e];
      AdmittedFirst(front);
      RunThen(Start(), front, e);
      var s := Run(Start(), front);
      if Unserved(s) {
        UnservedStep(s, e);
        if s.phase == Accepting && e == Upgraded(true) {
          var i :| 0 <= i < |front| && front[i] == Request(true, true);
          assert es[i] == Request(true, true) && es[|es| - 1] == Upgraded(true);
        }
      } else {
        var i, j :| 0 <= i < j < |front| && front[i] == Request(true, true) && front[j] == Upgraded(true);
        assert es[i] == front[i] && es[j] == front[j];
      }
    }
  }

  lemma StartUnserved()
    ensures Unserved(Start())
  {
  }

  /** Over every run: a client from whom anything was read, or to whom anything was posted, had its
      request for `owp` upgraded; and one whose request did not ask for it never will be served. */
  lemma ServedAfterUpgrade(es: seq<Event>, fs: seq<Event>)
    ensures var t := Run(Start(), es);
      t.phase == Reading || t.phase == Handling || t.initialized || t.wire.posted != [] ==> Admitted(es)
    ensures Run(Start(), es).phase == Rejecting ==>
      var t := Run(Start(), es + fs); !t.initialized && t.wire.posted == [] && (t.phase == Rejecting || t.phase == Stopped)
  {
    hide Run;
    AdmittedFirst(es);
    RunConcat(Start(), es, fs);
    if Run(Start(), es).phase == Rejecting {
      RejectingUnserved(es);
      StaysUnserved(Run(Start(), es), fs);
    }
  }

  lemma {:induction false} RejectingUnserved(es: seq<Event>)
    ensures var t := Run(Start(), es); t.phase == Rejecting || t.phase == Http || t.phase == Accepting ==> Unserved(t)
    decreases |es|
  {
    hide Step, Unserved;
    if es == [] {
      StartUnserved();
    } else {
      var front, e := es[..|es| - 1], es[|es| - 1];
      assert es == front + [e];
      RejectingUnserved(front);
      RunThen(Start(), front, e);
      EarlyPhases(Run(Start(), front), e);
      if Unserved(Run(Start(), front)) { UnservedStep(Run(Start(), front), e); }
      UpgradedReads(Run(Start(), front), e);
    }
  }

  /** Nothing goes back to the phases before the upgrade. */
  lemma EarlyPhases(s: Session, e: Event)
    ensures var p := Step(s, e).phase;
      p == Rejecting || p == Http || p == Accepting ==> s.phase == Rejecting || s.phase == Http || s.phase == Accepting
  {
    hide Handle, Advance, Parse, Continue;
    if e.Deliver? && s.pass != [] { AdvancePhase(s, e.order); }
    if e.Resume? && s.handler != [] { ContinuePhase(s); }
    if e.Received? { HandlePhase(s, Parse(e.payload), e.init); }
  }

  lemma AdvancePhase(s: Session, order: seq<string>)
    requires s.pass != []
    ensures Advance(s, order).phase == s.phase && Advance(s, order).open == s.open && Advance(s, order).handler == s.handler
  {
    hide StandardActs, WildcardActs, Enumerates, GenId, Key;
  }

  lemma ContinuePhase(s: Session)
    requires s.handler != []
    ensures var p := Continue(s).phase; p == s.phase || p == Reading || p == Stopped
    ensures Continue(s).open == (s.open && s.handler[0] != Close)
  {
  }

  lemma HandlePhase(s: Session, c: Command, init: InitArgument)
    ensures Handle(s, c, init).phase == Handling && Handle(s, c, init).open == s.open && Handle(s, c, init).pass == s.pass
  {
    hide WithoutStream;
  }

  lemma UpgradedReads(s: Session, e: Event)
    ensures Unserved(s) && s.phase == Accepting && e == Upgraded(true) ==> Step(s, e).phase == Reading
  {
  }

  lemma {:induction false} StaysUnserved(s: Session, es: seq<Event>)
    requires Unserved(s) && (s.phase == Rejecting || s.phase == Stopped)
    ensures var t := Run(s, es); Unserved(t) && (t.phase == Rejecting || t.phase == Stopped)
    decreases |es|
  {
    hide Step, Unserved;
    if es != [] {
      UnservedStep(s, es[0]);
      StaysUnserved(Step(s, es[0]), es[1..]);
    }
  }

  // -- closing -------------------------------------------------------------------------------------

  /** What closes a client: a request, upgrade, read or write that fails, the end of a rejection, and
      the end of a refused handshake. */
  predicate Closes(s: Session, e: Event) {
    || (s.handler == [] && s.phase == Http && e.Request? && !e.ok)
    || (s.handler == [] && s.phase == Rejecting && e == Rejected)
    || (s.handler == [] && s.phase == Accepting && e == Upgraded(false))
    || (s.handler == [] && s.phase == Reading && e == ReadFailed)
    || (s.handler == [] && s.wire.inFlight > 0 && s.wire.queue != [] && e == WriteDone(false))
    || (s.handler != [] && s.handler[0] == Close && e == Resume)
  }

  lemma StepCloses(s: Session, e: Event)
    ensures Step(s, e).open <==> s.open && !Closes(s, e)
  {
    hide Handle, Advance, Parse, Continue;
    if e.Deliver? && s.pass != [] { AdvancePhase(s, e.order); }
    if e.Resume? && s.handler != [] { ContinuePhase(s); }
    if e.Received? { HandlePhase(s, Parse(e.payload), e.init); }
  }

  /** Over every run a client is open exactly when nothing has closed it. */
  lemma {:induction false} OpenIff(es: seq<Event>)
    ensures Run(Start(), es).open <==> forall k :: 0 <= k < |es| ==> !Closes(Run(Start(), es[..k]), es[k])
    decreases |es|
  {
    hide Step, Closes, Run;
    if es == [] {
      RunNothing();
    } else {
      var front, e := es[..|es| - 1], es[|es| - 1];
      assert es == front + [e];
      OpenIff(front);
      RunThen(Start(), front, e);
      StepCloses(Run(Start(), front), e);
      assert forall k :: 0 <= k < |front| ==> front[..k] == es[..k] && front[k] == es[k];
      assert es[..|front|] == front;
    }
  }

  lemma RunNothing()
    ensures Run(Start(), []) == Start()
  {
  }

  // -- after closing -----------------------------------------------------------------------------------

  /** Only the first act of a pass can be a line whose check has passed. */
  predicate PostFirst(s: Session) {
    forall i :: 0 < i < |s.pass| ==> !s.pass[i].Post?
  }

  function UnderWay(s: Session): nat {
    if s.pass != [] && s.pass[0].Post? then 1 else 0
  }

  lemma AdvancePosts(s: Session, order: seq<string>)
    requires PostFirst(s) && s.pass != []
    ensures PostFirst(Advance(s, order))
    ensures !s.open ==> |Advance(s, order).wire.posted| + UnderWay(Advance(s, order)) == |s.wire.posted| + UnderWay(s)
    ensures UnderWay(s) == 1 ==> Advance(s, order).wire.posted == s.wire.posted + [s.pass[0].line]
  {
    hide StandardActs, WildcardActs, Enumerates, GenId, Key, Issued;
    assert forall i :: 0 <= i < |s.pass| - 1 ==> s.pass[1..][i] == s.pass[i + 1];
    if s.pass[0].Look? { LookPosts(s, order); }
  }

  lemma LookPosts(s: Session, order: seq<string>)
    requires PostFirst(s) && s.pass != [] && s.pass[0].Look?
    ensures var t := Advance(s, order); t.wire == s.wire && forall i :: 0 <= i < |t.pass| ==> !t.pass[i].Post?
  {
    hide StandardActs, WildcardActs, Enumerates;
    var subs, sample, t := s.tables.subs, s.pass[0].sample, Advance(s, order);
    if Enumerates(order, subs.Keys) {
      OrderInKeys(order, subs.Keys);
      ActsSend(subs, order, s.tables.xsubs, sample);
      var a, b := StandardActs(subs, order, sample), WildcardActs(s.tables.xsubs, sample);
      assert t.pass == a + b + s.pass[1..];
      forall i | 0 <= i < |t.pass|
        ensures !t.pass[i].Post?
      {
        if i < |a| {
          assert t.pass[i] in a;
        } else if i < |a| + |b| {
          assert t.pass[i] in b;
        } else {
          assert t.pass[i] == s.pass[i - |a| - |b| + 1];
        }
      }
    }
  }

  lemma OrderInKeys(order: seq<string>, keys: set<string>)
    requires Enumerates(order, keys)
    ensures forall i :: 0 <= i < |order| ==> order[i] in keys
  {
  }

  /** The line under way is still under way, or was posted. */
  predicate SameLine(s: Session, t: Session)
    requires UnderWay(s) == 1
  {
    || (t.wire.posted == s.wire.posted && UnderWay(t) == 1 && t.pass[0] == s.pass[0])
    || t.wire.posted == s.wire.posted + [s.pass[0].line]
  }

  lemma StepPosts(s: Session, e: Event)
    requires PostFirst(s)
    ensures PostFirst(Step(s, e))
    ensures !s.open ==> |Step(s, e).wire.posted| + UnderWay(Step(s, e)) == |s.wire.posted| + UnderWay(s)
    ensures !s.open && UnderWay(s) == 1 ==> SameLine(s, Step(s, e))
  {
    hide Handle, Advance, Parse;
    if e.Deliver? && s.pass != [] { AdvancePosts(s, e.order); }
    if e.Received? { HandlePosts(s, Parse(e.payload), e.init); }
  }

  lemma HandlePosts(s: Session, c: Command, init: InitArgument)
    ensures Handle(s, c, init).pass == s.pass && Handle(s, c, init).wire == s.wire
  {
    hide WithoutStream;
  }

  lemma {:induction false} PostFirstKept(s: Session, es: seq<Event>)
    requires PostFirst(s)
    ensures PostFirst(Run(s, es))
    ensures !s.open ==> |Run(s, es).wire.posted| + UnderWay(Run(s, es)) == |s.wire.posted| + UnderWay(s)
    ensures !s.open && UnderWay(s) == 1 ==> SameLine(s, Run(s, es))
    decreases |es|
  {
    hide Step, PostFirst;
    if es != [] {
      var t := Step(s, es[0]);
      StepPosts(s, es[0]);
      StepGrows(s, es[0]);
      PostFirstKept(t, es[1..]);
      NothingReverts(t, es[1..]);
    }
  }

  /** Over every run: once a client is closed, at most one more line is posted to it, and that only
      if the pass under way had checked it before. */
  lemma AtMostOneAfterClosing(es: seq<Event>, fs: seq<Event>)
    requires !Run(Start(), es).open
    ensures var s, t := Run(Start(), es), Run(Start(), es + fs);
      !t.open && (t.wire.posted == s.wire.posted || (s.pass != [] && s.pass[0].Post? && t.wire.posted == s.wire.posted + [s.pass[0].line]))
  {
    hide Run;
    RunConcat(Start(), es, fs);
    PostFirstKept(Start(), es);
    PostFirstKept(Run(Start(), es), fs);
    NothingReverts(Run(Start(), es), fs);
  }

  lemma ClosedStep(s: Session, e: Event)
    requires !s.open && s.pass == []
    ensures var t := Step(s, e); !t.open && t.pass == [] && t.wire.posted == s.wire.posted && t.tables.issued == s.tables.issued
  {
    hide Handle, Parse, Continue;
    if e.Received? { HandleIssues(s, Parse(e.payload), e.init); }
    if e.Resume? && s.handler != [] { ClosedContinue(s); }
  }

  lemma HandleIssues(s: Session, c: Command, init: InitArgument)
    ensures var t := Handle(s, c, init); t.pass == s.pass && t.wire == s.wire && t.open == s.open && t.tables.issued == s.tables.issued
  {
    hide WithoutStream;
  }

  lemma ClosedContinue(s: Session)
    requires s.handler != [] && !s.open
    ensures var t := Continue(s); !t.open && t.pass == s.pass && t.wire == s.wire && t.tables == s.tables
  {
  }

  /** A closed client with no pass under way is never visited again: nothing is posted to it and no id
      handed out for it. */
  lemma {:induction false} ClosedForGood(s: Session, es: seq<Event>)
    requires !s.open && s.pass == []
    ensures var t := Run(s, es); !t.open && t.pass == [] && t.wire.posted == s.wire.posted && t.tables.issued == s.tables.issued
    decreases |es|
  {
    hide Step;
    if es != [] {
      ClosedStep(s, es[0]);
      ClosedForGood(Step(s, es[0]), es[1..]);
    }
  }
}
