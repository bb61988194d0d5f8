/** When a concrete subscription can come back after its XUNSUB. */
module SessionOrphans {
  import opened Protocol
  import opened Session
  import opened SessionWrites
  import opened SessionIds
  import opened SessionAnnounce
  import opened SessionOrigins
  import opened SessionUnsub
  import opened SessionPasses

  ghost predicate HasEntry(t: Tables, stream: OneLine) {
    exists i: Issue :: i.stream == stream && IssueKey(i) in t.concrete
  }

  /** The pass under way will still ask for an id on behalf of the stream. */
  predicate Pending(pass: seq<Act>, stream: OneLine) {
    exists i :: 0 <= i < |pass| && pass[i].Ensure? && pass[i].stream == stream
  }

  predicate Subscribes(e: Event, stream: OneLine) {
    e.Received? && Parse(e.payload).XSubscribe? && Parse(e.payload).xsub.stream == stream
  }

  predicate NoXSub(es: seq<Event>, stream: OneLine) {
    forall i :: 0 <= i < |es| ==> !Subscribes(es[i], stream)
  }

  ghost predicate Gone(s: Session, stream: OneLine) {
    && !HasEntry(s.tables, stream)
    && (forall x :: x in s.tables.xsubs ==> x.stream != stream)
    && !Pending(s.pass, stream)
  }

  // -- without a pending request it stays gone -------------------------------------------------------------

  lemma HandleKeepsGone(s: Session, c: Command, init: InitArgument, stream: OneLine)
    requires forall x :: x in s.tables.xsubs ==> x.stream != stream
    requires c.XSubscribe? ==> c.xsub.stream != stream
    ensures forall x :: x in Handle(s, c, init).tables.xsubs ==> x.stream != stream
  {
    hide WithoutStream, GenId, Key;
    if c.XUnsubscribe? { FilterExact(s.tables.xsubs, c.stream); }
  }

  lemma {:induction false} SnapshotWithout(xsubs: seq<XSub>, sample: Sample, stream: OneLine)
    requires forall x :: x in xsubs ==> x.stream != stream
    ensures forall a :: a in WildcardActs(xsubs, sample) ==> a.Ensure? && a.stream != stream
  {
    if xsubs != [] {
      SnapshotWithout(xsubs[1..], sample, stream);
    }
  }

  lemma AsioKeepsGone(s: Session, e: Event, stream: OneLine)
    requires Gone(s, stream) && HandlerReplies(s.handler) && !e.Deliver? && !Subscribes(e, stream)
    ensures Gone(Step(s, e), stream)
  {
    hide GenId, Key, Handle, Parse, Enqueue, FinishWrite;
    AsioStepFrames(s, e);
    OthersShrink(s, e);
    if e.Received? { HandleKeepsGone(s, Parse(e.payload), e.init, stream); }
  }

  lemma LookKeepsGone(s: Session, order: seq<string>, stream: OneLine)
    requires Gone(s, stream) && s.pass != [] && s.pass[0].Look? && LookAlone(s.pass)
    ensures Gone(Advance(s, order), stream)
  {
    hide StandardActs, WildcardActs, HasEntry;
    if Enumerates(order, s.tables.subs.Keys) {
      var sample, t := s.pass[0].sample, Advance(s, order);
      SnapshotActs(s, order);
      ActsSend(s.tables.subs, order, s.tables.xsubs, sample);
      SnapshotWithout(s.tables.xsubs, sample, stream);
      var a, b := StandardActs(s.tables.subs, order, sample), WildcardActs(s.tables.xsubs, sample);
      assert forall i :: 0 <= i < |t.pass| ==> t.pass[i] in a || t.pass[i] in b;
    }
  }

  /** An id issued for another stream is no entry of this one. */
  lemma IssuedElsewhere(t: Tables, other: OneLine, topic: string, message: OneLine, stream: OneLine)
    requires !HasEntry(t, stream) && other != stream
    ensures !HasEntry(Issued(t, other, topic, message), stream)
  {
    hide GenId, Key;
    forall j: Issue | j.stream == stream && IssueKey(j) in Issued(t, other, topic, message).concrete
      ensures false
    {
      if IssueKey(j) == Key(other, topic, message) {
        KeyInjective(j.stream, j.topic, j.message, other, topic, message);
      }
    }
  }

  lemma OtherKeepsGone(s: Session, order: seq<string>, stream: OneLine)
    requires Gone(s, stream) && s.pass != [] && !s.pass[0].Look?
    ensures Gone(Advance(s, order), stream)
  {
    hide GenId, Key, HasEntry, Issued;
    var a := s.pass[0];
    assert forall i :: 0 <= i < |s.pass| - 1 ==> s.pass[1..][i] == s.pass[i + 1];
    if a.Ensure? {
      IssuedElsewhere(s.tables, a.stream, a.sample.topic, a.sample.message, stream);
      assert Issued(s.tables, a.stream, a.sample.topic, a.sample.message).xsubs == s.tables.xsubs by { IssuedKeepsXSubs(s.tables, a.stream, a.sample); }
    }
  }

  lemma IssuedKeepsXSubs(t: Tables, stream: OneLine, sample: Sample)
    ensures Issued(t, stream, sample.topic, sample.message).xsubs == t.xsubs
  {
  }

  lemma {:induction false} StaysGone(s: Session, es: seq<Event>, stream: OneLine)
    requires Gone(s, stream) && PassInv(s) && NoXSub(es, stream)
    ensures Gone(Run(s, es), stream)
    decreases |es|
  {
    hide AsioStep, Advance, Continue, Gone, Subscribes, TablesOk, Count;
    if es != [] {
      PassInvStep(s, es[0]);
      assert !Subscribes(es[0], stream);
      if !es[0].Deliver? {
        AsioKeepsGone(s, es[0], stream);
      } else if s.pass != [] {
        if s.pass[0].Look? { LookKeepsGone(s, es[0].order, stream); } else { OtherKeepsGone(s, es[0].order, stream); }
      }
      assert forall i :: 0 <= i < |es| - 1 ==> es[1..][i] == es[i + 1];
      StaysGone(Step(s, es[0]), es[1..], stream);
    }
  }

  // -- with one it can come back -----------------------------------------------------------------------------

  lemma EnsureMakesEntry(s: Session)
    requires s.pass != [] && s.pass[0].Ensure?
    ensures HasEntry(Advance(s, []).tables, s.pass[0].stream)
  {
    hide GenId, Key;
    var a := s.pass[0];
    var i := Issue(a.stream, a.sample.topic, a.sample.message);
    assert IssueKey(i) in Advance(s, []).tables.concrete;
  }

  /** Letting the pass run brings the entry about. */
  lemma {:induction false} PendingComesBack(s: Session, i: nat, stream: OneLine) returns (es: seq<Event>)
    requires LookAlone(s.pass) && i < |s.pass| && s.pass[i].Ensure? && s.pass[i].stream == stream
    ensures NoXSub(es, stream) && HasEntry(Run(s, es).tables, stream)
    decreases Work(s.pass[..i])
  {
    hide Advance, AsioStep, Continue, HasEntry, Parse;
    var e := Deliver([]);
    var t := Advance(s, []);
    assert Step(s, e) == t;
    if i == 0 {
      es := [e];
      assert Run(t, es[1..]) == t;
      EnsureMakesEntry(s);
    } else {
      var j := AdvanceWorks(s, i);
      assert t.pass[j..][0] == s.pass[i] && forall k :: j <= k < |t.pass| ==> t.pass[k] == s.pass[i..][k - j];
      var fs := PendingComesBack(t, j, stream);
      es := [e] + fs;
      assert es[1..] == fs;
    }
  }

  /** After the XUNSUB of a stream, and without a new XSUB of it, a concrete subscription of the
      stream can come back if, and only if, the pass under way still has one to ask for. */
  lemma OrphanIff(es: seq<Event>, payload: string, init: InitArgument, stream: OneLine)
    requires var s := Run(Start(), es); s.phase == Reading && !Busy(s) && s.initialized
    requires Parse(payload) == XUnsubscribe(stream)
    ensures var t := Step(Run(Start(), es), Received(payload, init));
      && !HasEntry(t.tables, stream)
      && ((exists fs :: NoXSub(fs, stream) && HasEntry(Run(t, fs).tables, stream)) <==> Pending(t.pass, stream))
  {
    hide Parse, AsioStep, Run, Solicited, ActSolicited, Handle;
    var s, t := Run(Start(), es), Step(Run(Start(), es), Received(payload, init));
    PassKept(Start(), es);
    PassInvStep(s, Received(payload, init));
    XUnsubErasesOwn(s, payload, init);
    if Pending(t.pass, stream) {
      var i :| 0 <= i < |t.pass| && t.pass[i].Ensure? && t.pass[i].stream == stream;
      var fs := PendingComesBack(t, i, stream);
    } else {
      forall fs | NoXSub(fs, stream)
        ensures !HasEntry(Run(t, fs).tables, stream)
      {
        StaysGone(t, fs, stream);
      }
    }
  }
}
