/** What can still happen after UNSUB and XUNSUB, given that a delivery pass works from a snapshot. */
module SessionUnsub {
  import opened Protocol
  import opened Session
  import opened SessionWrites
  import opened SessionAnnounce
  import opened SessionOrigins

  // -- counting the MSG lines of one standard subscription ---------------------------------------------

  function Count(lines: seq<Line>, k: nat): (n: nat)
  {
    if lines == [] then 0
    else (if lines[0].Msg? && lines[0].origin == Standard(k) then 1 else 0) + Count(lines[1..], k)
  }

  lemma {:induction false} CountConcat(a: seq<Line>, b: seq<Line>, k: nat)
    ensures Count(a + b, k) == Count(a, k) + Count(b, k)
  {
    if a == [] {
      assert a + b == b;
    } else {
      assert (a + b)[1..] == a[1..] + b;
      CountConcat(a[1..], b, k);
    }
  }

  /** The lines a pass has decided on and not yet posted. */
  function Carried(pass: seq<Act>): seq<Line> {
    if pass == [] then []
    else (if Carries(pass[0]) then [pass[0].line] else []) + Carried(pass[1..])
  }

  lemma CarriedCons(a: Act, pass: seq<Act>)
    ensures Carried([a] + pass) == if Carries(a) then [a.line] + Carried(pass) else Carried(pass)
  {
    assert ([a] + pass)[1..] == pass;
  }

  lemma {:induction false} CarriedConcat(a: seq<Act>, b: seq<Act>)
    ensures Carried(a + b) == Carried(a) + Carried(b)
  {
    if a == [] {
      assert a + b == b;
    } else {
      assert (a + b)[1..] == a[1..] + b;
      CarriedConcat(a[1..], b);
      CarriedCons(a[0], a[1..] + b);
      CarriedCons(a[0], a[1..]);
      assert [a[0]] + (a[1..] + b) == a + b && [a[0]] + a[1..] == a;
    }
  }

  /** MSG lines of the k-th standard subscription, posted or decided on. */
  function Total(s: Session, k: nat): nat {
    Count(s.wire.posted, k) + Count(Carried(s.pass), k)
  }

  predicate Live(t: Tables, k: nat) {
    exists id :: id in t.subs && t.subs[id].serial == k
  }

  // -- a snapshot holds each subscription once -------------------------------------------------------------

  lemma {:induction false} NotInSnapshot(subs: map<string, StandardSub>, order: seq<string>, sample: Sample, k: nat)
    requires forall i :: 0 <= i < |order| ==> order[i] in subs && subs[order[i]].serial != k
    ensures Count(Carried(StandardActs(subs, order, sample)), k) == 0
  {
    if order != [] {
      NotInSnapshot(subs, order[1..], sample, k);
      StandardActsCarried(subs, order, sample);
    }
  }

  /** The first enumerated subscription is the first line carried, if it matches. */
  lemma StandardActsCarried(subs: map<string, StandardSub>, order: seq<string>, sample: Sample)
    requires order != [] && forall i :: 0 <= i < |order| ==> order[i] in subs
    ensures var sub, rest := subs[order[0]], Carried(StandardActs(subs, order[1..], sample));
      Carried(StandardActs(subs, order, sample)) ==
        (if sub.topic == sample.topic && sub.message == sample.message then [Msg(sub.id, sample, Standard(sub.serial))] + rest else rest)
  {
    var sub, tail := subs[order[0]], StandardActs(subs, order[1..], sample);
    if sub.topic == sample.topic && sub.message == sample.message {
      assert ([Check(Msg(sub.id, sample, Standard(sub.serial)))] + tail)[1..] == tail;
    } else {
      assert [] + tail == tail;
    }
  }

  lemma {:induction false} OnceInSnapshot(t: Tables, order: seq<string>, sample: Sample, k: nat)
    requires TablesOk(t)
    requires forall i :: 0 <= i < |order| ==> order[i] in t.subs
    requires forall i, j :: 0 <= i < j < |order| ==> order[i] != order[j]
    ensures Count(Carried(StandardActs(t.subs, order, sample)), k) <= 1
    ensures !Live(t, k) ==> Count(Carried(StandardActs(t.subs, order, sample)), k) == 0
  {
    if order != [] {
      OnceInSnapshot(t, order[1..], sample, k);
      StandardActsCarried(t.subs, order, sample);
      if t.subs[order[0]].serial == k {
        NotInSnapshot(t.subs, order[1..], sample, k);
      }
    }
  }

  lemma {:induction false} EnsuresCarryNothing(xsubs: seq<XSub>, sample: Sample)
    ensures Carried(WildcardActs(xsubs, sample)) == []
  {
    if xsubs != [] {
      EnsuresCarryNothing(xsubs[1..], sample);
      var tail := WildcardActs(xsubs[1..], sample);
      assert [] + tail == tail && ([Ensure(xsubs[0].stream, sample)] + tail)[1..] == tail;
    }
  }

  // -- steps --------------------------------------------------------------------------------------------------

  /** A pass that has yet to take its snapshot has nothing else to do. */
  predicate LookAlone(pass: seq<Act>) {
    forall i :: 0 <= i < |pass| && pass[i].Look? ==> |pass| == 1
  }

  ghost predicate PassInv(s: Session) {
    && OriginInv(s)
    && LookAlone(s.pass)
    && forall k: nat :: Count(Carried(s.pass), k) <= 1
  }

  lemma CountCons(line: Line, lines: seq<Line>, k: nat)
    ensures Count([line] + lines, k) == Count([line], k) + Count(lines, k)
    ensures Count([line], k) == if line.Msg? && line.origin == Standard(k) then 1 else 0
  {
    CountConcat([line], lines, k);
    assert [line][1..] == [];
  }

  lemma LookCount(s: Session, order: seq<string>, k: nat)
    requires PassInv(s) && s.pass != [] && s.pass[0].Look?
    ensures LookAlone(Advance(s, order).pass)
    ensures Count(Carried(Advance(s, order).pass), k) <= 1
    ensures !Live(s.tables, k) ==> Count(Carried(Advance(s, order).pass), k) <= Count(Carried(s.pass), k)
  {
    hide StandardActs, WildcardActs;
    var subs, sample := s.tables.subs, s.pass[0].sample;
    assert s.pass == [s.pass[0]];
    if Enumerates(order, subs.Keys) {
      var a, b := StandardActs(subs, order, sample), WildcardActs(s.tables.xsubs, sample);
      OnceInSnapshot(s.tables, order, sample, k);
      EnsuresCarryNothing(s.tables.xsubs, sample);
      CarriedConcat(a, b);
      assert a + b + s.pass[1..] == a + b && Carried(a) + [] == Carried(a);
      ActsSend(subs, order, s.tables.xsubs, sample);
      assert forall i :: 0 <= i < |a + b| ==> (a + b)[i] in a || (a + b)[i] in b;
    }
  }

  lemma OtherLineCount(a: Act, rest: seq<Act>, k: nat)
    requires Carries(a) && (a.line.XSubInfo? || IsWildcard(a.line))
    ensures Count(Carried([a] + rest), k) == Count(Carried(rest), k)
  {
    hide Carried, Count;
    CarriedCons(a, rest);
    CountCons(a.line, Carried(rest), k);
  }

  /** Asking for an id leaves the pass with lines that no standard subscription yields. */
  lemma EnsureFront(s: Session, order: seq<string>) returns (front: seq<Act>)
    requires s.pass != [] && s.pass[0].Ensure?
    ensures Advance(s, order).pass == front + s.pass[1..]
    ensures front != [] && forall i :: 0 <= i < |front| ==> front[i].Check? && (front[i].line.XSubInfo? || IsWildcard(front[i].line))
  {
    hide GenId, Key;
    front := Advance(s, order).pass[..|Advance(s, order).pass| - |s.pass| + 1];
  }

  lemma {:induction false} OtherLinesCount(front: seq<Act>, rest: seq<Act>, k: nat)
    requires forall i :: 0 <= i < |front| ==> Carries(front[i]) && (front[i].line.XSubInfo? || IsWildcard(front[i].line))
    ensures Count(Carried(front + rest), k) == Count(Carried(rest), k)
  {
    hide Carried, Count;
    if front == [] {
      assert front + rest == rest;
    } else {
      assert front + rest == [front[0]] + (front[1..] + rest);
      OtherLineCount(front[0], front[1..] + rest, k);
      OtherLinesCount(front[1..], rest, k);
    }
  }

  lemma EnsureCount(s: Session, order: seq<string>, k: nat)
    requires LookAlone(s.pass) && s.pass != [] && s.pass[0].Ensure?
    ensures LookAlone(Advance(s, order).pass)
    ensures Count(Carried(Advance(s, order).pass), k) == Count(Carried(s.pass), k)
  {
    hide Advance, Carried, Count;
    var rest := s.pass[1..];
    assert s.pass == [s.pass[0]] + rest;
    assert forall i :: 0 <= i < |rest| ==> rest[i] == s.pass[i + 1];
    CarriedCons(s.pass[0], rest);
    var front := EnsureFront(s, order);
    OtherLinesCount(front, rest, k);
  }

  lemma LineCount(s: Session, order: seq<string>, k: nat)
    requires LookAlone(s.pass) && s.pass != [] && Carries(s.pass[0])
    ensures LookAlone(Advance(s, order).pass)
    ensures Count(Carried(Advance(s, order).pass), k) <= Count(Carried(s.pass), k)
    ensures Total(Advance(s, order), k) <= Total(s, k)
  {
    hide Carried, Count;
    var line, rest := s.pass[0].line, s.pass[1..];
    assert s.pass == [s.pass[0]] + rest;
    assert forall i :: 0 <= i < |rest| ==> rest[i] == s.pass[i + 1];
    CarriedCons(s.pass[0], rest);
    CountCons(line, Carried(rest), k);
    CarriedCons(Post(line), rest);
    assert [] + rest == rest;
    CountConcat(s.wire.posted, [line], k);
  }

  lemma AsioCount(s: Session, e: Event, k: nat)
    requires PassInv(s) && !e.Deliver?
    ensures LookAlone(Step(s, e).pass)
    ensures Count(Carried(Step(s, e).pass), k) == Count(Carried(s.pass), k)
    ensures Total(Step(s, e), k) == Total(s, k)
  {
    hide Step, TablesOk, Count, Solicited, ActSolicited;
    AsioStepFrames(s, e);
    if Step(s, e).pass != s.pass {
      CarriedCons(Step(s, e).pass[0], []);
      assert Step(s, e).pass == [Step(s, e).pass[0]] + [];
    }
    var old_, new_ := s.wire.posted, Step(s, e).wire.posted;
    if new_ != old_ {
      CountConcat(old_, [new_[|new_| - 1]], k);
      CountCons(new_[|new_| - 1], [], k);
    }
  }

  lemma HandleKeepsDead(s: Session, c: Command, init: InitArgument, k: nat)
    requires !Live(s.tables, k) && k < |s.tables.made|
    ensures !Live(Handle(s, c, init).tables, k)
  {
    hide GenId, Key, WithoutStream;
  }

  lemma DeadStaysDead(s: Session, e: Event, k: nat)
    requires !Live(s.tables, k) && k < |s.tables.made|
    ensures !Live(Step(s, e).tables, k) && k < |Step(s, e).tables.made|
  {
    hide GenId, Key, Handle, Parse, StandardActs, WildcardActs, Enumerates, Enqueue, FinishWrite;
    if e.Received? { HandleKeepsDead(s, Parse(e.payload), e.init, k); }
    StepGrows(s, e);
  }

  lemma PassStep(s: Session, e: Event, k: nat)
    requires PassInv(s)
    ensures LookAlone(Step(s, e).pass) && Count(Carried(Step(s, e).pass), k) <= 1
    ensures !Live(s.tables, k) ==> Total(Step(s, e), k) <= Total(s, k)
  {
    hide Advance, AsioStep, Continue, Count, Carried, OriginInv, Live;
    if e.Deliver? && s.pass != [] {
      match s.pass[0]
      case Look(_) => LookCount(s, e.order, k); LookPostsNothing(s, e.order);
      case Ensure(_, _) => EnsureCount(s, e.order, k); LookPostsNothing(s, e.order);
      case _ => LineCount(s, e.order, k);
    } else if !e.Deliver? {
      AsioCount(s, e, k);
    }
  }

  lemma LookPostsNothing(s: Session, order: seq<string>)
    requires s.pass != [] && !Carries(s.pass[0])
    ensures Advance(s, order).wire == s.wire
  {
  }

  lemma PassInvStep(s: Session, e: Event)
    requires PassInv(s)
    ensures PassInv(Step(s, e))
  {
    hide Step, Count, Carried, OriginInv, LookAlone;
    OriginStep(s, e);
    PassStep(s, e, 0);
    forall k: nat
      ensures Count(Carried(Step(s, e).pass), k) <= 1
    {
      PassStep(s, e, k);
    }
  }

  lemma {:induction false} PassKept(s: Session, es: seq<Event>)
    requires PassInv(s)
    ensures PassInv(Run(s, es))
    decreases |es|
  {
    hide Step, PassInv;
    if es != [] {
      PassInvStep(s, es[0]);
      PassKept(Step(s, es[0]), es[1..]);
    }
  }

  lemma {:induction false} DeadRun(s: Session, es: seq<Event>, k: nat)
    requires PassInv(s) && !Live(s.tables, k) && k < |s.tables.made|
    ensures Total(Run(s, es), k) <= Total(s, k)
    decreases |es|
  {
    hide Step, Total, PassInv, Live;
    if es != [] {
      PassStep(s, es[0], k);
      PassInvStep(s, es[0]);
      DeadStaysDead(s, es[0], k);
      DeadRun(Step(s, es[0]), es[1..], k);
    }
  }

  /** Only UNSUB takes a subscription out, and the serial number goes with it. */
  lemma ErasedIsDead(s: Session, e: Event, id: string)
    requires TablesOk(s.tables) && e.Received? && id in s.tables.subs && id !in Step(s, e).tables.subs
    ensures !Live(Step(s, e).tables, s.tables.subs[id].serial)
  {
    hide GenId, Key, WithoutStream, Parse;
  }

  /** Over every run: once an UNSUB has erased a standard subscription, the subscription yields at
      most one more MSG line, and none unless the pass under way had already decided on it. */
  lemma AtMostOneAfterUnsub(es: seq<Event>, payload: string, init: InitArgument, id: string, fs: seq<Event>)
    requires id in Run(Start(), es).tables.subs
    requires id !in Step(Run(Start(), es), Received(payload, init)).tables.subs
    ensures var s, t := Run(Start(), es), Step(Run(Start(), es), Received(payload, init));
      var k := s.tables.subs[id].serial;
      && Count(Run(t, fs).wire.posted, k) <= Count(t.wire.posted, k) + Count(Carried(t.pass), k)
      && Count(Carried(t.pass), k) <= 1
  {
    hide Step, Run, Solicited, ActSolicited;
    var s, e := Run(Start(), es), Received(payload, init);
    var k := s.tables.subs[id].serial;
    PassKept(Start(), es);
    PassInvStep(s, e);
    StepGrows(s, e);
    ErasedIsDead(s, e, id);
    DeadRun(Step(s, e), fs, k);
  }
}
