/** Letting a delivery pass run: every step is less work to do, so a pass comes to its end, and on
    the way posts what it carries unless the client is closed. */
module SessionPasses {
  import opened Protocol
  import opened Session
  import opened SessionWrites
  import opened SessionAnnounce
  import opened SessionOrigins
  import opened SessionUnsub

  predicate OnlyDeliver(es: seq<Event>) {
    forall i :: 0 <= i < |es| ==> es[i].Deliver?
  }

  /** How many steps of the pass an act takes, at most. */
  function Effort(a: Act): nat {
    if a.Post? then 1 else if a.Check? then 2 else 5
  }

  /** How many steps of the pass these acts take, at most. */
  function Work(acts: seq<Act>): nat {
    if acts == [] then 0
    else Effort(acts[0]) + Work(acts[1..])
  }

  lemma WorkCons(a: Act, acts: seq<Act>)
    ensures Work([a] + acts) == Effort(a) + Work(acts)
  {
    assert ([a] + acts)[1..] == acts;
  }

  /** A step replaces the first act by others that are less work in all. */
  lemma AdvanceFront(s: Session) returns (front: seq<Act>)
    requires s.pass != [] && !s.pass[0].Look?
    ensures Advance(s, []).pass == front + s.pass[1..]
    ensures |front| <= 2 && (forall i :: 0 <= i < |front| ==> !front[i].Look?)
    ensures |front| == 1 ==> Effort(front[0]) < Effort(s.pass[0])
    ensures |front| == 2 ==> Effort(front[0]) + Effort(front[1]) < Effort(s.pass[0])
  {
    hide GenId, Key, Enumerates, StandardActs, WildcardActs, Issued, Posted;
    var rest, t := s.pass[1..], Advance(s, []);
    match s.pass[0]
    case Check(line) => front := if s.open then [Post(line)] else [];
    case Post(_) =>
      front := [];
      assert [] + rest == rest;
    case Ensure(_, _) =>
      front := t.pass[..|t.pass| - |rest|];
  }

  lemma FrontWorks(front: seq<Act>, a: Act, rest: seq<Act>)
    requires |front| <= 2
    requires |front| == 1 ==> Effort(front[0]) < Effort(a)
    requires |front| == 2 ==> Effort(front[0]) + Effort(front[1]) < Effort(a)
    ensures Work(front + rest) < Work([a] + rest)
  {
    hide Work;
    WorkCons(a, rest);
    if |front| == 0 {
      assert front + rest == rest;
    } else if |front| == 1 {
      assert front + rest == [front[0]] + rest;
      WorkCons(front[0], rest);
    } else {
      assert front + rest == [front[0]] + ([front[1]] + rest);
      WorkCons(front[1], rest);
      WorkCons(front[0], [front[1]] + rest);
    }
  }

  lemma AdvanceWorks(s: Session, i: nat) returns (j: nat)
    requires 0 < i < |s.pass| && LookAlone(s.pass)
    ensures j <= |Advance(s, []).pass| && LookAlone(Advance(s, []).pass)
    ensures Advance(s, []).pass[j..] == s.pass[i..] && Work(Advance(s, []).pass[..j]) < Work(s.pass[..i])
  {
    hide Advance, Work;
    assert forall k :: 0 <= k < |s.pass| ==> !s.pass[k].Look?;
    var front := AdvanceFront(s);
    var rest := s.pass[1..i];
    FrontWorks(front, s.pass[0], rest);
    j := |front| + |rest|;
    assert s.pass[..i] == [s.pass[0]] + rest && s.pass[1..] == rest + s.pass[i..];
    assert front + s.pass[1..] == (front + rest) + s.pass[i..];
    assert Advance(s, []).pass[..j] == front + rest;
  }

  // -- a line carried can be posted ------------------------------------------------------------------

  /** An act that sends a MSG of the k-th standard subscription. */
  predicate CarriesSerial(a: Act, k: nat) {
    Carries(a) && a.line.Msg? && a.line.origin == Standard(k)
  }

  /** Either its check has passed, or the check would pass now. */
  predicate MayPost(s: Session, i: nat, k: nat)
    requires i < |s.pass|
  {
    CarriesSerial(s.pass[i], k) && (s.pass[i].Post? || s.open)
  }

  lemma CountGrows(a: seq<Line>, b: seq<Line>, k: nat)
    requires a <= b
    ensures Count(a, k) <= Count(b, k)
  {
    CountConcat(a, b[|a|..], k);
    assert a + b[|a|..] == b;
  }

  lemma PostOne(s: Session, k: nat)
    requires s.pass != [] && s.pass[0].Post? && CarriesSerial(s.pass[0], k)
    ensures Count(Advance(s, []).wire.posted, k) == Count(s.wire.posted, k) + 1
  {
    CountConcat(s.wire.posted, [s.pass[0].line], k);
    CountCons(s.pass[0].line, [], k);
  }

  lemma {:induction false} CarriedIsPosted(s: Session, i: nat, k: nat) returns (es: seq<Event>)
    requires LookAlone(s.pass) && i < |s.pass| && MayPost(s, i, k)
    ensures OnlyDeliver(es) && Count(Run(s, es).wire.posted, k) > Count(s.wire.posted, k)
    decreases Work(s.pass[..i]), if s.pass[i].Post? then 0 else 1
  {
    hide AsioStep, Continue, Count, Advance;
    var e := Deliver([]);
    var t := Advance(s, []);
    assert Step(s, e) == t;
    if i == 0 && s.pass[0].Post? {
      es := [e];
      assert Run(t, es[1..]) == t;
      PostOne(s, k);
    } else {
      var j: nat := 0;
      if i == 0 {
        CheckPasses(s);
        assert Work(t.pass[..0]) == Work(s.pass[..0]);
      } else {
        j := AdvanceWorks(s, i);
        assert t.pass[j..][0] == s.pass[i..][0];
        AdvanceGrows(s, []);
        AdvanceKeepsOpen(s, []);
      }
      var fs := CarriedIsPosted(t, j, k);
      es := [e] + fs;
      assert es[1..] == fs;
      AdvanceGrows(s, []);
      CountGrows(s.wire.posted, t.wire.posted, k);
    }
  }

  lemma CheckPasses(s: Session)
    requires LookAlone(s.pass) && s.pass != [] && s.pass[0].Check? && s.open
    ensures Advance(s, []) == s.(pass := [Post(s.pass[0].line)] + s.pass[1..]) && LookAlone(Advance(s, []).pass)
  {
  }

  lemma AdvanceKeepsOpen(s: Session, order: seq<string>)
    requires s.pass != []
    ensures Advance(s, order).open == s.open
  {
  }

  // -- a pass comes to its end -----------------------------------------------------------------------

  /** What the monitor thread alone never changes. */
  predicate MonitorKeeps(s: Session, t: Session) {
    && t.open == s.open && t.handler == s.handler && t.tables.subs == s.tables.subs && t.tables.made == s.tables.made
  }

  lemma AdvanceMonitorKeeps(s: Session, order: seq<string>)
    requires s.pass != []
    ensures MonitorKeeps(s, Advance(s, order))
  {
    hide StandardActs, WildcardActs, Enumerates, GenId, Key;
  }

  /** Every finite map can be walked in some order. */
  lemma SomeOrder(keys: set<string>) returns (order: seq<string>)
    ensures Enumerates(order, keys)
    decreases |keys|
  {
    if keys == {} {
      order := [];
    } else {
      var k :| k in keys;
      var rest := SomeOrder(keys - {k});
      order := [k] + rest;
      assert forall x :: x in keys ==> x == k || x in keys - {k};
      assert forall i :: 1 <= i < |order| ==> order[i] == rest[i - 1];
    }
  }

  /** A snapshot leaves nothing more to look at. */
  lemma SnapshotActs(s: Session, order: seq<string>)
    requires LookAlone(s.pass) && s.pass != [] && s.pass[0].Look? && Enumerates(order, s.tables.subs.Keys)
    ensures var t, sample := Advance(s, order), s.pass[0].sample;
      && t.pass == StandardActs(s.tables.subs, order, sample) + WildcardActs(s.tables.xsubs, sample)
      && forall i :: 0 <= i < |t.pass| ==> !t.pass[i].Look?
  {
    hide StandardActs, WildcardActs;
    var subs, xsubs, sample := s.tables.subs, s.tables.xsubs, s.pass[0].sample;
    ActsSend(subs, order, xsubs, sample);
    var a, b := StandardActs(subs, order, sample), WildcardActs(xsubs, sample);
    assert a + b + s.pass[1..] == a + b;
    assert forall i :: 0 <= i < |a + b| ==> (a + b)[i] in a || (a + b)[i] in b;
  }

  lemma {:induction false} PassEnds(s: Session) returns (es: seq<Event>)
    requires LookAlone(s.pass)
    ensures OnlyDeliver(es) && Run(s, es).pass == [] && MonitorKeeps(s, Run(s, es))
    decreases if s.pass != [] && s.pass[0].Look? then 1 else 0, Work(s.pass)
  {
    hide AsioStep, Continue, Advance, Work;
    if s.pass == [] {
      es := [];
    } else {
      var order := [];
      if s.pass[0].Look? {
        order := SomeOrder(s.tables.subs.Keys);
        SnapshotActs(s, order);
      } else {
        var front := AdvanceFront(s);
        assert s.pass == [s.pass[0]] + s.pass[1..];
        FrontWorks(front, s.pass[0], s.pass[1..]);
        assert forall i :: 0 <= i < |s.pass| ==> !s.pass[i].Look?;
      }
      var t := Advance(s, order);
      assert Step(s, Deliver(order)) == t;
      AdvanceMonitorKeeps(s, order);
      var fs := PassEnds(t);
      es := [Deliver(order)] + fs;
      assert es[1..] == fs;
    }
  }
}
