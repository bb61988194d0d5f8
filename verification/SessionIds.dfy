/** Concrete subscription ids, over every run of a session. */
module SessionIds {
  import opened Protocol
  import opened Session
  import opened SessionWrites

  // -- concrete ids -------------------------------------------------------------------------------

  function IssueKey(i: Issue): string {
    Key(i.stream, i.topic, i.message)
  }

  /** An entry is the record of one issue: its key, and the id handed out then. */
  predicate Backed(t: Tables, key: string, k: nat)
    requires key in t.concrete
  {
    k < |t.issued| && key == IssueKey(t.issued[k]) && t.concrete[key] == GenId(k + 1)
  }

  ghost predicate IdInv(t: Tables) {
    && t.nextId == |t.issued| + 1
    && forall key :: key in t.concrete ==> exists k :: Backed(t, key, k)
  }

  lemma IssuedKeeps(t: Tables, stream: OneLine, topic: string, message: OneLine)
    requires IdInv(t)
    ensures IdInv(Issued(t, stream, topic, message))
  {
    var u := Issued(t, stream, topic, message);
    forall key | key in u.concrete
      ensures exists k :: Backed(u, key, k)
    {
      if key == Key(stream, topic, message) {
        assert Backed(u, key, |t.issued|);
      } else {
        var k: nat :| Backed(t, key, k);
        assert Backed(u, key, k);
      }
    }
  }

  /** An entry of `u` is an entry of `t`, or its id had not been handed out in `t`. */
  ghost predicate NoneReissued(t: Tables, u: Tables) {
    forall key :: key in u.concrete ==>
      (key in t.concrete && t.concrete[key] == u.concrete[key]) || (exists n :: n >= t.nextId && u.concrete[key] == GenId(n))
  }

  /** Ids are only taken away. */
  predicate Shrinks(t: Tables, u: Tables) {
    && u.issued == t.issued && u.nextId == t.nextId
    && forall key :: key in u.concrete ==> key in t.concrete && u.concrete[key] == t.concrete[key]
  }

  lemma ShrinkKeeps(t: Tables, u: Tables)
    requires IdInv(t) && Shrinks(t, u)
    ensures IdInv(u)
  {
    hide GenId, Key;
    forall key | key in u.concrete
      ensures exists k :: Backed(u, key, k)
    {
      var k: nat :| Backed(t, key, k);
      assert Backed(u, key, k);
    }
  }

  lemma HandleShrinks(s: Session, c: Command, init: InitArgument)
    ensures Shrinks(s.tables, Handle(s, c, init).tables)
  {
    hide WithoutStream, GenId, Key, Ack;
  }

  /** Only an `Ensure` step hands out an id. */
  lemma OthersShrink(s: Session, e: Event)
    requires e.Deliver? && s.pass != [] ==> !s.pass[0].Ensure?
    ensures Shrinks(s.tables, Step(s, e).tables)
  {
    hide Parse, Handle, StandardActs, WildcardActs, Enumerates, GenId, Key, Enqueue, FinishWrite, Posted;
    if e.Received? { HandleShrinks(s, Parse(e.payload), e.init); }
  }

  lemma TablesStep(s: Session, e: Event)
    requires IdInv(s.tables)
    ensures IdInv(Step(s, e).tables)
    ensures NoneReissued(s.tables, Step(s, e).tables)
  {
    hide GenId, Key, AsioStep, Continue, Handle, Parse, StandardActs, WildcardActs, Enumerates;
    if e.Deliver? && s.pass != [] && s.pass[0].Ensure? {
      IssuedKeeps(s.tables, s.pass[0].stream, s.pass[0].sample.topic, s.pass[0].sample.message);
    } else {
      OthersShrink(s, e);
      ShrinkKeeps(s.tables, Step(s, e).tables);
    }
  }

  lemma {:induction false} IdsKept(s: Session, es: seq<Event>)
    requires IdInv(s.tables)
    ensures IdInv(Run(s, es).tables)
    ensures NoneReissued(s.tables, Run(s, es).tables)
    decreases |es|
  {
    hide Step, IdInv, GenId;
    if es != [] {
      var t := Step(s, es[0]);
      TablesStep(s, es[0]);
      StepGrows(s, es[0]);
      IdsKept(t, es[1..]);
    }
  }

  /** Over every run: live concrete ids are distinct, all below `nextId`, and an id that was handed
      out once never comes back for another key. */
  lemma ConcreteIds(es: seq<Event>, fs: seq<Event>)
    ensures var t := Run(Start(), es).tables;
      && (forall a, b :: a in t.concrete && b in t.concrete && a != b ==> t.concrete[a] != t.concrete[b])
      && (forall a :: a in t.concrete ==> exists n :: 1 <= n < t.nextId && t.concrete[a] == GenId(n))
    ensures NoneReissued(Run(Start(), es).tables, Run(Start(), es + fs).tables)
  {
    hide Step, GenId, Key;
    IdsKept(Start(), es);
    RunConcat(Start(), es, fs);
    IdsKept(Run(Start(), es), fs);
    var t := Run(Start(), es).tables;
    forall a, b | a in t.concrete && b in t.concrete && a != b
      ensures t.concrete[a] != t.concrete[b]
    {
      var j: nat :| Backed(t, a, j);
      var k: nat :| Backed(t, b, k);
      if GenId(j + 1) == GenId(k + 1) {
        GenIdInjective(j + 1, k + 1);
      }
    }
    forall a | a in t.concrete
      ensures exists n :: 1 <= n < t.nextId && t.concrete[a] == GenId(n)
    {
      var k: nat :| Backed(t, a, k);
      assert 1 <= k + 1 < t.nextId && t.concrete[a] == GenId(k + 1);
    }
  }

  /** XUNSUB takes away the stream's wildcard subscriptions and exactly the concrete ids issued
      for the stream, and leaves the others as they are. */
  lemma XUnsubErasesOwn(s: Session, payload: string, init: InitArgument)
    requires s.phase == Reading && !Busy(s) && s.initialized && Parse(payload).XUnsubscribe?
    ensures var stream, t, u := Parse(payload).stream, s.tables, Step(s, Received(payload, init)).tables;
      && (forall x :: x in u.xsubs <==> x in t.xsubs && x.stream != stream)
      && (forall i: Issue :: IssueKey(i) in u.concrete <==> IssueKey(i) in t.concrete && i.stream != stream)
      && (forall key :: key in u.concrete ==> key in t.concrete && t.concrete[key] == u.concrete[key])
      && u.subs == t.subs && u.nextId == t.nextId
  {
    var stream := Parse(payload).stream;
    hide Parse;
    FilterExact(s.tables.xsubs, stream);
    forall i: Issue
      ensures stream + "\n" <= IssueKey(i) <==> i.stream == stream
    {
      KeyPrefix(stream, i.stream, i.topic, i.message);
    }
  }

  lemma {:induction false} FilterExact(xsubs: seq<XSub>, stream: string)
    ensures forall x :: x in WithoutStream(xsubs, stream) <==> x in xsubs && x.stream != stream
  {
    if xsubs != [] {
      FilterExact(xsubs[1..], stream);
      assert xsubs == [xsubs[0]] + xsubs[1..];
    }
  }

  lemma FilterCons(x: XSub, xsubs: seq<XSub>, stream: string)
    ensures WithoutStream([x] + xsubs, stream) == (if x.stream == stream then [] else [x]) + WithoutStream(xsubs, stream)
  {
    assert ([x] + xsubs)[1..] == xsubs;
  }

  /** `remove_if` keeps the others in order. */
  lemma {:induction false} FilterInOrder(a: seq<XSub>, x: XSub, b: seq<XSub>, stream: string)
    ensures WithoutStream(a + [x] + b, stream) ==
      WithoutStream(a, stream) + (if x.stream == stream then [] else [x]) + WithoutStream(b, stream)
  {
    hide WithoutStream;
    FilterCons(x, b, stream);
    if a == [] {
      assert a + [x] + b == [x] + b;
      NothingFiltered(stream);
      assert WithoutStream(a, stream) == [];
    } else {
      var rest := a[1..] + [x] + b;
      assert a + [x] + b == [a[0]] + rest && a == [a[0]] + a[1..];
      FilterCons(a[0], rest, stream);
      FilterCons(a[0], a[1..], stream);
      FilterInOrder(a[1..], x, b, stream);
    }
  }

  lemma NothingFiltered(stream: string)
    ensures WithoutStream([], stream) == []
  {
  }

  /** The event is an XUNSUB of the stream. */
  predicate Unsubscribes(e: Event, stream: string) {
    e.Received? && Parse(e.payload) == XUnsubscribe(stream)
  }

  lemma StepKeepsId(s: Session, e: Event, stream: OneLine, topic: string, message: OneLine)
    requires Key(stream, topic, message) in s.tables.concrete && !Unsubscribes(e, stream)
    ensures var key, t := Key(stream, topic, message), Step(s, e).tables; key in t.concrete && t.concrete[key] == s.tables.concrete[key]
  {
    hide Parse, Handle, StandardActs, WildcardActs, Enumerates, GenId, Key, Enqueue, FinishWrite, Posted, IdInv;
    if e.Received? { CommandKeepsId(s, Parse(e.payload), e.init, stream, topic, message); }
  }

  lemma CommandKeepsId(s: Session, c: Command, init: InitArgument, stream: OneLine, topic: string, message: OneLine)
    requires Key(stream, topic, message) in s.tables.concrete && c != XUnsubscribe(stream)
    requires c.XUnsubscribe? ==> ValidToken(c.stream)
    ensures var key, t := Key(stream, topic, message), Handle(s, c, init).tables;
      key in t.concrete && t.concrete[key] == s.tables.concrete[key]
  {
    hide GenId, WithoutStream, Key;
    if c.XUnsubscribe? { KeyPrefix(c.stream, stream, topic, message); }
  }

  /** Over every run: a stream's topic and message keep their generated id until the stream is
      unsubscribed. */
  lemma {:induction false} IdKept(s: Session, es: seq<Event>, stream: OneLine, topic: string, message: OneLine)
    requires Key(stream, topic, message) in s.tables.concrete
    requires forall i :: 0 <= i < |es| ==> !Unsubscribes(es[i], stream)
    ensures var key, t := Key(stream, topic, message), Run(s, es).tables; key in t.concrete && t.concrete[key] == s.tables.concrete[key]
    decreases |es|
  {
    hide Step, Unsubscribes, Key;
    if es != [] {
      StepKeepsId(s, es[0], stream, topic, message);
      assert forall i :: 0 <= i < |es| - 1 ==> es[1..][i] == es[i + 1];
      IdKept(Step(s, es[0]), es[1..], stream, topic, message);
    }
  }
}
