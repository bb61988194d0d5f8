/** What one delivery to an open client posts when nothing comes between its steps: each matching
    subscription is served, once, and nobody else. */
module SessionFanout {
  import opened Protocol
  import opened Session
  import opened SessionWrites
  import opened SessionAnnounce
  import opened SessionOrigins
  import opened SessionUnsub
  import opened SessionPasses
  import Glob

  /** MSG lines that carry the sample for the subscription. */
  function Tally(lines: seq<Line>, o: Origin, x: Sample): nat {
    if lines == [] then 0
    else Tally(lines[..|lines| - 1], o, x) + if Carrying(lines[|lines| - 1], o, x) then 1 else 0
  }

  predicate Carrying(line: Line, o: Origin, x: Sample) {
    line.Msg? && line.origin == o && line.sample == x
  }

  /** The act ends in such a line. */
  predicate Serves(a: Act, o: Origin, x: Sample) {
    (Carries(a) && Carrying(a.line, o, x)) || (a.Ensure? && o == Wildcard(a.stream) && a.sample == x)
  }

  function Due(acts: seq<Act>, o: Origin, x: Sample): nat {
    if acts == [] then 0 else (if Serves(acts[0], o, x) then 1 else 0) + Due(acts[1..], o, x)
  }

  lemma TallySnoc(lines: seq<Line>, line: Line, o: Origin, x: Sample)
    ensures Tally(lines + [line], o, x) == Tally(lines, o, x) + if Carrying(line, o, x) then 1 else 0
  {
    assert (lines + [line])[..|lines|] == lines;
  }

  lemma DueCons(a: Act, acts: seq<Act>, o: Origin, x: Sample)
    ensures Due([a] + acts, o, x) == (if Serves(a, o, x) then 1 else 0) + Due(acts, o, x)
  {
    assert ([a] + acts)[1..] == acts;
  }

  lemma {:induction false} DueConcat(a: seq<Act>, b: seq<Act>, o: Origin, x: Sample)
    ensures Due(a + b, o, x) == Due(a, o, x) + Due(b, o, x)
  {
    if a == [] {
      assert a + b == b;
    } else {
      assert (a + b)[1..] == a[1..] + b;
      DueConcat(a[1..], b, o, x);
    }
  }

  // -- what a snapshot finds -----------------------------------------------------------------------

  predicate Matches(sub: StandardSub, x: Sample) {
    sub.topic == x.topic && sub.message == x.message
  }

  /** How many wildcard subscriptions of the stream have patterns that match the sample. */
  function Selecting(xsubs: seq<XSub>, stream: OneLine, x: Sample): nat {
    if xsubs == [] then 0
    else (if Selects(xsubs[0], stream, x.topic, x.message) then 1 else 0) + Selecting(xsubs[1..], stream, x)
  }

  lemma {:induction false} WildcardsDue(xsubs: seq<XSub>, y: Sample, stream: OneLine, x: Sample)
    ensures Due(WildcardActs(xsubs, y), Wildcard(stream), x) == if x == y then Selecting(xsubs, stream, x) else 0
  {
    hide Glob.Glob;
    if xsubs != [] {
      WildcardsDue(xsubs[1..], y, stream, x);
      var tail := WildcardActs(xsubs[1..], y);
      DueCons(Ensure(xsubs[0].stream, y), tail, Wildcard(stream), x);
      assert [] + tail == tail;
    }
  }

  lemma {:induction false} WildcardsNotStandard(xsubs: seq<XSub>, y: Sample, k: nat, x: Sample)
    ensures Due(WildcardActs(xsubs, y), Standard(k), x) == 0
  {
    hide Glob.Glob;
    if xsubs != [] {
      WildcardsNotStandard(xsubs[1..], y, k, x);
      var tail := WildcardActs(xsubs[1..], y);
      DueCons(Ensure(xsubs[0].stream, y), tail, Standard(k), x);
      assert [] + tail == tail;
    }
  }

  lemma {:induction false} StandardsDue(subs: map<string, StandardSub>, order: seq<string>, y: Sample, o: Origin, x: Sample)
    requires forall i :: 0 <= i < |order| ==> order[i] in subs
    ensures order != [] ==>
      Due(StandardActs(subs, order, y), o, x) ==
        (if x == y && Matches(subs[order[0]], x) && o == Standard(subs[order[0]].serial) then 1 else 0)
        + Due(StandardActs(subs, order[1..], y), o, x)
  {
    if order != [] {
      var sub, tail := subs[order[0]], StandardActs(subs, order[1..], y);
      DueCons(Check(Msg(sub.id, y, Standard(sub.serial))), tail, o, x);
      assert [] + tail == tail;
    }
  }

  lemma {:induction false} NoStandardDue(subs: map<string, StandardSub>, order: seq<string>, y: Sample, o: Origin, x: Sample)
    requires forall i :: 0 <= i < |order| ==> order[i] in subs && o != Standard(subs[order[i]].serial)
    ensures Due(StandardActs(subs, order, y), o, x) == 0
  {
    hide StandardActs;
    if order != [] {
      NoStandardDue(subs, order[1..], y, o, x);
      StandardsDue(subs, order, y, o, x);
    } else {
      NoneEnumerated(subs, order, y, o, x);
    }
  }

  lemma NoneEnumerated(subs: map<string, StandardSub>, order: seq<string>, y: Sample, o: Origin, x: Sample)
    requires order == []
    ensures Due(StandardActs(subs, order, y), o, x) == 0
  {
  }

  /** Each subscription is enumerated once, and serial numbers tell subscriptions apart. */
  lemma {:induction false} StandardDueOnce(t: Tables, order: seq<string>, y: Sample, id: string, x: Sample)
    requires TablesOk(t) && id in t.subs
    requires forall i :: 0 <= i < |order| ==> order[i] in t.subs
    requires forall i, j :: 0 <= i < j < |order| ==> order[i] != order[j]
    ensures Due(StandardActs(t.subs, order, y), Standard(t.subs[id].serial), x) ==
      if id in order && x == y && Matches(t.subs[id], x) then 1 else 0
  {
    hide StandardActs;
    var o := Standard(t.subs[id].serial);
    if order == [] {
      NoneEnumerated(t.subs, order, y, o, x);
    } else {
      StandardsDue(t.subs, order, y, o, x);
      if order[0] == id {
        forall i | 0 <= i < |order[1..]|
          ensures o != Standard(t.subs[order[1..][i]].serial)
        {
          assert order[1..][i] == order[i + 1];
        }
        NoStandardDue(t.subs, order[1..], y, o, x);
      } else {
        StandardDueOnce(t, order[1..], y, id, x);
        assert id in order <==> id in order[1..];
      }
    }
  }

  // -- steps of the pass ---------------------------------------------------------------------------------

  /** Asking for an id leaves one line for the wildcard subscription and perhaps its announcement. */
  lemma EnsureDue(s: Session, o: Origin, x: Sample)
    requires s.pass != [] && s.pass[0].Ensure?
    ensures Due(Advance(s, []).pass, o, x) == Due(s.pass, o, x)
    ensures Advance(s, []).wire == s.wire && Advance(s, []).open == s.open
  {
    hide GenId, Key, Issued, Due;
    var a, rest, t := s.pass[0], s.pass[1..], Advance(s, []);
    assert s.pass == [a] + rest;
    DueCons(a, rest, o, x);
    var key, id := Key(a.stream, a.sample.topic, a.sample.message), GenId(s.tables.nextId);
    if key in s.tables.concrete {
      DueCons(Check(Msg(s.tables.concrete[key], a.sample, Wildcard(a.stream))), rest, o, x);
    } else {
      var info, msg := Check(XSubInfo(a.stream, id, a.sample.topic, a.sample.message)), Check(Msg(id, a.sample, Wildcard(a.stream)));
      assert t.pass == [info] + ([msg] + rest);
      DueCons(info, [msg] + rest, o, x);
      DueCons(msg, rest, o, x);
    }
  }

  /** What is due is posted in time, as long as the client is open. */
  lemma AdvanceDue(s: Session, order: seq<string>, o: Origin, x: Sample)
    requires s.open && s.pass != [] && !s.pass[0].Look?
    ensures var t := Advance(s, order);
      t.open && Tally(t.wire.posted, o, x) + Due(t.pass, o, x) == Tally(s.wire.posted, o, x) + Due(s.pass, o, x)
  {
    hide Due, Tally, GenId, Key, Issued;
    var a, rest := s.pass[0], s.pass[1..];
    assert s.pass == [a] + rest;
    DueCons(a, rest, o, x);
    match a
    case Check(line) => DueCons(Post(line), rest, o, x);
    case Post(line) => TallySnoc(s.wire.posted, line, o, x);
    case Ensure(_, _) =>
      EnsureDue(s, o, x);
      assert Advance(s, order) == Advance(s, []);
  }

  /** A pass under way, once it has its snapshot, posts what is due. */
  lemma {:induction false} PassPosts(s: Session, es: seq<Event>, o: Origin, x: Sample)
    requires s.open && OnlyDeliver(es) && Run(s, es).pass == []
    requires forall i :: 0 <= i < |s.pass| ==> !s.pass[i].Look?
    ensures Tally(Run(s, es).wire.posted, o, x) == Tally(s.wire.posted, o, x) + Due(s.pass, o, x)
    decreases |es|
  {
    hide Due, Tally, Advance, AsioStep, Continue;
    if es != [] {
      var e := es[0];
      assert forall i :: 0 <= i < |es| - 1 ==> es[1..][i] == es[i + 1];
      if s.pass != [] {
        AdvanceDue(s, e.order, o, x);
        NoLookAfter(s, e.order);
        PassPosts(Advance(s, e.order), es[1..], o, x);
      } else {
        PassPosts(s, es[1..], o, x);
      }
    } else {
      NothingDue(o, x);
    }
  }

  lemma NothingDue(o: Origin, x: Sample)
    ensures Due([], o, x) == 0
  {
  }

  lemma NoLookAfter(s: Session, order: seq<string>)
    requires s.pass != [] && forall i :: 0 <= i < |s.pass| ==> !s.pass[i].Look?
    ensures var t := Advance(s, order); forall i :: 0 <= i < |t.pass| ==> !t.pass[i].Look?
  {
    hide GenId, Key, Issued;
    assert forall i :: 0 <= i < |s.pass| - 1 ==> s.pass[1..][i] == s.pass[i + 1];
  }

  /** The act is about the sample. */
  predicate About(a: Act, x: Sample) {
    match a
    case Look(y) => y == x
    case Ensure(_, y) => y == x
    case _ => a.line.XSubInfo? || (a.line.Msg? && a.line.sample == x)
  }

  predicate AllAbout(pass: seq<Act>, x: Sample) {
    forall i :: 0 <= i < |pass| ==> About(pass[i], x)
  }

  lemma AdvanceAbout(s: Session, order: seq<string>, x: Sample)
    requires s.pass != [] && !s.pass[0].Look? && AllAbout(s.pass, x)
    ensures var t := Advance(s, order);
      && AllAbout(t.pass, x)
      && (t.wire.posted == s.wire.posted || (s.pass[0].Post? && t.wire.posted == s.wire.posted + [s.pass[0].line]))
  {
    hide GenId, Key, Issued;
    assert forall i :: 0 <= i < |s.pass| - 1 ==> s.pass[1..][i] == s.pass[i + 1];
  }

  lemma {:induction false} PassAbout(s: Session, es: seq<Event>, x: Sample)
    requires OnlyDeliver(es) && AllAbout(s.pass, x) && forall i :: 0 <= i < |s.pass| ==> !s.pass[i].Look?
    ensures var old_, new_ := s.wire.posted, Run(s, es).wire.posted;
      old_ <= new_ && forall i :: |old_| <= i < |new_| ==> new_[i].XSubInfo? || (new_[i].Msg? && new_[i].sample == x)
    decreases |es|
  {
    hide Advance, AsioStep, Continue, About;
    if es != [] {
      var e := es[0];
      assert forall i :: 0 <= i < |es| - 1 ==> es[1..][i] == es[i + 1];
      if s.pass != [] {
        AdvanceAbout(s, e.order, x);
        NoLookAfter(s, e.order);
        assert About(s.pass[0], x);
        AboutLine(s.pass[0], x);
        PassAbout(Advance(s, e.order), es[1..], x);
      } else {
        PassAbout(s, es[1..], x);
      }
    }
  }

  lemma AboutLine(a: Act, x: Sample)
    ensures About(a, x) && a.Post? ==> a.line.XSubInfo? || (a.line.Msg? && a.line.sample == x)
  {
  }

  lemma {:induction false} SnapshotAbout(subs: map<string, StandardSub>, order: seq<string>, xsubs: seq<XSub>, x: Sample)
    requires forall i :: 0 <= i < |order| ==> order[i] in subs
    ensures forall a :: a in StandardActs(subs, order, x) || a in WildcardActs(xsubs, x) ==> About(a, x)
    decreases |order| + |xsubs|
  {
    hide Glob.Glob;
    if order != [] { SnapshotAbout(subs, order[1..], [], x); }
    if xsubs != [] { SnapshotAbout(subs, [], xsubs[1..], x); }
  }

  /** Until it takes its snapshot a pass does nothing. */
  lemma {:induction false} FromLook(s: Session, x: Sample, es: seq<Event>) returns (order: seq<string>, fs: seq<Event>)
    requires s.open && s.pass == [Look(x)] && OnlyDeliver(es) && Run(s, es).pass == []
    ensures Enumerates(order, s.tables.subs.Keys) && OnlyDeliver(fs)
    ensures var t := s.(pass := StandardActs(s.tables.subs, order, x) + WildcardActs(s.tables.xsubs, x)); Run(s, es) == Run(t, fs)
    decreases |es|
  {
    hide StandardActs, WildcardActs, Enumerates, AsioStep, Continue;
    assert es != [];
    assert forall i :: 0 <= i < |es| - 1 ==> es[1..][i] == es[i + 1];
    if Enumerates(es[0].order, s.tables.subs.Keys) {
      order, fs := es[0].order, es[1..];
      OrderIn(order, s.tables.subs.Keys);
      var acts := StandardActs(s.tables.subs, order, x) + WildcardActs(s.tables.xsubs, x);
      assert acts + s.pass[1..] == acts;
    } else {
      order, fs := FromLook(s, x, es[1..]);
    }
  }

  lemma OrderIn(order: seq<string>, keys: set<string>)
    requires Enumerates(order, keys)
    ensures (forall i :: 0 <= i < |order| ==> order[i] in keys) && (forall k :: k in keys ==> k in order)
    ensures forall i, j :: 0 <= i < j < |order| ==> order[i] != order[j]
  {
  }

  lemma StartOrigins()
    ensures OriginInv(Start())
  {
  }

  /** After every run: one delivery of a sample to an open client, from the visit to the end of the
      pass and with no step of the other thread in between, posts one MSG for every standard
      subscription of its topic and message and none for the others, and for every stream one MSG
      for each wildcard subscription whose patterns match. Besides these it posts announcements only. */
  lemma EachServedOnce(es: seq<Event>, x: Sample, fs: seq<Event>, id: string, stream: OneLine)
    requires var s := Run(Start(), es); s.open && s.pass == []
    requires OnlyDeliver(fs) && Run(Start(), es + [Visit(x)] + fs).pass == []
    ensures var s, t := Run(Start(), es), Run(Start(), es + [Visit(x)] + fs);
      && (id in s.tables.subs ==>
           var sub := s.tables.subs[id];
           Tally(t.wire.posted, Standard(sub.serial), x) ==
             Tally(s.wire.posted, Standard(sub.serial), x) + if sub.topic == x.topic && sub.message == x.message then 1 else 0)
      && Tally(t.wire.posted, Wildcard(stream), x) == Tally(s.wire.posted, Wildcard(stream), x) + Selecting(s.tables.xsubs, stream, x)
      && s.wire.posted <= t.wire.posted
      && forall i :: |s.wire.posted| <= i < |t.wire.posted| ==>
           t.wire.posted[i].XSubInfo? || (t.wire.posted[i].Msg? && t.wire.posted[i].sample == x)
  {
    hide About, Run, Tally, Due, StandardActs, WildcardActs, Enumerates, TablesOk, Solicited, ActSolicited;
    var s := Run(Start(), es);
    StartOrigins();
    OriginsKept(Start(), es);
    RunThen(Start(), es, Visit(x));
    RunConcat(Start(), es + [Visit(x)], fs);
    var u := s.(pass := [Look(x)]);
    var order, gs := FromLook(u, x, fs);
    OrderIn(order, s.tables.subs.Keys);
    var a, b := StandardActs(s.tables.subs, order, x), WildcardActs(s.tables.xsubs, x);
    var v := u.(pass := a + b);
    ActsSend(s.tables.subs, order, s.tables.xsubs, x);
    assert forall i :: 0 <= i < |v.pass| ==> v.pass[i] in a || v.pass[i] in b;
    SnapshotAbout(s.tables.subs, order, s.tables.xsubs, x);
    PassAbout(v, gs, x);
    var w := Wildcard(stream);
    PassPosts(v, gs, w, x);
    DueConcat(a, b, w, x);
    NoStandardDue(s.tables.subs, order, x, w, x);
    WildcardsDue(s.tables.xsubs, x, stream, x);
    if id in s.tables.subs {
      var o := Standard(s.tables.subs[id].serial);
      PassPosts(v, gs, o, x);
      DueConcat(a, b, o, x);
      StandardDueOnce(s.tables, order, x, id, x);
      WildcardsNotStandard(s.tables.xsubs, x, s.tables.subs[id].serial, x);
    }
  }
}
