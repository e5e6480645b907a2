/** The benchmark's receiver: a mutex-guarded monitor that counts deliveries and then quiesces. */
module Receiver {
  import opened Common
  import opened Arith

  type Id = string

  /** The guarded fields. `expected` is None until the first non-empty expectation, even a refused one. */
  datatype State = State(
    expected: Option<set<Id>>, seen: set<Id>, duplicates: nat, unexpected: nat, invalid: nat,
    completed: bool, accepting: bool, active: int)

  const INITIAL := State(None, {}, 0, 0, 0, false, true, 0)

  datatype Report = Report(unique: nat, duplicates: nat, missing: int, unexpected: nat, invalid: nat)

  function Wanted(s: State): set<Id> {
    if s.expected.None? then {} else s.expected.value
  }

  // ----- what each critical section does

  /** The longest prefix without an empty or repeated id, which is what a refused expectation leaves behind. */
  function GoodPrefix(ids: seq<Id>): (n: nat)
    ensures n <= |ids|
  {
    if ids == [] then 0
    else
      var n := GoodPrefix(ids[..|ids| - 1]);
      if n == |ids| - 1 && ids[n] != "" && ids[n] !in ids[..n] then n + 1 else n
  }

  function Elements(ids: seq<Id>): set<Id> {
    set id | id in ids
  }

  function AfterExpect(s: State, ids: seq<Id>): State {
    if ids == [] || s.expected.Some? then s
    else s.(expected := Some(Elements(ids[..GoodPrefix(ids)])), seen := {})
  }

  predicate ExpectSucceeds(s: State, ids: seq<Id>) {
    ids != [] && s.expected.None? && GoodPrefix(ids) == |ids|
  }

  function Booked(s: State, verified: bool, id: Id): State {
    if !verified then s.(invalid := s.invalid + 1)
    else if id !in Wanted(s) then s.(unexpected := s.unexpected + 1)
    else if id in s.seen then s.(duplicates := s.duplicates + 1)
    else
      var seen := s.seen + {id};
      s.(seen := seen, completed := s.completed || |seen| == |Wanted(s)|)
  }

  function Begun(s: State): State {
    if s.accepting then s.(active := s.active + 1) else s
  }

  function Ended(s: State): State {
    s.(active := s.active - 1)
  }

  function Summary(s: State): Report {
    Report(|s.seen|, s.duplicates, |Wanted(s)| - |s.seen|, s.unexpected, s.invalid)
  }

  predicate SnapshotSucceeds(s: State) {
    !s.accepting && s.active == 0 && Summary(s).invalid == 0 && Summary(s).missing == 0 && Summary(s).unexpected == 0
  }

  // ----- the object

  class Monitor {
    var expected: Option<set<Id>>
    var seen: set<Id>
    var duplicates: nat
    var unexpected: nat
    var invalid: nat
    var completed: bool
    var accepting: bool
    var active: int

    constructor ()
      ensures Model() == INITIAL
    {
      expected, seen, duplicates, unexpected, invalid := None, {}, 0, 0, 0;
      completed, accepting, active := false, true, 0;
    }

    function Model(): State
      reads this
    {
      State(expected, seen, duplicates, unexpected, invalid, completed, accepting, active)
    }

    method Expect(ids: seq<Id>) returns (ok: bool)
      modifies `expected, `seen
      ensures Model() == AfterExpect(old(Model()), ids)
      ensures ok <==> ExpectSucceeds(old(Model()), ids)
    {
      hide GoodPrefix, Elements;
      if |ids| == 0 || expected.Some? {
        return false;
      }
      expected, seen := Some({}), {};
      PrefixStart(ids);
      var i := 0;
      while i < |ids|
        invariant 0 <= i <= |ids| && GoodPrefix(ids[..i]) == i
        invariant expected == Some(Elements(ids[..i])) && seen == {}
      {
        PrefixStep(ids, i);
        if ids[i] == "" || ids[i] in expected.value {
          return false;
        }
        expected := Some(expected.value + {ids[i]});
        i := i + 1;
      }
      assert ids[..i] == ids;
      return true;
    }

    method Book(verified: bool, id: Id)
      modifies this
      ensures Model() == Booked(old(Model()), verified, id)
    {
      if !verified {
        invalid := invalid + 1;
        return;
      }
      if expected.None? || id !in expected.value {
        unexpected := unexpected + 1;
        return;
      }
      if id in seen {
        duplicates := duplicates + 1;
        return;
      }
      seen := seen + {id};
      if |seen| == |expected.value| {
        Finish();
      }
    }

    method Finish()
      modifies `completed
      ensures completed
    {
      if !completed {
        completed := true;
      }
    }

    method BeginHandler() returns (ok: bool)
      modifies this
      ensures Model() == Begun(old(Model())) && (ok <==> old(accepting))
    {
      if !accepting {
        return false;
      }
      active := active + 1;
      return true;
    }

    /** Whether the waiters are woken. */
    method EndHandler() returns (broadcast: bool)
      modifies this
      ensures Model() == Ended(old(Model())) && (broadcast <==> active == 0)
    {
      active := active - 1;
      return active == 0;
    }

    method StopAccepting()
      modifies this
      ensures Model() == old(Model()).(accepting := false)
    {
      accepting := false;
    }

    method Snapshot() returns (result: Report, ok: bool)
      ensures result == Summary(Model()) && (ok <==> SnapshotSucceeds(Model()))
      ensures ok <==>
        && !accepting && active == 0 && result.invalid == 0 && result.missing == 0 && result.unexpected == 0
    {
      var wanted := if expected.Some? then |expected.value| else 0;
      result := Report(|seen|, duplicates, wanted - |seen|, unexpected, invalid);
      if accepting || active != 0 {
        return result, false;
      }
      ok := result.invalid == 0 && result.missing == 0 && result.unexpected == 0;
    }
  }

  lemma PrefixStart(ids: seq<Id>)
    ensures GoodPrefix(ids[..0]) == 0 && Elements(ids[..0]) == {}
  {
  }

  lemma PrefixStep(ids: seq<Id>, i: nat)
    requires i < |ids| && GoodPrefix(ids[..i]) == i
    ensures Elements(ids[..i + 1]) == Elements(ids[..i]) + {ids[i]}
    ensures ids[i] == "" || ids[i] in Elements(ids[..i]) ==> GoodPrefix(ids) == i
    ensures ids[i] != "" && ids[i] !in Elements(ids[..i]) ==> GoodPrefix(ids[..i + 1]) == i + 1
  {
    assert ids[..i + 1] == ids[..i] + [ids[i]];
    if ids[i] == "" || ids[i] in ids[..i] { PrefixStops(ids, i); }
  }

  lemma {:induction false} PrefixStops(ids: seq<Id>, i: nat)
    requires i < |ids| && GoodPrefix(ids[..i]) == i && (ids[i] == "" || ids[i] in ids[..i])
    ensures GoodPrefix(ids) == i
    decreases |ids|
  {
    var front := ids[..|ids| - 1];
    if i < |front| {
      assert front[..i] == ids[..i];
      PrefixStops(front, i);
    }
  }

  // ----- the protocol

  datatype Phase = Serving | Done

  /** The monitor, its handlers, and whether some call of quiesce has returned. */
  datatype Protocol = Protocol(monitor: State, handlers: map<nat, Phase>, quiesced: bool)

  const START := Protocol(INITIAL, map[], false)

  datatype Event =
    | Expecting(ids: seq<Id>)
    | Begin(handler: nat)
    | Book(handler: nat, verified: bool, id: Id)
    | End(handler: nat)
    | StopAccepting
    | QuiesceReturns

  predicate IsServing(p: Protocol, h: nat) {
    h in p.handlers && p.handlers[h] == Serving
  }

  /** A handler books at most once, then ends; one whose request is no delivery ends without booking. */
  predicate Enabled(p: Protocol, e: Event) {
    match e
    case Begin(h) => h !in p.handlers
    case Book(h, _, _) => IsServing(p, h)
    case End(h) => h in p.handlers
    case QuiesceReturns => !p.monitor.accepting && p.monitor.active <= 0
    case _ => true
  }

  function Next(p: Protocol, e: Event): Protocol {
    match e
    case Expecting(ids) => p.(monitor := AfterExpect(p.monitor, ids))
    case Begin(h) =>
      p.(monitor := Begun(p.monitor), handlers := if p.monitor.accepting then p.handlers[h := Serving] else p.handlers)
    case Book(h, verified, id) =>
      p.(monitor := Booked(p.monitor, verified, id), handlers := p.handlers[h := Done])
    case End(h) => p.(monitor := Ended(p.monitor), handlers := p.handlers - {h})
    case StopAccepting => p.(monitor := p.monitor.(accepting := false))
    case QuiesceReturns => p.(quiesced := true)
  }

  ghost predicate Run(p: Protocol, events: seq<Event>)
    decreases |events|
  {
    events == [] || (Enabled(p, events[0]) && Run(Next(p, events[0]), events[1..]))
  }

  function After(p: Protocol, events: seq<Event>): Protocol
    decreases |events|
  {
    if events == [] then p else After(Next(p, events[0]), events[1..])
  }

  /** The books alone: seen within expected, and completion exactly when the two are the same non-empty set. */
  predicate Books(s: State) {
    s.seen <= Wanted(s) && (s.completed <==> Wanted(s) != {} && s.seen == Wanted(s))
  }

  ghost predicate Inv(p: Protocol) {
    && p.monitor.active == |p.handlers|
    && Books(p.monitor)
    && (p.quiesced ==> !p.monitor.accepting && p.handlers == map[])
  }

  lemma BookKeepsBooks(s: State, verified: bool, id: Id)
    requires Books(s)
    ensures var t := Booked(s, verified, id);
      Books(t) && t.accepting == s.accepting && t.active == s.active && t.expected == s.expected
  {
    SubsetSize(Booked(s, verified, id).seen, Wanted(s));
  }

  lemma PutSize(m: map<nat, Phase>, h: nat, v: Phase)
    ensures |m[h := v]| == if h in m then |m| else |m| + 1
  {
    assert m[h := v].Keys == m.Keys + {h};
  }

  lemma DropSize(m: map<nat, Phase>, h: nat)
    requires h in m
    ensures |m - {h}| == |m| - 1
  {
    assert (m - {h}).Keys == m.Keys - {h};
  }

  lemma BookInv(p: Protocol, e: Event)
    requires Inv(p) && Enabled(p, e) && e.Book?
    ensures Inv(Next(p, e))
  {
    BookKeepsBooks(p.monitor, e.verified, e.id);
    PutSize(p.handlers, e.handler, Done);
    hide Books, Booked;
  }

  lemma HandlerInv(p: Protocol, e: Event)
    requires Inv(p) && Enabled(p, e) && (e.Begin? || e.End?)
    ensures Inv(Next(p, e))
  {
    if e.Begin? { PutSize(p.handlers, e.handler, Serving); } else { DropSize(p.handlers, e.handler); }
  }

  lemma CallerInv(p: Protocol, e: Event)
    requires Inv(p) && Enabled(p, e) && (e.Expecting? || e.StopAccepting? || e.QuiesceReturns?)
    ensures Inv(Next(p, e))
  {
    assert |p.handlers| == 0 ==> p.handlers == map[];
  }

  lemma NextInv(p: Protocol, e: Event)
    requires Inv(p) && Enabled(p, e)
    ensures Inv(Next(p, e))
  {
    hide Inv, Enabled, Next;
    match e
    case Book(_, _, _) => BookInv(p, e);
    case Begin(_) => HandlerInv(p, e);
    case End(_) => HandlerInv(p, e);
    case _ => CallerInv(p, e);
  }

  /** Every reachable state: seen within expected, and done closed exactly when the two are the same non-empty set. */
  lemma {:induction false} RunInv(p: Protocol, events: seq<Event>)
    requires Inv(p) && Run(p, events)
    ensures Inv(After(p, events))
    decreases |events|
  {
    hide Inv, Enabled, Next;
    if events != [] {
      NextInv(p, events[0]);
      RunInv(Next(p, events[0]), events[1..]);
    }
  }

  lemma {:induction false} RunSplit(p: Protocol, a: seq<Event>, b: seq<Event>)
    requires Run(p, a + b)
    ensures Run(p, a) && Run(After(p, a), b) && After(p, a + b) == After(After(p, a), b)
    decreases |a|
  {
    hide Enabled, Next;
    if a == [] {
      assert a + b == b;
    } else {
      assert (a + b)[0] == a[0] && (a + b)[1..] == a[1..] + b;
      RunSplit(Next(p, a[0]), a[1..], b);
    }
  }

  /** Unique and missing add up to what is expected; completion is having all of it. */
  lemma ReportAddsUp(events: seq<Event>)
    requires Run(START, events)
    ensures var s := After(START, events).monitor;
      && Summary(s).missing >= 0
      && Summary(s).unique + Summary(s).missing == |Wanted(s)|
      && (s.completed <==> Wanted(s) != {} && Summary(s).missing == 0)
  {
    RunInv(START, events);
    var s := After(START, events).monitor;
    SubsetSize(s.seen, Wanted(s));
  }

  function Bookings(events: seq<Event>): nat {
    if events == [] then 0 else (if events[0].Book? then 1 else 0) + Bookings(events[1..])
  }

  function BookedTotal(s: State): nat {
    |s.seen| + s.duplicates + s.unexpected + s.invalid
  }

  /** Every booking is counted once: as unique, duplicate, unexpected or invalid. */
  lemma {:induction false} BookingsAddUp(p: Protocol, events: seq<Event>)
    requires Inv(p) && Run(p, events)
    ensures BookedTotal(After(p, events).monitor) == BookedTotal(p.monitor) + Bookings(events)
    decreases |events|
  {
    if events != [] {
      NextInv(p, events[0]);
      BookingStep(p, events[0]);
      hide Inv, Enabled, Next, BookedTotal;
      BookingsAddUp(Next(p, events[0]), events[1..]);
    }
  }

  lemma OneBooking(s: State, verified: bool, id: Id)
    ensures BookedTotal(Booked(s, verified, id)) == BookedTotal(s) + 1
  {
    assert id !in s.seen ==> |s.seen + {id}| == |s.seen| + 1;
  }

  lemma ExpectingBooksNothing(p: Protocol, ids: seq<Id>)
    requires Inv(p)
    ensures BookedTotal(AfterExpect(p.monitor, ids)) == BookedTotal(p.monitor)
  {
    if p.monitor.expected.None? { assert p.monitor.seen == {}; }
    hide GoodPrefix, Elements;
  }

  lemma BookingStep(p: Protocol, e: Event)
    requires Inv(p)
    ensures BookedTotal(Next(p, e).monitor) == BookedTotal(p.monitor) + if e.Book? then 1 else 0
  {
    hide Inv, Booked, AfterExpect;
    if e.Book? {
      OneBooking(p.monitor, e.verified, e.id);
    } else if e.Expecting? {
      ExpectingBooksNothing(p, e.ids);
    }
  }

  // ----- quiescence

  function Ends(events: seq<Event>): nat {
    if events == [] then 0 else (if events[0].End? then 1 else 0) + Ends(events[1..])
  }

  lemma ActiveIsCount(p: Protocol)
    requires Inv(p)
    ensures p.monitor.active >= 0
  {
  }

  lemma ActiveStep(p: Protocol, e: Event)
    requires Inv(p) && !p.monitor.accepting
    ensures Next(p, e).monitor.active == p.monitor.active - if e.End? then 1 else 0
    ensures !Next(p, e).monitor.accepting
  {
    if e.Book? { BookKeepsBooks(p.monitor, e.verified, e.id); }
    hide Booked, Books, GoodPrefix, Elements;
  }

  /** After it stops accepting, quiesce can return exactly when every handler then inside has ended. */
  lemma {:induction false} QuiesceWaitsForAll(p: Protocol, events: seq<Event>)
    requires Inv(p) && !p.monitor.accepting && Run(p, events)
    ensures var q := After(p, events);
      && !q.monitor.accepting && q.monitor.active == p.monitor.active - Ends(events)
      && (Enabled(q, QuiesceReturns) <==> Ends(events) == p.monitor.active)
    decreases |events|
  {
    hide Inv;
    ActiveIsCount(p);
    if events != [] {
      NextInv(p, events[0]);
      ActiveStep(p, events[0]);
      hide Next;
      QuiesceWaitsForAll(Next(p, events[0]), events[1..]);
    }
  }

  /** Everything a handler could change. */
  predicate SameBooks(a: State, b: State) {
    a.seen == b.seen && a.duplicates == b.duplicates && a.unexpected == b.unexpected && a.invalid == b.invalid
    && a.completed == b.completed
  }

  /** Once quiesce has returned, no continuation of the run changes a counter or a set, or lets a handler in. */
  lemma {:induction false} QuiescenceIsFinal(p: Protocol, events: seq<Event>)
    requires Inv(p) && p.quiesced && Run(p, events)
    ensures var q := After(p, events);
      && q.quiesced && q.handlers == map[] && !q.monitor.accepting && SameBooks(p.monitor, q.monitor)
      && (p.monitor.expected.Some? ==> q.monitor == p.monitor)
    decreases |events|
  {
    if events != [] {
      var e := events[0];
      NextInv(p, e);
      QuiescedStep(p, e);
      QuiescenceIsFinal(Next(p, e), events[1..]);
    }
  }

  lemma QuiescedStep(p: Protocol, e: Event)
    requires Inv(p) && p.quiesced && Enabled(p, e)
    ensures Next(p, e).quiesced && SameBooks(p.monitor, Next(p, e).monitor)
    ensures p.monitor.expected.Some? ==> Next(p, e).monitor == p.monitor
  {
    if p.monitor.expected.None? { assert p.monitor.seen == {}; }
  }

  // ----- what a successful snapshot proves

  ghost predicate Arrived(events: seq<Event>, id: Id) {
    exists i :: 0 <= i < |events| && events[i].Book? && events[i].verified && events[i].id == id
  }

  lemma {:induction false} SeenArrived(events: seq<Event>)
    requires Run(START, events)
    ensures forall id :: id in After(START, events).monitor.seen ==> Arrived(events, id)
    decreases |events|
  {
    if events != [] {
      var front, last := events[..|events| - 1], events[|events| - 1];
      assert events == front + [last];
      RunSplit(START, front, [last]);
      SeenArrived(front);
      forall id | id in After(START, events).monitor.seen
        ensures Arrived(events, id)
      {
        var p := After(START, front);
        assert After(p, [last]) == Next(p, last);
        if id in p.monitor.seen {
          assert Arrived(front, id);
          var i :| 0 <= i < |front| && front[i].Book? && front[i].verified && front[i].id == id;
          assert events[i] == front[i];
        } else {
          assert events[|events| - 1] == last;
        }
      }
    }
  }

  lemma {:induction false} ExpectationStays(p: Protocol, events: seq<Event>)
    requires p.monitor.expected.Some? && Run(p, events)
    ensures After(p, events).monitor.expected == p.monitor.expected
    decreases |events|
  {
    if events != [] {
      assert Next(p, events[0]).monitor.expected == p.monitor.expected;
      ExpectationStays(Next(p, events[0]), events[1..]);
    }
  }

  /**
   * After the first expectation of a non-empty list, taken whole or not: a successful snapshot means that
   * exactly the ids of its longest good prefix arrived, with valid signatures, however many duplicates came
   * too; so the whole list arrived if and only if each of its ids is in that prefix.
   */
  lemma SnapshotMeansPrefixArrived(before: seq<Event>, ids: seq<Id>, after: seq<Event>)
    requires Run(START, before + [Expecting(ids)] + after)
    requires ids != [] && After(START, before).monitor.expected.None?
    requires SnapshotSucceeds(After(START, before + [Expecting(ids)] + after).monitor)
    ensures var all := before + [Expecting(ids)] + after;
      var s := After(START, all).monitor;
      var good := ids[..GoodPrefix(ids)];
      && s.seen == Elements(good) && s.invalid == 0 && s.unexpected == 0
      && (s.completed <==> good != [])
      && (forall id :: id in good ==> Arrived(all, id))
      && (Elements(ids) <= s.seen <==> forall id :: id in ids ==> id in good)
  {
    var all := before + [Expecting(ids)] + after;
    var s := After(START, all).monitor;
    var good := ids[..GoodPrefix(ids)];
    RunSplit(START, before + [Expecting(ids)], after);
    RunSplit(START, before, [Expecting(ids)]);
    var p := After(START, before);
    assert After(p, [Expecting(ids)]) == Next(p, Expecting(ids));
    ExpectationStays(Next(p, Expecting(ids)), after);
    SeenArrived(all);
    RunInv(START, all);
    SubsetSize(s.seen, Wanted(s));
    hide GoodPrefix, After, Run, Arrived, Next, Inv;
    assert s.seen == Elements(good);
    assert forall id :: id in good <==> id in s.seen;
    assert good != [] ==> good[0] in s.seen;
  }

  /**
   * After a successful expectation of `ids`, a successful snapshot means that every one of them arrived
   * with a valid signature, however many duplicates came too, and that nothing else did.
   */
  lemma SnapshotMeansAllArrived(before: seq<Event>, ids: seq<Id>, after: seq<Event>)
    requires Run(START, before + [Expecting(ids)] + after)
    requires ExpectSucceeds(After(START, before).monitor, ids)
    requires SnapshotSucceeds(After(START, before + [Expecting(ids)] + after).monitor)
    ensures var s := After(START, before + [Expecting(ids)] + after).monitor;
      && s.seen == Elements(ids) && s.completed && s.invalid == 0 && s.unexpected == 0
      && forall id :: id in ids ==> Arrived(before + [Expecting(ids)] + after, id)
  {
    hide GoodPrefix, After, Run, Arrived, SnapshotSucceeds;
    SnapshotMeansPrefixArrived(before, ids, after);
    assert ids[..|ids|] == ids;
  }

  /** An expectation succeeds exactly once, for a non-empty list of distinct non-empty ids. */
  lemma {:induction false} GoodIffDistinct(ids: seq<Id>)
    ensures GoodPrefix(ids) == |ids| <==>
      (forall i :: 0 <= i < |ids| ==> ids[i] != "") && forall i, j :: 0 <= i < j < |ids| ==> ids[i] != ids[j]
  {
    if ids != [] {
      var front := ids[..|ids| - 1];
      GoodIffDistinct(front);
      if GoodPrefix(ids) == |ids| {
        assert forall i :: 0 <= i < |front| ==> ids[i] == front[i] && front[i] in front;
      }
    }
  }

  // ----- where a snapshot alone would succeed without that; the benchmark stops at a refused expectation

  /** A refused expectation leaves a prefix behind, and delivering the prefix then passes for complete. */
  lemma RefusedExpectationCanComplete()
    ensures var refused := AfterExpect(INITIAL, ["a", "b", "a"]);
      && !ExpectSucceeds(INITIAL, ["a", "b", "a"]) && Wanted(refused) == {"a", "b"}
      && Booked(Booked(refused, true, "a"), true, "b").completed
      && SnapshotSucceeds(Booked(Booked(refused, true, "a"), true, "b").(accepting := false))
  {
    var ids := ["a", "b", "a"];
    assert ids[..2] == ["a", "b"] && ids[..1] == ["a"] && ids[..2][..1] == ["a"] && ["a"][..0] == [];
    assert GoodPrefix([]) == 0 && GoodPrefix(["a"]) == 1 && GoodPrefix(["a", "b"]) == 2;
    assert Elements(ids[..2]) == {"a", "b"};
    assert |{"a", "b"}| == 2;
    assert {} + {"a"} + {"b"} == {"a", "b"};
  }

  /** Without any expectation a quiet receiver passes: nothing is missing. */
  lemma SnapshotWithoutExpectation()
    ensures SnapshotSucceeds(After(START, [StopAccepting, QuiesceReturns]).monitor)
  {
    assert [StopAccepting, QuiesceReturns][1..] == [QuiesceReturns] && [QuiesceReturns][1..] == [];
  }
}
