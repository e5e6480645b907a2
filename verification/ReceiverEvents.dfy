/** The receiver's books told by the events of its run alone. */
module ReceiverEvents {
  import opened Common
  import opened Arith
  import opened Receiver

  // ----- what the events say

  /** The longest prefix is told by where it stops: at the first empty or repeated id. */
  lemma {:induction false} PrefixIsLongest(ids: seq<Id>)
    ensures var n := GoodPrefix(ids);
      && (forall i :: 0 <= i < n ==> ids[i] != "")
      && (forall i, j :: 0 <= i < j < n ==> ids[i] != ids[j])
      && (n < |ids| ==> ids[n] == "" || exists i :: 0 <= i < n && ids[i] == ids[n])
  {
    if ids != [] {
      var front := ids[..|ids| - 1];
      PrefixIsLongest(front);
      var m := GoodPrefix(front);
      assert forall i :: 0 <= i < |front| ==> front[i] == ids[i];
      if m == |front| && (ids[m] == "" || ids[m] in ids[..m]) {
        if ids[m] != "" {
          var i :| 0 <= i < m && ids[..m][i] == ids[m];
          assert ids[i] == ids[m];
        }
      } else if m == |front| {
        assert forall i :: 0 <= i < m ==> ids[i] in ids[..m];
      }
    }
  }

  /** The ids expected after these events: the good prefix of the first non-empty expectation. */
  ghost function Expected(events: seq<Event>): Option<set<Id>>
    decreases |events|
  {
    if events == [] then None
    else
      var last := events[|events| - 1];
      var earlier := Expected(events[..|events| - 1]);
      if earlier.None? && last.Expecting? && last.ids != []
      then Some(set i | 0 <= i < GoodPrefix(last.ids) :: last.ids[i])
      else earlier
  }

  ghost predicate IsExpected(events: seq<Event>, id: Id) {
    Expected(events).Some? && id in Expected(events).value
  }

  /** The i-th event books a delivery whose signature did not verify. */
  ghost predicate Unverified(events: seq<Event>, i: nat) {
    i < |events| && events[i].Book? && !events[i].verified
  }

  /** The i-th event books a verified delivery of an id that was not expected at that moment. */
  ghost predicate Stray(events: seq<Event>, i: nat) {
    i < |events| && events[i].Book? && events[i].verified && !IsExpected(events[..i], events[i].id)
  }

  /** The i-th event books a verified delivery of an id that was expected at that moment. */
  ghost predicate Proper(events: seq<Event>, i: nat) {
    i < |events| && events[i].Book? && events[i].verified && IsExpected(events[..i], events[i].id)
  }

  /** One of those before, of the same id. */
  ghost predicate Repeated(events: seq<Event>, i: nat) {
    Proper(events, i) && exists j: nat :: j < i && Proper(events, j) && events[j].id == events[i].id
  }

  ghost predicate Admitted(events: seq<Event>, i: nat) {
    i < |events| && events[i].Begin? && StopAccepting !in events[..i]
  }

  ghost predicate Leaves(events: seq<Event>, i: nat) {
    i < |events| && events[i].End?
  }

  ghost function Unverifieds(events: seq<Event>): set<nat> {
    set i: nat | i < |events| && Unverified(events, i)
  }

  ghost function Strays(events: seq<Event>): set<nat> {
    set i: nat | i < |events| && Stray(events, i)
  }

  ghost function Repeats(events: seq<Event>): set<nat> {
    set i: nat | i < |events| && Repeated(events, i)
  }

  ghost function Admissions(events: seq<Event>): set<nat> {
    set i: nat | i < |events| && Admitted(events, i)
  }

  ghost function Exits(events: seq<Event>): set<nat> {
    set i: nat | i < |events| && Leaves(events, i)
  }

  // ----- one event more

  lemma Earlier(front: seq<Event>, e: Event, i: nat)
    requires i < |front|
    ensures (front + [e])[i] == front[i] && (front + [e])[..i] == front[..i]
    ensures Unverified(front + [e], i) == Unverified(front, i) && Stray(front + [e], i) == Stray(front, i)
    ensures Proper(front + [e], i) == Proper(front, i) && Admitted(front + [e], i) == Admitted(front, i)
    ensures Leaves(front + [e], i) == Leaves(front, i)
  {
    assert (front + [e])[..i] == front[..i];
  }

  lemma EarlierRepeated(front: seq<Event>, e: Event, i: nat)
    requires i < |front|
    ensures Repeated(front + [e], i) == Repeated(front, i)
  {
    hide Proper;
    forall j: nat | j <= i
      ensures Proper(front + [e], j) == Proper(front, j) && (front + [e])[j] == front[j]
    {
      Earlier(front, e, j);
    }
  }

  lemma OneIndexMore(a: set<nat>, b: set<nat>, n: nat)
    requires forall i :: i in a ==> i < n
    requires forall i :: i in b ==> i <= n
    requires forall i :: 0 <= i < n ==> (i in b <==> i in a)
    ensures |b| == |a| + if n in b then 1 else 0
  {
    assert b == if n in b then a + {n} else a;
  }

  lemma CountsStep(front: seq<Event>, e: Event)
    ensures var events := front + [e];
      var n := |front|;
      && |Unverifieds(events)| == |Unverifieds(front)| + (if Unverified(events, n) then 1 else 0)
      && |Strays(events)| == |Strays(front)| + (if Stray(events, n) then 1 else 0)
      && |Repeats(events)| == |Repeats(front)| + (if Repeated(events, n) then 1 else 0)
      && |Admissions(events)| == |Admissions(front)| + (if Admitted(events, n) then 1 else 0)
      && |Exits(events)| == |Exits(front)| + (if Leaves(events, n) then 1 else 0)
  {
    var events := front + [e];
    var n := |front|;
    forall i | 0 <= i < n
      ensures i in Unverifieds(events) <==> i in Unverifieds(front)
      ensures i in Strays(events) <==> i in Strays(front)
      ensures i in Repeats(events) <==> i in Repeats(front)
      ensures i in Admissions(events) <==> i in Admissions(front)
      ensures i in Exits(events) <==> i in Exits(front)
    {
      Earlier(front, e, i);
      EarlierRepeated(front, e, i);
    }
    OneIndexMore(Unverifieds(front), Unverifieds(events), n);
    OneIndexMore(Strays(front), Strays(events), n);
    OneIndexMore(Repeats(front), Repeats(events), n);
    OneIndexMore(Admissions(front), Admissions(events), n);
    OneIndexMore(Exits(front), Exits(events), n);
  }

  /** Some verified delivery of the id was booked while it was expected. */
  ghost predicate ProperlyBooked(events: seq<Event>, id: Id) {
    exists i: nat :: Proper(events, i) && events[i].id == id
  }

  lemma ProperStep(front: seq<Event>, e: Event, id: Id)
    ensures ProperlyBooked(front + [e], id) <==>
      ProperlyBooked(front, id) || (e.Book? && e.verified && e.id == id && IsExpected(front, id))
  {
    var events := front + [e];
    assert events[..|front|] == front && events[|front|] == e;
    hide IsExpected;
    if ProperlyBooked(front, id) {
      var i: nat :| Proper(front, i) && front[i].id == id;
      Earlier(front, e, i);
      assert Proper(events, i) && events[i].id == id;
    }
    if e.Book? && e.verified && e.id == id && IsExpected(front, id) {
      assert Proper(events, |front|) && events[|front|].id == id;
    }
    if ProperlyBooked(events, id) {
      var i: nat :| Proper(events, i) && events[i].id == id;
      if i < |front| {
        Earlier(front, e, i);
        assert Proper(front, i) && front[i].id == id;
      }
    }
  }

  lemma LastRepeated(front: seq<Event>, e: Event)
    ensures Repeated(front + [e], |front|) <==>
      e.Book? && e.verified && IsExpected(front, e.id) && ProperlyBooked(front, e.id)
  {
    var events := front + [e];
    var n := |front|;
    assert events[..n] == front && events[n] == e;
    assert Proper(events, n) <==> e.Book? && e.verified && IsExpected(front, e.id);
    hide Proper, IsExpected;
    forall j: nat | j < n
      ensures Proper(events, j) == Proper(front, j) && events[j] == front[j]
    {
      Earlier(front, e, j);
    }
    if Proper(events, n) && ProperlyBooked(front, e.id) {
      var j: nat :| Proper(front, j) && front[j].id == e.id;
      assert j < n by { InRange(front, j); }
      assert Proper(events, j) && events[j].id == events[n].id;
    }
  }

  lemma InRange(events: seq<Event>, i: nat)
    requires Proper(events, i)
    ensures i < |events|
  {
  }

  // ----- the books

  /** Every field of the monitor, told by the events. */
  ghost predicate Told(events: seq<Event>, s: State) {
    && s.expected == Expected(events)
    && (forall id :: id in s.seen <==> ProperlyBooked(events, id))
    && s.invalid == |Unverifieds(events)|
    && s.unexpected == |Strays(events)|
    && s.duplicates == |Repeats(events)|
    && s.accepting == (StopAccepting !in events)
    && s.active == |Admissions(events)| - |Exits(events)|
  }

  lemma ExpectedStep(front: seq<Event>, e: Event, s: State)
    requires s.expected == Expected(front)
    ensures e.Expecting? ==> AfterExpect(s, e.ids).expected == Expected(front + [e])
    ensures !e.Expecting? ==> Expected(front + [e]) == Expected(front)
  {
    assert (front + [e])[..|front|] == front;
    if e.Expecting? {
      var n := GoodPrefix(e.ids);
      hide GoodPrefix;
      assert Elements(e.ids[..n]) == set i | 0 <= i < n :: e.ids[i] by {
        forall id | id in Elements(e.ids[..n])
          ensures id in set i | 0 <= i < n :: e.ids[i]
        {
          var i :| 0 <= i < n && e.ids[..n][i] == id;
          assert e.ids[i] == id;
        }
        assert forall i :: 0 <= i < n ==> e.ids[i] == e.ids[..n][i];
      }
    }
  }

  lemma LastOnes(front: seq<Event>, e: Event)
    ensures var events := front + [e];
      var n := |front|;
      && (Unverified(events, n) <==> e.Book? && !e.verified)
      && (Stray(events, n) <==> e.Book? && e.verified && !IsExpected(front, e.id))
      && (Admitted(events, n) <==> e.Begin? && StopAccepting !in front)
      && (Leaves(events, n) <==> e.End?)
      && (StopAccepting in events <==> StopAccepting in front || e == StopAccepting)
  {
    assert (front + [e])[..|front|] == front;
  }

  /** One booking is counted in exactly one place. */
  lemma BookedFields(s: State, verified: bool, id: Id)
    ensures var n := Booked(s, verified, id);
      var known := s.expected.Some? && id in s.expected.value;
      && n.expected == s.expected && n.accepting == s.accepting && n.active == s.active
      && n.invalid == s.invalid + (if !verified then 1 else 0)
      && n.unexpected == s.unexpected + (if verified && !known then 1 else 0)
      && n.duplicates == s.duplicates + (if verified && known && id in s.seen then 1 else 0)
      && n.seen == (if verified && known then s.seen + {id} else s.seen)
  {
    if id in s.seen { assert s.seen + {id} == s.seen; }
  }

  lemma BookTold(front: seq<Event>, s: State, e: Event)
    requires Told(front, s) && e.Book?
    ensures Told(front + [e], Booked(s, e.verified, e.id))
  {
    CountsStep(front, e);
    LastOnes(front, e);
    LastRepeated(front, e);
    ExpectedStep(front, e, s);
    BookedFields(s, e.verified, e.id);
    assert s.expected.Some? && e.id in s.expected.value <==> IsExpected(front, e.id);
    hide Booked, Expected, IsExpected, ProperlyBooked, Unverified, Stray, Repeated, Admitted, Leaves;
    hide Unverifieds, Strays, Repeats, Admissions, Exits;
    forall id
      ensures id in Booked(s, e.verified, e.id).seen <==> ProperlyBooked(front + [e], id)
    {
      ProperStep(front, e, id);
    }
  }

  /** What every other event leaves of the books. */
  lemma OtherFields(p: Protocol, e: Event)
    requires Inv(p) && !e.Book?
    ensures var s, n := p.monitor, Next(p, e).monitor;
      && n.expected == (if e.Expecting? then AfterExpect(s, e.ids).expected else s.expected)
      && n.seen == s.seen && n.invalid == s.invalid && n.unexpected == s.unexpected && n.duplicates == s.duplicates
      && n.accepting == (s.accepting && e != StopAccepting)
      && n.active == s.active + (if e.Begin? && s.accepting then 1 else 0) - (if e.End? then 1 else 0)
  {
    if e.Expecting? { SeenBefore(p, e); }
    hide Inv, GoodPrefix, Elements;
  }

  lemma OtherTold(front: seq<Event>, p: Protocol, e: Event)
    requires Told(front, p.monitor) && Inv(p) && !e.Book?
    ensures Told(front + [e], Next(p, e).monitor)
  {
    CountsStep(front, e);
    LastOnes(front, e);
    LastRepeated(front, e);
    ExpectedStep(front, e, p.monitor);
    OtherFields(p, e);
    hide Inv, Next, AfterExpect, Expected, IsExpected, ProperlyBooked, Unverified, Stray, Repeated, Admitted, Leaves;
    hide Unverifieds, Strays, Repeats, Admissions, Exits;
    forall id
      ensures id in Next(p, e).monitor.seen <==> ProperlyBooked(front + [e], id)
    {
      ProperStep(front, e, id);
    }
  }

  lemma ToldStep(front: seq<Event>, p: Protocol, e: Event)
    requires Told(front, p.monitor) && Inv(p)
    ensures Told(front + [e], Next(p, e).monitor)
  {
    hide Told, Inv;
    if e.Book? {
      BookTold(front, p.monitor, e);
    } else {
      OtherTold(front, p, e);
    }
  }

  lemma SeenBefore(p: Protocol, e: Event)
    requires Inv(p) && e.Expecting?
    ensures AfterExpect(p.monitor, e.ids).seen == p.monitor.seen
  {
    hide GoodPrefix, Elements;
    if p.monitor.expected.None? { assert p.monitor.seen == {}; }
  }

  lemma NothingTold()
    ensures Told([], INITIAL)
  {
    assert Unverifieds([]) == {} && Strays([]) == {} && Repeats([]) == {} && Admissions([]) == {} && Exits([]) == {};
    forall id
      ensures !ProperlyBooked([], id)
    {
    }
  }

  /**
   * After any run: the ids seen are those booked with a valid signature while expected; `invalid` is the
   * number of bookings whose signature did not verify, `unexpected` that of verified ones of an id not
   * expected at that moment, `duplicates` that of the others that repeat an earlier one; and the handlers
   * inside are those let in before the receiver stopped accepting and not ended yet.
   */
  lemma {:induction false} BooksTellEvents(events: seq<Event>)
    requires Run(START, events)
    ensures Told(events, After(START, events).monitor)
    decreases |events|
  {
    if events == [] {
      NothingTold();
    } else {
      var front, last := events[..|events| - 1], events[|events| - 1];
      assert events == front + [last];
      RunSplit(START, front, [last]);
      BooksTellEvents(front);
      RunInv(START, front);
      var p := After(START, front);
      assert [last][1..] == [];
      assert After(p, [last]) == Next(p, last);
      hide Told, Run, After, Next, Inv;
      ToldStep(front, p, last);
    }
  }

  /** The report says just that, with as many missing as the expectation has left. */
  lemma ReportTellsEvents(events: seq<Event>, arrived: set<Id>)
    requires Run(START, events) && forall id :: id in arrived <==> ProperlyBooked(events, id)
    ensures var wanted := if Expected(events).Some? then Expected(events).value else {};
      Summary(After(START, events).monitor)
      == Report(|arrived|, |Repeats(events)|, |wanted| - |arrived|, |Strays(events)|, |Unverifieds(events)|)
  {
    BooksTellEvents(events);
    hide After, Run, Expected, ProperlyBooked, Unverifieds, Strays, Repeats, Admissions, Exits;
    assert After(START, events).monitor.seen == arrived;
  }

  // ----- when a snapshot succeeds

  lemma EmptySize(a: set<nat>)
    ensures |a| == 0 <==> forall i :: i !in a
  {
    if |a| != 0 {
      var i :| i in a;
    }
  }

  lemma NoneCounted(events: seq<Event>)
    ensures |Unverifieds(events)| == 0 <==> forall i :: 0 <= i < |events| ==> !Unverified(events, i)
    ensures |Strays(events)| == 0 <==> forall i :: 0 <= i < |events| ==> !Stray(events, i)
  {
    EmptySize(Unverifieds(events));
    EmptySize(Strays(events));
    hide Unverified, Stray;
    assert forall i :: 0 <= i < |events| ==> (Unverified(events, i) <==> i in Unverifieds(events));
    assert forall i :: 0 <= i < |events| ==> (Stray(events, i) <==> i in Strays(events));
  }

  /**
   * A snapshot succeeds exactly when the receiver has stopped accepting, as many handlers have ended as were
   * let in, every booking of the whole run was of a valid signature and an id expected at that moment, and
   * every id expected by now has been booked so.
   */
  lemma SnapshotExact(events: seq<Event>)
    requires Run(START, events)
    ensures SnapshotSucceeds(After(START, events).monitor) <==>
      && StopAccepting in events
      && |Admissions(events)| == |Exits(events)|
      && (forall i :: 0 <= i < |events| && events[i].Book? ==>
            events[i].verified && IsExpected(events[..i], events[i].id))
      && (forall id :: IsExpected(events, id) ==> ProperlyBooked(events, id))
  {
    BooksTellEvents(events);
    RunInv(START, events);
    NoneCounted(events);
    var s := After(START, events).monitor;
    assert Books(s);
    SubsetSize(s.seen, Wanted(s));
    hide After, Run, Inv, Expected, ProperlyBooked, Unverifieds, Strays, Repeats, Admissions, Exits;
    assert forall i :: 0 <= i < |events| && events[i].Book? ==>
      ((events[i].verified && IsExpected(events[..i], events[i].id)) <==> !Unverified(events, i) && !Stray(events, i));
    assert s.seen == Wanted(s) <==> |Wanted(s)| - |s.seen| == 0;
    assert forall id :: id in Wanted(s) <==> IsExpected(events, id);
  }

  lemma {:induction false} ExpectedStays(events: seq<Event>, k: nat)
    requires k <= |events| && Expected(events[..k]).Some?
    ensures Expected(events) == Expected(events[..k])
    decreases |events|
  {
    if k < |events| {
      var front := events[..|events| - 1];
      assert front[..k] == events[..k];
      ExpectedStays(front, k);
    } else {
      assert events[..k] == events;
    }
  }

  /**
   * After a successful expectation of `ids`, a successful snapshot means that every booking of the whole
   * run, before the expectation and after it, was of a valid signature and of one of the ids, and that each
   * of them was booked.
   */
  lemma SuccessMeansOnlyThese(events: seq<Event>, k: nat, ids: seq<Id>)
    requires Run(START, events) && k < |events| && events[k] == Expecting(ids)
    requires Expected(events[..k]).None? && ids != []
    requires forall i, j :: 0 <= i < j < |ids| ==> ids[i] != ids[j]
    requires forall i :: 0 <= i < |ids| ==> ids[i] != ""
    requires SnapshotSucceeds(After(START, events).monitor)
    ensures forall i :: 0 <= i < |events| && events[i].Book? ==> i > k && events[i].verified && events[i].id in ids
    ensures forall id :: id in ids ==>
      exists i :: k < i < |events| && events[i].Book? && events[i].verified && events[i].id == id
  {
    SnapshotExact(events);
    hide After, Run, ProperlyBooked;
    TakenWhole(events, k, ids);
    forall i | 0 <= i < |events| && events[i].Book?
      ensures i > k && events[i].verified && events[i].id in ids
    {
      BookedAfter(events, k, ids, i);
    }
    forall id | id in ids
      ensures exists i :: k < i < |events| && events[i].Book? && events[i].verified && events[i].id == id
    {
      assert IsExpected(events, id);
      BookedOnce(events, id);
    }
  }

  lemma TakenWhole(events: seq<Event>, k: nat, ids: seq<Id>)
    requires k < |events| && events[k] == Expecting(ids) && Expected(events[..k]).None? && ids != []
    requires forall i, j :: 0 <= i < j < |ids| ==> ids[i] != ids[j]
    requires forall i :: 0 <= i < |ids| ==> ids[i] != ""
    ensures Expected(events[..k + 1]) == Some(set i | 0 <= i < |ids| :: ids[i])
    ensures Expected(events) == Some(set i | 0 <= i < |ids| :: ids[i])
  {
    GoodIffDistinct(ids);
    assert events[..k + 1][..k] == events[..k];
    ExpectedStays(events, k + 1);
  }

  lemma BookedAfter(events: seq<Event>, k: nat, ids: seq<Id>, i: nat)
    requires k < |events| && events[k] == Expecting(ids) && Expected(events[..k]).None?
    requires Expected(events) == Some(set j | 0 <= j < |ids| :: ids[j])
    requires i < |events| && events[i].Book? && IsExpected(events[..i], events[i].id)
    ensures i > k && events[i].id in ids
  {
    ExpectedStays(events, i);
    if i <= k {
      assert events[..k][..i] == events[..i];
      ExpectedStays(events[..k], i);
    }
  }

  lemma BookedOnce(events: seq<Event>, id: Id)
    requires ProperlyBooked(events, id)
    ensures exists i :: 0 <= i < |events| && events[i].Book? && events[i].verified && events[i].id == id
  {
    var i: nat :| Proper(events, i) && events[i].id == id;
  }
}
