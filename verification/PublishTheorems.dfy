/** What callers of publish may rely on, in every state any interleaving can reach. */
module PublishTheorems {
  import opened Common
  import opened PublishModel
  import opened PublishSafety

  /** The state some run from a consistent start has reached. */
  ghost predicate Reached(s0: State, actions: seq<Action>, s: State) {
    Init(s0) && Runs(s0, actions) && s == After(s0, actions)
  }

  lemma ReachedInv(s0: State, actions: seq<Action>, s: State)
    requires Reached(s0, actions, s)
    ensures Inv(s)
  {
    InitInv(s0);
    RunInv(s0, actions);
  }

  /** Every committed event has exactly one delivery per endpoint its fan-out selected, at most 100. */
  lemma FanoutIsAtomic(s0: State, actions: seq<Action>, s: State, k: Key)
    requires Reached(s0, actions, s) && k in s.db.events
    ensures FanoutExact(s.db, s.selected, k)
    ensures forall k' :: k' in s.db.events && s.db.events[k'].id == s.db.events[k].id ==> k' == k
    ensures forall d :: d in s.db.deliveries ==> exists k' :: OwnedBy(s.db, s.db.deliveries[d], k')
  {
    hide FanoutExact;
    ReachedInv(s0, actions, s);
  }

  /** Callers with the same key that were answered got the same event, content and deliveries. */
  lemma SameKeySameAnswer(s0: State, actions: seq<Action>, s: State, i: nat, j: nat)
    requires Reached(s0, actions, s) && i < |s.clients| && j < |s.clients|
    requires s.clients[i].record.key == s.clients[j].record.key
    requires s.clients[i].pc.Done? && s.clients[i].pc.outcome.Ok?
    requires s.clients[j].pc.Done? && s.clients[j].pc.outcome.Ok?
    ensures var a, b := s.clients[i], s.clients[j];
      && a.pc.outcome.value.eventId == b.pc.outcome.value.eventId
      && (forall d :: d in a.pc.outcome.value.deliveryIds <==> d in b.pc.outcome.value.deliveryIds)
      && |a.pc.outcome.value.deliveryIds| == |b.pc.outcome.value.deliveryIds|
      && a.record.fingerprint == b.record.fingerprint && a.record.version == b.record.version
      && (i != j ==> a.pc.outcome.value.duplicate || b.pc.outcome.value.duplicate)
  {
    ReachedInv(s0, actions, s);
    hide DbOk, Fanned;
    var a, b := s.clients[i], s.clients[j];
    assert ClientOk(s.db, s.selected, a) && ClientOk(s.db, s.selected, b);
    assert i != j ==> Apart(a, b);
    SameElementsSameLength(a.pc.outcome.value.deliveryIds, b.pc.outcome.value.deliveryIds);
  }

  lemma SameElementsSameLength(a: seq<Id>, b: seq<Id>)
    requires Distinct(a) && Distinct(b) && forall d :: d in a <==> d in b
    ensures |a| == |b|
  {
    DistinctSize(a);
    DistinctSize(b);
    assert IdSet(a) == IdSet(b);
  }

  function IdSet(a: seq<Id>): set<Id> {
    set d | d in a
  }

  lemma {:induction false} DistinctSize(a: seq<Id>)
    requires Distinct(a)
    ensures |IdSet(a)| == |a|
  {
    if a != [] {
      DistinctSize(a[1..]);
      assert a[0] !in IdSet(a[1..]);
      assert IdSet(a) == {a[0]} + IdSet(a[1..]);
    }
  }

  /**
   * A conflict is reported exactly to those whose version or fingerprint differs from the committed event of
   * their key; everyone else who finds that event gets it, and a lookup always finds it.
   */
  lemma ConflictIffContentDiffers(s0: State, actions: seq<Action>, s: State, i: nat)
    requires Reached(s0, actions, s) && i < |s.clients|
    ensures var c := s.clients[i];
      && (c.pc.Done? && c.pc.outcome == Err(Conflict) ==>
            && c.record.key in s.db.events
            && (s.db.events[c.record.key].version != c.record.version
                || s.db.events[c.record.key].fingerprint != c.record.fingerprint))
      && !(c.pc == Done(Err(NoRows)))
      && (c.pc == Conflicted ==> c.record.key in s.db.events)
    ensures var c := s.clients[i];
      c.pc == Conflicted ==>
        var row := s.db.events[c.record.key];
        && (row.version == c.record.version && row.fingerprint == c.record.fingerprint ==>
              Next(s, Lookup(i)).clients[i].pc == Matched(row.id))
        && (row.version != c.record.version || row.fingerprint != c.record.fingerprint ==>
              Next(s, Lookup(i)).clients[i].pc == Done(Err(Conflict)))
  {
    if s.clients[i].pc.Done? {
      DoneIsOk(s0, actions, s, i);
    } else if s.clients[i].pc == Conflicted {
      ConflictedFinds(s0, actions, s, i);
    }
    hide Reached, Runs, After, Answers, Unused, Next;
  }

  lemma ConflictedFinds(s0: State, actions: seq<Action>, s: State, i: nat)
    requires Reached(s0, actions, s) && i < |s.clients| && s.clients[i].pc == Conflicted
    ensures var r := s.clients[i].record;
      && r.key in s.db.events
      && Next(s, Lookup(i)).clients[i].pc ==
        if SameContent(s.db.events[r.key], r) then Matched(s.db.events[r.key].id) else Done(Err(Conflict))
  {
    ReachedInv(s0, actions, s);
    assert ClientOk(s.db, s.selected, s.clients[i]);
    hide Inv, ClientOk, SameContent;
  }

  /**
   * A caller that was answered has its key committed with its own version and fingerprint, is told that
   * event's id and, each once, the ids of all its deliveries; it is called a duplicate exactly when the
   * event is not the caller's own.
   */
  lemma AnswerIsCommitted(s0: State, actions: seq<Action>, s: State, i: nat)
    requires Reached(s0, actions, s) && i < |s.clients|
    requires s.clients[i].pc.Done? && s.clients[i].pc.outcome.Ok?
    ensures var r, result := s.clients[i].record, s.clients[i].pc.outcome.value;
      && r.key in s.db.events
      && s.db.events[r.key] == EventRow(result.eventId, r.fingerprint, r.version)
      && (result.duplicate <==> result.eventId != r.id)
      && (forall a, b :: 0 <= a < b < |result.deliveryIds| ==> result.deliveryIds[a] != result.deliveryIds[b])
      && (forall d :: d in result.deliveryIds <==>
            && d in s.db.deliveries
            && s.db.deliveries[d].workspace == r.key.workspace
            && s.db.deliveries[d].eventId == result.eventId)
  {
    DoneIsOk(s0, actions, s, i);
    hide Reached, Runs, After;
  }

  /**
   * A call that failed has left neither an event nor a delivery of its id; only a commit whose effect is
   * unknown may have left the event, and then with its content.
   */
  lemma FailureLeavesNothing(s0: State, actions: seq<Action>, s: State, i: nat)
    requires Reached(s0, actions, s) && i < |s.clients|
    requires s.clients[i].pc.Done? && s.clients[i].pc.outcome.Err?
    ensures var r := s.clients[i].record;
      || (&& (forall k :: k in s.db.events ==> s.db.events[k].id != r.id)
          && (forall d :: d in s.db.deliveries ==> s.db.deliveries[d].eventId != r.id))
      || (&& s.clients[i].pc.outcome.error == CommitUnknown && r.key in s.db.events
          && s.db.events[r.key] == EventRow(r.id, r.fingerprint, r.version))
  {
    DoneIsOk(s0, actions, s, i);
    hide Reached, Runs, After, Answers, SameContent;
  }

  lemma DoneIsOk(s0: State, actions: seq<Action>, s: State, i: nat)
    requires Reached(s0, actions, s) && i < |s.clients| && s.clients[i].pc.Done?
    ensures DoneOk(s.db, s.clients[i].record, s.clients[i].pc.outcome)
  {
    ReachedInv(s0, actions, s);
    hide DbOk, Fanned, Apart, DoneOk;
    assert ClientOk(s.db, s.selected, s.clients[i]);
  }

  /**
   * The fan-out query decides: more than 100 endpoints subscribed in the workspace end the call, and any
   * other number are its targets, in order.
   */
  lemma SelectionDecides(s: State, i: nat, found: set<Id>)
    requires i < |s.clients| && s.clients[i].pc == Inserted
    requires var r := s.clients[i].record;
      forall e :: e in found <==> Subscription(r.key.workspace, r.eventType, e) in s.db.subscriptions
    ensures var c := Next(s, SelectEndpoints(i)).clients[i];
      if |found| > 100 then c.pc == Done(Err(Invalid)) && c.event == None
      else
        && c.pc == Fanning && |c.targets| == |found|
        && (forall e :: e in found <==> e in c.targets)
        && (forall a, b :: 0 <= a < b < |c.targets| ==> c.targets[a] < c.targets[b])
  {
    var r := s.clients[i].record;
    assert Subscribers(s.db, r.key.workspace, r.eventType) == found;
  }

  /** A committed event and its deliveries are never changed or added to. */
  lemma CommittedIsFinal(s: State, a: Action, k: Key)
    requires Inv(s) && Enabled(s, a) && k in s.db.events
    ensures var n := Next(s, a);
      && k in n.db.events && n.db.events[k] == s.db.events[k]
      && DeliveriesOf(n.db, k.workspace, s.db.events[k].id) == DeliveriesOf(s.db, k.workspace, s.db.events[k].id)
      && (forall d :: d in DeliveriesOf(s.db, k.workspace, s.db.events[k].id) ==>
            n.db.deliveries[d] == s.db.deliveries[d])
  {
    hide DbOk, Fanned, Apart, Answers;
    if Commits(a) {
      var c := s.clients[a.i];
      assert ClientOk(s.db, s.selected, c);
      if c.event.Some? {
        AppliedDeliveries(s.db, s.selected, c, k.workspace, s.db.events[k].id);
      } else {
        NothingToApply(s, a.i);
      }
    }
  }

  lemma {:induction false} CommittedIsFinalInRuns(s: State, actions: seq<Action>, k: Key)
    requires Inv(s) && Runs(s, actions) && k in s.db.events
    ensures var n := After(s, actions);
      && k in n.db.events && n.db.events[k] == s.db.events[k]
      && DeliveriesOf(n.db, k.workspace, s.db.events[k].id) == DeliveriesOf(s.db, k.workspace, s.db.events[k].id)
    decreases |actions|
  {
    hide Inv, Enabled, Next;
    if actions != [] {
      CommittedIsFinal(s, actions[0], k);
      NextInv(s, actions[0]);
      CommittedIsFinalInRuns(Next(s, actions[0]), actions[1..], k);
    }
  }

  // ----- progress

  /** A step of a caller that is not a failure. */
  ghost predicate Forward(a: Action) {
    !a.Rollback? && !a.CommitError? && !a.Resubscribe?
  }

  function RowIds(clients: seq<Client>): set<Id> {
    if clients == [] then {} else clients[0].rows.Keys + RowIds(clients[1..])
  }

  lemma {:induction false} RowIdsCover(clients: seq<Client>, j: nat)
    requires j < |clients|
    ensures clients[j].rows.Keys <= RowIds(clients)
  {
    if j > 0 { RowIdsCover(clients[1..], j - 1); }
  }

  lemma {:induction false} AboveAll(s: set<Id>) returns (m: Id)
    ensures forall x :: x in s ==> x < m
    decreases |s|
  {
    if s == {} {
      m := 0;
    } else {
      var a :| a in s;
      var n := AboveAll(s - {a});
      m := if n <= a then a + 1 else n;
      assert forall x :: x in s ==> x == a || x in s - {a};
    }
  }

  lemma FreshDelivery(s: State) returns (id: Id)
    ensures !Used(s, id)
  {
    id := AboveAll(s.db.deliveries.Keys + RowIds(s.clients));
    forall j | 0 <= j < |s.clients|
      ensures id !in s.clients[j].rows
    {
      RowIdsCover(s.clients, j);
    }
  }

  /** A caller past its insert can always go on. */
  lemma PastInsertGoesOn(s: State, i: nat) returns (a: Action)
    requires Inv(s) && i < |s.clients| && s.clients[i].pc != Start && !s.clients[i].pc.Done?
    ensures Forward(a) && a.i == i && Enabled(s, a)
  {
    var c := s.clients[i];
    match c.pc
    case Inserted => a := SelectEndpoints(i);
    case Fanning =>
      if |c.ids| < |c.targets| {
        var id := FreshDelivery(s);
        a := InsertDelivery(i, id);
      } else {
        a := ReturnCreated(i);
      }
    case Conflicted => a := Lookup(i);
    case Matched(_) => a := Gather(i);
    case Ready(_) => a := Commit(i);
  }

  /** No deadlock: while a caller waits on the key of another, that other one can go on. */
  lemma NeverStuck(s0: State, actions: seq<Action>, s: State, i: nat) returns (a: Action)
    requires Reached(s0, actions, s) && i < |s.clients| && !s.clients[i].pc.Done?
    ensures Forward(a) && Enabled(s, a)
    ensures a.i == i || (s.clients[a.i].event.Some? && s.clients[a.i].record.key == s.clients[i].record.key)
  {
    ReachedInv(s0, actions, s);
    hide DbOk, Fanned, Apart, Answers;
    if s.clients[i].pc != Start {
      a := PastInsertGoesOn(s, i);
    } else if s.clients[i].record.key in s.db.events || !HeldByOther(s, i) {
      a := InsertEvent(i);
    } else {
      var j :| 0 <= j < |s.clients| && j != i
        && s.clients[j].event.Some? && s.clients[j].record.key == s.clients[i].record.key;
      assert ClientOk(s.db, s.selected, s.clients[j]);
      a := PastInsertGoesOn(s, j);
    }
  }
}
