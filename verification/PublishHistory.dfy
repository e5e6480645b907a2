/** Fan-out against the subscriptions as they were when the call's query ran. */
module PublishHistory {
  import opened Common
  import opened PublishModel
  import opened PublishSafety
  import opened PublishTheorems

  lemma {:induction false} RunsAppend(s: State, actions: seq<Action>, a: Action)
    requires Runs(s, actions) && Enabled(After(s, actions), a)
    ensures Runs(s, actions + [a]) && After(s, actions + [a]) == Next(After(s, actions), a)
    decreases |actions|
  {
    hide Enabled, Next;
    if actions == [] {
      assert [] + [a] == [a] && [a][1..] == [];
    } else {
      assert (actions + [a])[0] == actions[0] && (actions + [a])[1..] == actions[1..] + [a];
      RunsAppend(Next(s, actions[0]), actions[1..], a);
    }
  }

  /** Every prefix of a run is a run, and its last action is enabled after the rest. */
  lemma {:induction false} RunsFront(s: State, actions: seq<Action>)
    requires Runs(s, actions) && actions != []
    ensures var front, last := actions[..|actions| - 1], actions[|actions| - 1];
      && Runs(s, front) && Enabled(After(s, front), last) && After(s, actions) == Next(After(s, front), last)
    decreases |actions|
  {
    hide Enabled, Next;
    var front := actions[..|actions| - 1];
    if |actions| == 1 {
      assert front == [] && actions[1..] == [];
    } else {
      RunsFront(Next(s, actions[0]), actions[1..]);
      assert front[0] == actions[0] && front[1..] == actions[1..][..|actions| - 2];
    }
  }

  /** The n-th action of the run was this one, and it was taken on this database. */
  ghost predicate Took(s0: State, actions: seq<Action>, n: nat, a: Action, db: Db) {
    n < |actions| && actions[n] == a && Runs(s0, actions[..n]) && After(s0, actions[..n]).db == db
  }

  lemma TookEarlier(s0: State, actions: seq<Action>, more: seq<Action>, n: nat, a: Action, db: Db)
    requires Took(s0, actions, n, a, db) && actions <= more
    ensures Took(s0, more, n, a, db)
  {
    hide Runs, After;
    assert more[..n] == actions[..n] && more[n] == actions[n];
  }

  /** Client i, publishing `r`, ran its fan-out query in this run, and it returned exactly `found`. */
  ghost predicate Chosen(s0: State, actions: seq<Action>, i: nat, r: Record, found: set<Id>) {
    exists n, db :: Took(s0, actions, n, SelectEndpoints(i), db)
      && found == Subscribers(db, r.key.workspace, r.eventType)
  }

  lemma ChosenEarlier(s0: State, front: seq<Action>, a: Action, i: nat, r: Record, found: set<Id>)
    requires Chosen(s0, front, i, r, found)
    ensures Chosen(s0, front + [a], i, r, found)
  {
    hide Took, Subscribers;
    var n, db :| Took(s0, front, n, SelectEndpoints(i), db) && found == Subscribers(db, r.key.workspace, r.eventType);
    TookEarlier(s0, front, front + [a], n, SelectEndpoints(i), db);
  }

  lemma ChosenNow(s0: State, front: seq<Action>, i: nat, r: Record)
    requires Runs(s0, front)
    ensures Chosen(s0, front + [SelectEndpoints(i)], i, r,
                   Subscribers(After(s0, front).db, r.key.workspace, r.eventType))
  {
    hide Subscribers, After, Runs;
    var actions := front + [SelectEndpoints(i)];
    assert actions[..|front|] == front;
    assert Took(s0, actions, |front|, SelectEndpoints(i), After(s0, front).db);
  }

  /** A caller whose fan-out has been selected. */
  ghost predicate PastSelection(c: Client) {
    c.pc == Fanning || (c.pc.Ready? && !c.pc.result.duplicate)
  }

  ghost predicate ClientHistory(s0: State, actions: seq<Action>, s: State, i: nat)
    requires i < |s.clients|
  {
    var r := s.clients[i].record;
    PastSelection(s.clients[i]) ==> r.id in s.selected && Chosen(s0, actions, i, r, s.selected[r.id])
  }

  /** Client i published the event of key k in this run. */
  ghost predicate Published(s0: State, actions: seq<Action>, s: State, k: Key, i: nat)
    requires k in s.db.events
  {
    && i < |s.clients| && s.clients[i].record.key == k && s.clients[i].record.id == s.db.events[k].id
    && s.db.events[k].id in s.selected
    && Chosen(s0, actions, i, s.clients[i].record, s.selected[s.db.events[k].id])
  }

  ghost predicate EventHistory(s0: State, actions: seq<Action>, s: State, k: Key)
    requires k in s.db.events
  {
    k in s0.db.events || exists i :: Published(s0, actions, s, k, i)
  }

  ghost predicate History(s0: State, actions: seq<Action>, s: State) {
    && (forall i :: 0 <= i < |s.clients| ==> ClientHistory(s0, actions, s, i))
    && (forall k :: k in s.db.events ==> EventHistory(s0, actions, s, k))
  }

  // ----- one step keeps the history

  lemma StepKeepsRecords(s: State, a: Action)
    requires Enabled(s, a)
    ensures |Next(s, a).clients| == |s.clients|
    ensures forall i :: 0 <= i < |s.clients| ==> Next(s, a).clients[i].record == s.clients[i].record
    ensures forall i :: 0 <= i < |s.clients| && (a.Resubscribe? || i != a.i) ==> Next(s, a).clients[i] == s.clients[i]
  {
    if !a.Resubscribe? { assert Advance(s, a).record == s.clients[a.i].record; }
    hide Advance;
  }

  /** Only a selection changes the selected endpoints, and only those of its own event id. */
  lemma StepKeepsSelected(s: State, a: Action, id: Id)
    requires Enabled(s, a) && (a.SelectEndpoints? ==> s.clients[a.i].record.id != id)
    ensures id in Next(s, a).selected <==> id in s.selected
    ensures id in s.selected ==> Next(s, a).selected[id] == s.selected[id]
  {
    hide Advance, Apply, Subscribers;
  }

  lemma ClientStep(s0: State, front: seq<Action>, s: State, a: Action, i: nat)
    requires Runs(s0, front) && s == After(s0, front) && Enabled(s, a) && Inv(s) && i < |s.clients|
    requires ClientHistory(s0, front, s, i)
    ensures i < |Next(s, a).clients| && ClientHistory(s0, front + [a], Next(s, a), i)
  {
    StepKeepsRecords(s, a);
    var r := s.clients[i].record;
    if a.SelectEndpoints? && a.i == i {
      ChosenNow(s0, front, i, r);
      hide Chosen, Inv, Advance, Runs, After;
      assert Next(s, a).selected[r.id] == Subscribers(s.db, r.key.workspace, r.eventType);
    } else if PastSelection(Next(s, a).clients[i]) {
      PastBefore(s, a, i);
      if a.SelectEndpoints? { assert Apart(s.clients[i], s.clients[a.i]); }
      hide Chosen, Inv, Next, Runs, After;
      StepKeepsSelected(s, a, r.id);
      ChosenEarlier(s0, front, a, i, r, s.selected[r.id]);
    }
  }

  lemma PastBefore(s: State, a: Action, i: nat)
    requires Enabled(s, a) && Inv(s) && i < |s.clients| && i < |Next(s, a).clients|
    requires PastSelection(Next(s, a).clients[i]) && !(a.SelectEndpoints? && a.i == i)
    ensures PastSelection(s.clients[i])
  {
    hide Inv, Apply, Subscribers;
  }

  lemma PublishedStep(s0: State, front: seq<Action>, s: State, a: Action, k: Key, i: nat)
    requires Enabled(s, a) && Inv(s) && k in s.db.events && Published(s0, front, s, k, i)
    ensures k in Next(s, a).db.events && Published(s0, front + [a], Next(s, a), k, i)
  {
    CommittedIsFinal(s, a, k);
    StepKeepsRecords(s, a);
    var id := s.db.events[k].id;
    if a.SelectEndpoints? {
      assert ClientOk(s.db, s.selected, s.clients[a.i]);
      assert Unused(s.db, s.clients[a.i].record.id);
    }
    hide Inv, Next, Chosen, ClientOk, Enabled, DeliveriesOf;
    StepKeepsSelected(s, a, id);
    ChosenEarlier(s0, front, a, i, s.clients[i].record, s.selected[id]);
  }

  /** A key that a step adds is that of the committing caller, which had selected its endpoints. */
  lemma NewEvent(s0: State, front: seq<Action>, s: State, a: Action, k: Key) returns (i: nat)
    requires Enabled(s, a) && Inv(s) && k !in s.db.events && k in Next(s, a).db.events
    requires forall i :: 0 <= i < |s.clients| ==> ClientHistory(s0, front, s, i)
    ensures Published(s0, front + [a], Next(s, a), k, i)
  {
    assert Commits(a) && a.i < |s.clients|;
    i := a.i;
    var c := s.clients[a.i];
    assert ClientOk(s.db, s.selected, c);
    assert c.event == Some(RowOf(c.record)) && c.record.key == k;
    assert ClientHistory(s0, front, s, a.i);
    StepKeepsRecords(s, a);
    StepKeepsSelected(s, a, c.record.id);
    assert Next(s, a).db.events[k] == RowOf(c.record);
    hide Inv, Next, Chosen, ClientOk, Enabled, DeliveriesOf;
    ChosenEarlier(s0, front, a, a.i, c.record, s.selected[c.record.id]);
  }

  lemma EventStep(s0: State, front: seq<Action>, s: State, a: Action, k: Key)
    requires Enabled(s, a) && Inv(s) && k in Next(s, a).db.events
    requires History(s0, front, s)
    ensures EventHistory(s0, front + [a], Next(s, a), k)
  {
    hide Inv, Next, Enabled, ClientHistory, Published;
    if k !in s0.db.events {
      if k in s.db.events {
        assert EventHistory(s0, front, s, k);
        var i :| Published(s0, front, s, k, i);
        PublishedStep(s0, front, s, a, k, i);
      } else {
        var i := NewEvent(s0, front, s, a, k);
        assert Published(s0, front + [a], Next(s, a), k, i);
      }
    }
  }

  lemma {:induction false} RunHistory(s0: State, actions: seq<Action>)
    requires Init(s0) && Runs(s0, actions)
    ensures History(s0, actions, After(s0, actions))
    decreases |actions|
  {
    if actions == [] {
      assert forall i :: 0 <= i < |s0.clients| ==> s0.clients[i].pc == Start;
    } else {
      var front, a := actions[..|actions| - 1], actions[|actions| - 1];
      RunsFront(s0, actions);
      assert actions == front + [a];
      RunHistory(s0, front);
      var s := After(s0, front);
      ReachedInv(s0, front, s);
      hide Init, Inv, Next, Enabled, Runs, After, ClientHistory, EventHistory;
      StepKeepsRecords(s, a);
      forall i | 0 <= i < |s.clients|
        ensures ClientHistory(s0, actions, Next(s, a), i)
      {
        ClientStep(s0, front, s, a, i);
      }
      forall k | k in Next(s, a).db.events
        ensures EventHistory(s0, actions, Next(s, a), k)
      {
        EventStep(s0, front, s, a, k);
      }
    }
  }

  // ----- the promise

  function Endpoints(db: Db, k: Key): set<Id>
    requires k in db.events
  {
    set d <- DeliveriesOf(db, k.workspace, db.events[k].id) :: db.deliveries[d].endpointId
  }

  lemma EndpointsAreSelected(db: Db, selected: map<Id, set<Id>>, k: Key)
    requires FanoutExact(db, selected, k)
    ensures Endpoints(db, k) == selected[db.events[k].id]
    ensures |DeliveriesOf(db, k.workspace, db.events[k].id)| == |Endpoints(db, k)| <= MAX_FANOUT
  {
    var ds := DeliveriesOf(db, k.workspace, db.events[k].id);
    hide DeliveriesOf;
    forall e | e in selected[db.events[k].id]
      ensures e in Endpoints(db, k)
    {
      var d :| d in ds && db.deliveries[d].endpointId == e;
    }
    InjectiveImage(db, ds);
  }

  lemma {:induction false} InjectiveImage(db: Db, ds: set<Id>)
    requires ds <= db.deliveries.Keys
    requires forall d, d' :: d in ds && d' in ds && d != d' ==>
      db.deliveries[d].endpointId != db.deliveries[d'].endpointId
    ensures |set d <- ds :: db.deliveries[d].endpointId| == |ds|
    decreases |ds|
  {
    var image := set d <- ds :: db.deliveries[d].endpointId;
    if ds == {} {
      assert image == {};
    } else {
      var d :| d in ds;
      var rest := set x <- ds - {d} :: db.deliveries[x].endpointId;
      InjectiveImage(db, ds - {d});
      assert image == rest + {db.deliveries[d].endpointId};
    }
  }

  /**
   * Every event published in a run has exactly one delivery, and no more than 100, for each endpoint that
   * was active and subscribed to its type in the database its publisher's fan-out query ran on, and for
   * no other.
   */
  lemma FanoutFollowsSubscriptions(s0: State, actions: seq<Action>, s: State, k: Key)
      returns (n: nat, i: nat, db: Db)
    requires Reached(s0, actions, s) && k in s.db.events && k !in s0.db.events
    ensures i < |s.clients| && s.clients[i].record.key == k && s.clients[i].record.id == s.db.events[k].id
    ensures Took(s0, actions, n, SelectEndpoints(i), db)
    ensures forall e :: Subscription(k.workspace, s.clients[i].record.eventType, e) in db.subscriptions <==>
      exists d :: IsDelivery(s.db, d, k.workspace, s.db.events[k].id, e)
    ensures forall d, d', e |
      IsDelivery(s.db, d, k.workspace, s.db.events[k].id, e)
      && IsDelivery(s.db, d', k.workspace, s.db.events[k].id, e) :: d == d'
    ensures |set d <- s.db.deliveries.Keys | IsDelivery(s.db, d, k.workspace, s.db.events[k].id,
                                                       s.db.deliveries[d].endpointId)| <= 100
  {
    n, i, db := FanoutSelected(s0, actions, s, k);
    hide Reached, Took, FanoutExact;
    var found := Subscribers(db, k.workspace, s.clients[i].record.eventType);
    assert forall e :: e in found <==> Subscription(k.workspace, s.clients[i].record.eventType, e) in db.subscriptions;
    SpellFanout(s.db, s.selected, k, found);
  }

  /** A committed delivery of the event to the endpoint. */
  ghost predicate IsDelivery(db: Db, d: Id, workspace: Id, eventId: Id, endpointId: Id) {
    d in db.deliveries && db.deliveries[d] == DeliveryRow(workspace, eventId, endpointId)
  }

  lemma SpellFanout(db: Db, selected: map<Id, set<Id>>, k: Key, found: set<Id>)
    requires FanoutExact(db, selected, k) && selected[db.events[k].id] == found
    ensures forall e :: e in found <==> exists d :: IsDelivery(db, d, k.workspace, db.events[k].id, e)
    ensures forall d, d', e |
      IsDelivery(db, d, k.workspace, db.events[k].id, e)
      && IsDelivery(db, d', k.workspace, db.events[k].id, e) :: d == d'
    ensures |set d <- db.deliveries.Keys | IsDelivery(db, d, k.workspace, db.events[k].id,
                                                     db.deliveries[d].endpointId)| <= 100
  {
    var id := db.events[k].id;
    var ds := DeliveriesOf(db, k.workspace, id);
    assert forall d, e :: IsDelivery(db, d, k.workspace, id, e) ==> d in ds && db.deliveries[d].endpointId == e;
    forall e | e in found
      ensures exists d :: IsDelivery(db, d, k.workspace, id, e)
    {
      var d :| d in ds && db.deliveries[d].endpointId == e;
      assert IsDelivery(db, d, k.workspace, id, e);
    }
    EndpointsAreSelected(db, selected, k);
    assert ds == set d <- db.deliveries.Keys | IsDelivery(db, d, k.workspace, id, db.deliveries[d].endpointId);
  }

  lemma FanoutSelected(s0: State, actions: seq<Action>, s: State, k: Key) returns (n: nat, i: nat, db: Db)
    requires Reached(s0, actions, s) && k in s.db.events && k !in s0.db.events
    ensures i < |s.clients| && s.clients[i].record.key == k && s.clients[i].record.id == s.db.events[k].id
    ensures Took(s0, actions, n, SelectEndpoints(i), db) && FanoutExact(s.db, s.selected, k)
    ensures s.selected[s.db.events[k].id] == Subscribers(db, k.workspace, s.clients[i].record.eventType)
  {
    RunHistory(s0, actions);
    FanoutIsAtomic(s0, actions, s, k);
    hide Reached, FanoutExact, Took, Subscribers, DeliveriesOf, Endpoints, ClientHistory;
    assert EventHistory(s0, actions, s, k);
    i :| Published(s0, actions, s, k, i);
    n, db :| Took(s0, actions, n, SelectEndpoints(i), db)
      && s.selected[s.db.events[k].id] == Subscribers(db, k.workspace, s.clients[i].record.eventType);
  }
}
