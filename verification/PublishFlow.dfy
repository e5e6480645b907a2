/**
 * The publishing call as it is written, statement by statement, on a database that others are using
 * at the same time: each call is a run of the step machine, so what holds of all runs holds of it.
 */
module PublishFlow {
  import opened Common
  import opened PublishModel
  import opened PublishHistory
  import PublishSafety
  import PublishTheorems

  /** A statement runs, returns an error, or panics. */
  datatype Fate = Proceeds | Fails | Panics

  /**
   * What surrounds one call, by the number of its statement: the steps others take before it, what becomes
   * of it, the rows that cannot be scanned and the result sets that end in an error, and the random ids it
   * draws; and whether a failing commit has taken effect.
   */
  datatype Around = Around(
    others: nat -> seq<Action>, fate: nat -> Fate, badRow: (nat, nat) -> bool, badEnd: nat -> bool,
    draws: nat -> Id, applied: bool)

  /** What a call gives its caller; a panic goes on unwinding. */
  datatype Answer = Answered(result: Result<StoreResult, Failure>) | Panicked

  /** Nothing fails or panics by itself. */
  ghost predicate Calm(around: Around) {
    && (forall k :: around.fate(k) == Proceeds && !around.badEnd(k))
    && (forall k, j :: !around.badRow(k, j))
  }

  ghost predicate StepsOfOthers(actions: seq<Action>, me: nat) {
    forall k :: 0 <= k < |actions| ==> actions[k].Resubscribe? || actions[k].i != me
  }

  lemma OthersKeepMe(s: State, a: Action, me: nat)
    requires Enabled(s, a) && me < |s.clients| && (a.Resubscribe? || a.i != me)
    ensures |Next(s, a).clients| == |s.clients| && Next(s, a).clients[me] == s.clients[me]
  {
    hide Advance;
  }

  lemma StepOfCaller(s: State, a: Action)
    requires Enabled(s, a)
    ensures |Next(s, a).clients| == |s.clients|
    ensures !a.Resubscribe? ==> Next(s, a).clients[a.i] == Advance(s, a)
  {
    hide Advance;
  }

  /** The shared database with all its callers, and the run that has led to its present state. */
  class World {
    ghost const start: State
    ghost var trace: seq<Action>
    var state: State
    var statements: nat

    constructor (s: State)
      ensures Valid() && start == state == s && trace == [] && statements == 0
    {
      start, trace, state, statements := s, [], s, 0;
    }

    ghost predicate Valid()
      reads this
    {
      Runs(start, trace) && After(start, trace) == state
    }

    method Do(a: Action)
      requires Valid() && Enabled(state, a)
      modifies `trace, `state
      ensures Valid() && state == Next(old(state), a) && trace == old(trace) + [a]
      ensures |state.clients| == |old(state).clients|
      ensures !a.Resubscribe? ==> state.clients[a.i] == Advance(old(state), a)
      ensures Took(start, trace, |old(trace)|, a, old(state).db)
    {
      StepOfCaller(state, a);
      hide Enabled, Next, Advance;
      RunsAppend(start, trace, a);
      assert (trace + [a])[..|trace|] == trace;
      trace := trace + [a];
      state := Next(state, a);
    }

    /** Others take those of the given steps that are open to them. */
    method Others(me: nat, actions: seq<Action>)
      requires Valid() && me < |state.clients|
      modifies `trace, `state
      ensures Valid() && |state.clients| == |old(state).clients| && state.clients[me] == old(state).clients[me]
      ensures old(trace) <= trace && StepsOfOthers(trace[|old(trace)|..], me)
    {
      hide Enabled, Next;
      var k := 0;
      while k < |actions|
        invariant Valid() && |state.clients| == |old(state).clients| && state.clients[me] == old(state).clients[me]
        invariant old(trace) <= trace && StepsOfOthers(trace[|old(trace)|..], me)
      {
        var a := actions[k];
        if (a.Resubscribe? || a.i != me) && Enabled(state, a) {
          OthersKeepMe(state, a, me);
          Do(a);
        }
        k := k + 1;
      }
    }

    /** One statement is about to run: others have moved on, and it may fail or panic. */
    method Statement(me: nat, around: Around) returns (fate: Fate)
      requires Valid() && me < |state.clients|
      modifies this
      ensures Valid() && |state.clients| == |old(state).clients| && state.clients[me] == old(state).clients[me]
      ensures old(trace) <= trace
      ensures Calm(around) ==> fate == Proceeds
    {
      Others(me, around.others(statements));
      fate := around.fate(statements);
      statements := statements + 1;
    }
  }

  function Stopped(fate: Fate): Answer {
    if fate == Panics then Panicked else Answered(Err(Other))
  }

  /** The run was in this state after its first n steps. */
  ghost predicate Visited(start: State, trace: seq<Action>, n: nat, s: State) {
    n <= |trace| && Runs(start, trace[..n]) && After(start, trace[..n]) == s
  }

  /** A random id the call could draw was in use somewhere along the run. */
  ghost predicate IdTaken(start: State, trace: seq<Action>, around: Around) {
    exists n, s, k :: Visited(start, trace, n, s) && Used(s, around.draws(k))
  }

  /** Somewhere along the run the call would have waited for another that had inserted its key. */
  ghost predicate KeyHeld(start: State, trace: seq<Action>, me: nat) {
    exists n, s :: Visited(start, trace, n, s) && me < |s.clients| && HeldByOther(s, me)
  }

  lemma BadLuckLasts(start: State, trace: seq<Action>, more: seq<Action>, me: nat, around: Around)
    requires trace <= more
    ensures IdTaken(start, trace, around) ==> IdTaken(start, more, around)
    ensures KeyHeld(start, trace, me) ==> KeyHeld(start, more, me)
  {
    hide Runs, After, Used, HeldByOther;
    forall n: nat, s | Visited(start, trace, n, s)
      ensures Visited(start, more, n, s)
    {
      assert more[..n] == trace[..n];
    }
  }

  /** The rows' ids in order; nothing if a row cannot be scanned or the rows end in an error. */
  method CollectIds(rows: seq<Id>, k: nat, around: Around) returns (ids: Option<seq<Id>>)
    ensures ids == if around.badEnd(k) || exists i :: 0 <= i < |rows| && around.badRow(k, i) then None else Some(rows)
    ensures Calm(around) ==> ids == Some(rows)
  {
    var collected: seq<Id> := [];
    for i := 0 to |rows|
      invariant collected == rows[..i] && forall j :: 0 <= j < i ==> !around.badRow(k, j)
    {
      if around.badRow(k, i) {
        return None;
      }
      collected := collected + [rows[i]];
    }
    assert rows[..|rows|] == rows;
    return if around.badEnd(k) then None else Some(collected);
  }

  /** What a callback hands to the transaction: a result, an error already final, or one still to roll back. */
  ghost predicate Returned(pc: Pc, a: Answer) {
    match a
    case Answered(Ok(result)) => pc == Ready(result)
    case Answered(Err(f)) => pc == Done(Err(f)) || (f == Other && !pc.Done?)
    case Panicked => !pc.Done?
  }

  /** One row per id so far, the j-th for the j-th endpoint, and no id twice. */
  ghost predicate RowsInOrder(c: Client, endpoints: seq<Id>) {
    && |c.ids| <= |endpoints| && PublishSafety.Distinct(c.ids)
    && (forall d :: d in c.rows <==> d in c.ids)
    && (forall j :: 0 <= j < |c.ids| ==>
          c.ids[j] in c.rows && c.rows[c.ids[j]] == DeliveryRow(c.record.key.workspace, c.record.id, endpoints[j]))
  }

  lemma RowAdded(c: Client, n: Client, endpoints: seq<Id>, id: Id)
    requires RowsInOrder(c, endpoints) && |c.ids| < |endpoints| && id !in c.rows && n.record == c.record
    requires n.ids == c.ids + [id]
    requires n.rows == c.rows[id := DeliveryRow(c.record.key.workspace, c.record.id, endpoints[|c.ids|])]
    ensures RowsInOrder(n, endpoints)
  {
    forall j | 0 <= j < |c.ids|
      ensures n.ids[j] == c.ids[j] && c.ids[j] != id
    {
      assert c.ids[j] in c.rows;
    }
  }

  /** The fan-out query: its rows are the targets, unless there are more than 100 or it does not get that far. */
  method QueryEndpoints(w: World, me: nat, around: Around)
    returns (stopped: Option<Answer>, endpointIds: seq<Id>, ghost at: nat, ghost db: Db)
    requires w.Valid() && me < |w.state.clients|
    requires w.state.clients[me].pc == Inserted && w.state.clients[me].ids == [] && w.state.clients[me].rows == map[]
    modifies w
    ensures w.Valid() && |w.state.clients| == |old(w.state).clients| && old(w.trace) <= w.trace
    ensures w.state.clients[me].record == old(w.state).clients[me].record
    ensures stopped.None? || stopped == Some(Answered(Err(Invalid))) ==>
      Took(w.start, w.trace, at, SelectEndpoints(me), db)
    ensures stopped.None? ==>
      var c := w.state.clients[me];
      && c.pc == Fanning && c.targets == endpointIds && c.ids == [] && c.rows == map[] && |endpointIds| <= 100
      && endpointIds == Ordered(Subscribers(db, c.record.key.workspace, c.record.eventType))
      && (forall e :: e in endpointIds <==>
            Subscription(c.record.key.workspace, c.record.eventType, e) in db.subscriptions)
    ensures stopped == Some(Answered(Err(Invalid))) ==>
      |Subscribers(db, w.state.clients[me].record.key.workspace, w.state.clients[me].record.eventType)| > 100
    ensures stopped.Some? ==> Returned(w.state.clients[me].pc, stopped.value)
    ensures stopped.Some? ==> stopped.value in {Panicked, Answered(Err(Other)), Answered(Err(Invalid))}
    ensures Calm(around) && stopped.Some? ==> stopped == Some(Answered(Err(Invalid)))
  {
    hide Runs, After, Next, Ordered, Subscribers, DeliveriesOf, HeldByOther, Used, Took, Calm;
    endpointIds, at, db := [], 0, w.state.db;
    var record := w.state.clients[me].record;
    var fate := w.Statement(me, around);
    if fate != Proceeds {
      return Some(Stopped(fate)), [], at, db;
    }
    var rows := Ordered(Subscribers(w.state.db, record.key.workspace, record.eventType));
    SubscribersSpelled(w.state.db, record);
    var limited := if |rows| > MAX_FANOUT + 1 then rows[..MAX_FANOUT + 1] else rows;
    var collected := CollectIds(limited, w.statements, around);
    if collected.None? {
      return Some(Answered(Err(Other))), [], at, db;
    }
    endpointIds := collected.value;
    at, db := |w.trace|, w.state.db;
    w.Do(SelectEndpoints(me));
    stopped := if |endpointIds| > MAX_FANOUT then Some(Answered(Err(Invalid))) else None;
  }

  /**
   * From the query's rows to the inserted deliveries. On success there is one delivery for each endpoint
   * that was active and subscribed in the database `db` of the query, in the order of the endpoints and of
   * the returned ids; more than 100 endpoints are refused.
   */
  method InsertDeliveries(w: World, me: nat, around: Around) returns (a: Answer, ghost at: nat, ghost db: Db)
    requires w.Valid() && me < |w.state.clients|
    requires w.state.clients[me].pc == Inserted && w.state.clients[me].ids == [] && w.state.clients[me].rows == map[]
    modifies w
    ensures w.Valid() && |w.state.clients| == |old(w.state).clients| && old(w.trace) <= w.trace
    ensures w.state.clients[me].record == old(w.state).clients[me].record
    ensures Returned(w.state.clients[me].pc, a)
    ensures a.Answered? && (a.result.Ok? || a.result == Err(Invalid)) ==>
      Took(w.start, w.trace, at, SelectEndpoints(me), db)
    ensures a.Answered? && a.result.Ok? ==>
      var c := w.state.clients[me];
      var endpoints := Ordered(Subscribers(db, c.record.key.workspace, c.record.eventType));
      && a.result.value == StoreResult(c.record.id, c.ids, false)
      && RowsInOrder(c, endpoints) && |c.ids| == |endpoints| <= 100
      && (forall e :: e in endpoints <==>
            Subscription(c.record.key.workspace, c.record.eventType, e) in db.subscriptions)
    ensures a == Answered(Err(Invalid)) ==>
      |Subscribers(db, w.state.clients[me].record.key.workspace, w.state.clients[me].record.eventType)| > 100
    ensures Calm(around) ==> a.Answered? && (a.result == Err(Other) ==> IdTaken(w.start, w.trace, around))
    ensures a.Answered? && a.result.Err? ==> a.result.error in {Other, Invalid}
  {
    hide Runs, After, Next, Ordered, Subscribers, DeliveriesOf, HeldByOther, Used, Took, RowsInOrder, Calm, IdTaken;
    var record := w.state.clients[me].record;
    var stopped: Option<Answer>, endpointIds: seq<Id>;
    stopped, endpointIds, at, db := QueryEndpoints(w, me, around);
    if stopped.Some? {
      return stopped.value, at, db;
    }
    var fate: Fate;
    var deliveryIds: seq<Id> := [];
    EmptyRows(w.state.clients[me], endpointIds);
    for i := 0 to |endpointIds|
      invariant w.Valid() && |w.state.clients| == |old(w.state).clients|
      invariant old(w.trace) <= w.trace && Took(w.start, w.trace, at, SelectEndpoints(me), db)
      invariant var c := w.state.clients[me];
        c.pc == Fanning && c.targets == endpointIds && c.ids == deliveryIds && |deliveryIds| == i && c.record == record
      invariant RowsInOrder(w.state.clients[me], endpointIds)
    {
      ghost var before := w.trace;
      fate := w.Statement(me, around);
      TookEarlier(w.start, before, w.trace, at, SelectEndpoints(me), db);
      if fate != Proceeds {
        return Stopped(fate), at, db;
      }
      var deliveryId := around.draws(w.statements);
      if Used(w.state, deliveryId) {
        TakenNow(w, around, w.statements);
        return Answered(Err(Other)), at, db;
      }
      UnusedByMe(w.state, me, deliveryId);
      ghost var c := w.state.clients[me];
      before := w.trace;
      w.Do(InsertDelivery(me, deliveryId));
      TookEarlier(w.start, before, w.trace, at, SelectEndpoints(me), db);
      RowAdded(c, w.state.clients[me], endpointIds, deliveryId);
      deliveryIds := deliveryIds + [deliveryId];
    }
    ghost var before, c := w.trace, w.state.clients[me];
    w.Do(ReturnCreated(me));
    TookEarlier(w.start, before, w.trace, at, SelectEndpoints(me), db);
    SameRows(c, w.state.clients[me], endpointIds);
    return Answered(Ok(StoreResult(record.id, deliveryIds, false))), at, db;
  }

  lemma SubscribersSpelled(db: Db, r: Record)
    ensures forall e :: e in Ordered(Subscribers(db, r.key.workspace, r.eventType)) <==>
      Subscription(r.key.workspace, r.eventType, e) in db.subscriptions
  {
  }

  lemma TakenNow(w: World, around: Around, k: nat)
    requires w.Valid() && Used(w.state, around.draws(k))
    ensures IdTaken(w.start, w.trace, around)
  {
    assert w.trace[..|w.trace|] == w.trace;
    assert Visited(w.start, w.trace, |w.trace|, w.state);
  }

  lemma HeldNow(w: World, me: nat)
    requires w.Valid() && me < |w.state.clients| && HeldByOther(w.state, me)
    ensures KeyHeld(w.start, w.trace, me)
  {
    assert w.trace[..|w.trace|] == w.trace;
    assert Visited(w.start, w.trace, |w.trace|, w.state);
  }

  lemma EmptyRows(c: Client, endpoints: seq<Id>)
    requires c.ids == [] && c.rows == map[]
    ensures RowsInOrder(c, endpoints)
  {
  }

  lemma SameRows(c: Client, n: Client, endpoints: seq<Id>)
    requires RowsInOrder(c, endpoints) && n.ids == c.ids && n.rows == c.rows && n.record == c.record
    ensures RowsInOrder(n, endpoints)
  {
  }

  lemma UnusedByMe(s: State, me: nat, id: Id)
    requires me < |s.clients| && !Used(s, id)
    ensures id !in s.clients[me].rows && Enabled(s, InsertDelivery(me, id)) == (
      s.clients[me].pc == Fanning && |s.clients[me].ids| < |s.clients[me].targets|)
  {
  }

  /**
   * The existing event and its deliveries. `db` is the database the lookup ran on and `later` that of the
   * second query: a conflict means other content under the key, a result the same content, that event's id
   * and all its deliveries in order.
   */
  method FindExisting(w: World, me: nat, around: Around)
    returns (a: Answer, ghost at: nat, ghost db: Db, ghost next: nat, ghost later: Db)
    requires w.Valid() && me < |w.state.clients| && w.state.clients[me].pc == Conflicted
    modifies w
    ensures w.Valid() && |w.state.clients| == |old(w.state).clients| && old(w.trace) <= w.trace
    ensures w.state.clients[me].record == old(w.state).clients[me].record
    ensures Returned(w.state.clients[me].pc, a)
    ensures a.Answered? && a.result != Err(Other) ==> Took(w.start, w.trace, at, Lookup(me), db)
    ensures a == Answered(Err(NoRows)) ==> w.state.clients[me].record.key !in db.events
    ensures a == Answered(Err(Conflict)) ==>
      var r := w.state.clients[me].record;
      && r.key in db.events
      && (db.events[r.key].version != r.version || db.events[r.key].fingerprint != r.fingerprint)
    ensures a.Answered? && a.result.Ok? ==>
      var r, result := w.state.clients[me].record, a.result.value;
      && r.key in db.events
      && db.events[r.key] == EventRow(result.eventId, r.fingerprint, r.version)
      && Took(w.start, w.trace, next, Gather(me), later)
      && result.duplicate
      && (forall x, y :: 0 <= x < y < |result.deliveryIds| ==> result.deliveryIds[x] < result.deliveryIds[y])
      && (forall d :: d in result.deliveryIds <==>
            && d in later.deliveries
            && later.deliveries[d].workspace == r.key.workspace
            && later.deliveries[d].eventId == result.eventId)
    ensures a.Answered? && a.result.Err? ==> a.result.error in {Other, Conflict, NoRows}
    ensures Calm(around) ==> a.Answered? && a.result != Err(Other)
  {
    hide Runs, After, Next, Ordered, Subscribers, DeliveriesOf, HeldByOther, Used, Took, Calm;
    at, db, next, later := 0, w.state.db, 0, w.state.db;
    var record := w.state.clients[me].record;
    var fate := w.Statement(me, around);
    if fate != Proceeds {
      a := Stopped(fate);
      return;
    }
    var events := w.state.db.events;
    at, db := |w.trace|, w.state.db;
    w.Do(Lookup(me));
    if record.key !in events {
      a := Answered(Err(NoRows));
      return;
    }
    var existing := events[record.key];
    if existing.version != record.version || existing.fingerprint != record.fingerprint {
      a := Answered(Err(Conflict));
      return;
    }
    ghost var before := w.trace;
    fate := w.Statement(me, around);
    TookEarlier(w.start, before, w.trace, at, Lookup(me), db);
    if fate != Proceeds {
      a := Stopped(fate);
      return;
    }
    var rows := Ordered(DeliveriesOf(w.state.db, record.key.workspace, existing.id));
    var ids := CollectIds(rows, w.statements, around);
    if ids.None? {
      a := Answered(Err(Other));
      return;
    }
    next, later, before := |w.trace|, w.state.db, w.trace;
    DeliveriesSpelled(later, record.key.workspace, existing.id);
    w.Do(Gather(me));
    TookEarlier(w.start, before, w.trace, at, Lookup(me), db);
    a := Answered(Ok(StoreResult(existing.id, ids.value, true)));
  }

  lemma DeliveriesSpelled(db: Db, workspace: Id, eventId: Id)
    ensures forall d :: d in Ordered(DeliveriesOf(db, workspace, eventId)) <==>
      d in db.deliveries && db.deliveries[d].workspace == workspace && db.deliveries[d].eventId == eventId
  {
  }

  /** The callback; an insert still waiting for the key's holder when the context ends is an error like any other. */
  method InsertOrFind(w: World, me: nat, around: Around) returns (a: Answer)
    requires w.Valid() && me < |w.state.clients| && Fresh(w.state.clients[me])
    modifies w
    ensures w.Valid() && |w.state.clients| == |old(w.state).clients| && old(w.trace) <= w.trace
    ensures w.state.clients[me].record == old(w.state).clients[me].record
    ensures Returned(w.state.clients[me].pc, a)
    ensures Calm(around) ==> a.Answered?
    ensures Calm(around) && a == Answered(Err(Other)) ==>
      IdTaken(w.start, w.trace, around) || KeyHeld(w.start, w.trace, me)
    ensures a != Answered(Err(CommitUnknown))
  {
    hide Runs, After, Next, Ordered, Subscribers, DeliveriesOf, HeldByOther, Used, Took, RowsInOrder;
    hide IdTaken, KeyHeld, Calm;
    var fate := w.Statement(me, around);
    if fate != Proceeds {
      return Stopped(fate);
    }
    if !Enabled(w.state, InsertEvent(me)) {
      HeldNow(w, me);
      return Answered(Err(Other));
    }
    w.Do(InsertEvent(me));
    var rowsAffected := if w.state.clients[me].pc == Inserted then 1 else 0;
    if rowsAffected != 0 {
      ghost var at, db;
      a, at, db := InsertDeliveries(w, me, around);
    } else {
      ghost var at, db, next, later;
      a, at, db, next, later := FindExisting(w, me, around);
    }
  }

  predicate Fresh(c: Client) {
    c.pc == Start && c.ids == [] && c.rows == map[]
  }

  /** Commit what the callback returned; a commit that fails or panics may or may not have taken effect. */
  method CommitResult(w: World, me: nat, around: Around, result: StoreResult) returns (a: Answer, committed: bool)
    requires w.Valid() && me < |w.state.clients| && w.state.clients[me].pc == Ready(result)
    modifies w
    ensures w.Valid() && |w.state.clients| == |old(w.state).clients| && old(w.trace) <= w.trace
    ensures w.state.clients[me].record == old(w.state).clients[me].record
    ensures w.state.clients[me].pc == Done(if committed then Ok(result) else Err(CommitUnknown))
    ensures a == Panicked || a == Answered(w.state.clients[me].pc.outcome)
    ensures a == Panicked ==> !committed
    ensures Calm(around) ==> committed
  {
    hide Runs, After, Next, Took;
    var fate := w.Statement(me, around);
    if fate != Proceeds {
      w.Do(CommitError(me, around.applied));
      return if fate == Panics then Panicked else Answered(Err(CommitUnknown)), false;
    }
    w.Do(Commit(me));
    return Answered(Ok(result)), true;
  }

  /** The deferred rollback of a transaction that was not committed; on one already ended it has no effect. */
  method Cleanup(w: World, me: nat)
    requires w.Valid() && me < |w.state.clients|
    modifies w
    ensures w.Valid() && |w.state.clients| == |old(w.state).clients| && old(w.trace) <= w.trace
    ensures w.state.clients[me].record == old(w.state).clients[me].record
    ensures w.state.clients[me].pc
         == if old(w.state).clients[me].pc.Done? then old(w.state).clients[me].pc else Done(Err(Other))
  {
    hide Runs, After, Next, Took;
    if !w.state.clients[me].pc.Done? {
      w.Do(Rollback(me));
    }
  }

  /**
   * The transaction around it: committed or rolled back on every path, also while unwinding a panic. The
   * call ends Done with exactly what it returns, after a run of the step machine; so from a consistent
   * start its answer names the committed event of its key with the caller's content, and a conflict is a
   * real one. A call that panics has committed nothing, unless the commit itself panicked. If nothing fails
   * by itself, the call fails for no other reason than its content, its fan-out, a random id already in use
   * or a wait for the holder of its key.
   */
  method Publish(w: World, me: nat, around: Around) returns (a: Answer)
    requires w.Valid() && me < |w.state.clients| && Fresh(w.state.clients[me])
    modifies w
    ensures w.Valid() && old(w.trace) <= w.trace
    ensures |w.state.clients| == |old(w.state).clients|
    ensures w.state.clients[me].record == old(w.state).clients[me].record
    ensures w.state.clients[me].pc.Done?
    ensures a.Answered? ==> w.state.clients[me].pc == Done(a.result)
    ensures a.Panicked? ==> w.state.clients[me].pc.outcome in {Err(Other), Err(CommitUnknown)}
    ensures PublishSafety.Init(w.start) ==>
      PublishSafety.DoneOk(w.state.db, w.state.clients[me].record, w.state.clients[me].pc.outcome)
    ensures Calm(around) ==> a.Answered? && a.result != Err(CommitUnknown)
    ensures Calm(around) && a == Answered(Err(Other)) ==>
      IdTaken(w.start, w.trace, around) || KeyHeld(w.start, w.trace, me)
  {
    hide IdTaken, KeyHeld, Calm;
    hide Runs, After, Next, Advance, Enabled, PublishSafety.DoneOk, PublishSafety.Init;
    var committed := false;
    a := Answered(Err(Other));
    var begun := w.Statement(me, around);
    if begun != Proceeds {
      a := Stopped(begun);
    } else {
      var scoped := w.Statement(me, around);
      if scoped != Proceeds {
        a := Stopped(scoped);
      } else {
        a := InsertOrFind(w, me, around);
        if a.Answered? && a.result.Ok? {
          a, committed := CommitResult(w, me, around, a.result.value);
        }
      }
    }
    ghost var before := w.trace;
    if !committed {
      Cleanup(w, me);
    }
    BadLuckLasts(w.start, before, w.trace, me, around);
    if PublishSafety.Init(w.start) {
      PublishTheorems.DoneIsOk(w.start, w.trace, w.state, me);
    }
  }
}
