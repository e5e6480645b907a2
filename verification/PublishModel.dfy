/**
 * Idempotent publish as interleaved transactions at READ COMMITTED: every statement of every caller
 * is one step, and any of them may fail and roll its transaction back.
 */
module PublishModel {
  import opened Common

  type Id = nat

  datatype Key = Key(workspace: Id, keyHash: Bytes)

  /** What one call asks to publish; its event id is a fresh UUID. */
  datatype Record = Record(id: Id, key: Key, fingerprint: Bytes, version: int, eventType: string)

  datatype EventRow = EventRow(id: Id, fingerprint: Bytes, version: int)

  datatype DeliveryRow = DeliveryRow(workspace: Id, eventId: Id, endpointId: Id)

  /** An active endpoint with a subscription to an event type. */
  datatype Subscription = Subscription(workspace: Id, eventType: string, endpointId: Id)

  /** The committed rows. */
  datatype Db = Db(events: map<Key, EventRow>, deliveries: map<Id, DeliveryRow>, subscriptions: set<Subscription>)

  datatype StoreResult = StoreResult(eventId: Id, deliveryIds: seq<Id>, duplicate: bool)

  datatype Failure = Conflict | Invalid | NoRows | Other | CommitUnknown

  datatype Pc =
    | Start                       // before INSERT INTO events
    | Inserted                    // the event row is ours, uncommitted
    | Fanning                     // endpoints selected, deliveries being inserted
    | Conflicted                  // the insert affected no row
    | Matched(existing: Id)       // the existing row carries our fingerprint
    | Ready(result: StoreResult)  // the callback returned nil
    | Done(outcome: Result<StoreResult, Failure>)

  /** One caller: its transaction's uncommitted rows and its local variables. */
  datatype Client = Client(
    record: Record,
    pc: Pc,
    event: Option<EventRow>,
    targets: seq<Id>,
    ids: seq<Id>,
    rows: map<Id, DeliveryRow>)

  /** `selected` records, per event id, the endpoints its fan-out query returned. */
  datatype State = State(db: Db, clients: seq<Client>, selected: map<Id, set<Id>>)

  datatype Action =
    | InsertEvent(i: nat)
    | SelectEndpoints(i: nat)
    | InsertDelivery(i: nat, id: Id)
    | ReturnCreated(i: nat)
    | Lookup(i: nat)
    | Gather(i: nat)
    | Commit(i: nat)
    | CommitError(i: nat, applied: bool)
    | Rollback(i: nat)
    | Resubscribe(subscriptions: set<Subscription>)

  const MAX_FANOUT := 100

  // ----- ordered ids (ORDER BY id)

  predicate Increasing(ids: seq<Id>) {
    forall i, j :: 0 <= i < j < |ids| ==> ids[i] < ids[j]
  }

  predicate Least(m: Id, s: set<Id>) {
    m in s && forall x <- s :: m <= x
  }

  lemma LeastExists(s: set<Id>)
    requires s != {}
    ensures exists m :: Least(m, s)
  {
    var a :| a in s;
    assert forall x :: x in s <==> x == a || x in s - {a};
    if s - {a} == {} {
      assert Least(a, s);
    } else {
      LeastExists(s - {a});
      var m :| Least(m, s - {a});
      assert Least(if m <= a then m else a, s);
    }
  }

  lemma OrderedCons(m: Id, rest: seq<Id>, s: set<Id>)
    requires Least(m, s) && Increasing(rest) && |rest| == |s - {m}| && forall x :: x in rest <==> x in s - {m}
    ensures Increasing([m] + rest) && |[m] + rest| == |s| && forall x :: x in [m] + rest <==> x in s
  {
    assert forall i :: 0 <= i < |rest| ==> rest[i] in rest;
  }

  function Ordered(s: set<Id>): (ids: seq<Id>)
    ensures Increasing(ids) && |ids| == |s| && forall x :: x in ids <==> x in s
    decreases |s|
  {
    if s == {} then []
    else
      LeastExists(s);
      var m :| m in s && Least(m, s);
      OrderedCons(m, Ordered(s - {m}), s);
      [m] + Ordered(s - {m})
  }

  // ----- queries

  function Subscribers(db: Db, workspace: Id, eventType: string): set<Id> {
    set s <- db.subscriptions | s.workspace == workspace && s.eventType == eventType :: s.endpointId
  }

  function DeliveriesOf(db: Db, workspace: Id, eventId: Id): set<Id> {
    set d <- db.deliveries.Keys | db.deliveries[d].workspace == workspace && db.deliveries[d].eventId == eventId
  }

  function RowOf(r: Record): EventRow {
    EventRow(r.id, r.fingerprint, r.version)
  }

  predicate SameContent(row: EventRow, r: Record) {
    row.version == r.version && row.fingerprint == r.fingerprint
  }

  // ----- steps

  /** Another open transaction has inserted this key; the insert waits for its end. */
  predicate HeldByOther(s: State, i: nat)
    requires i < |s.clients|
  {
    exists j :: 0 <= j < |s.clients| && j != i
      && s.clients[j].event.Some? && s.clients[j].record.key == s.clients[i].record.key
  }

  predicate Used(s: State, id: Id) {
    id in s.db.deliveries || exists j :: 0 <= j < |s.clients| && id in s.clients[j].rows
  }

  predicate Enabled(s: State, a: Action) {
    if a.Resubscribe? then true
    else if a.i >= |s.clients| then false
    else
      var c := s.clients[a.i];
      match a
      case InsertEvent(i) => c.pc == Start && (c.record.key in s.db.events || !HeldByOther(s, i))
      case SelectEndpoints(_) => c.pc == Inserted
      case InsertDelivery(_, id) => c.pc == Fanning && |c.ids| < |c.targets| && !Used(s, id)
      case ReturnCreated(_) => c.pc == Fanning && |c.ids| >= |c.targets|
      case Lookup(_) => c.pc == Conflicted
      case Gather(_) => c.pc.Matched?
      case Commit(_) => c.pc.Ready?
      case CommitError(_, _) => c.pc.Ready?
      case Rollback(_) => !c.pc.Done?
  }

  /** The transaction ends without effect: its uncommitted rows are gone. */
  function Fail(c: Client, f: Failure): Client {
    c.(pc := Done(Err(f)), event := None, rows := map[])
  }

  function Apply(db: Db, c: Client): Db {
    db.(events := if c.event.Some? then db.events[c.record.key := c.event.value] else db.events,
        deliveries := db.deliveries + c.rows)
  }

  /** The caller's next local state; the other components change only on commit and selection. */
  function Advance(s: State, a: Action): Client
    requires Enabled(s, a) && !a.Resubscribe?
  {
    var c := s.clients[a.i];
    match a
    case InsertEvent(_) =>
      if c.record.key in s.db.events then c.(pc := Conflicted)
      else c.(pc := Inserted, event := Some(RowOf(c.record)))
    case SelectEndpoints(_) =>
      var found := Subscribers(s.db, c.record.key.workspace, c.record.eventType);
      if |found| > MAX_FANOUT then Fail(c, Invalid)
      else c.(pc := Fanning, targets := Ordered(found))
    case InsertDelivery(_, id) =>
      c.(ids := c.ids + [id],
         rows := c.rows[id := DeliveryRow(c.record.key.workspace, c.record.id, c.targets[|c.ids|])])
    case ReturnCreated(_) => c.(pc := Ready(StoreResult(c.record.id, c.ids, false)))
    case Lookup(_) =>
      if c.record.key !in s.db.events then Fail(c, NoRows)
      else if !SameContent(s.db.events[c.record.key], c.record) then Fail(c, Conflict)
      else c.(pc := Matched(s.db.events[c.record.key].id))
    case Gather(_) =>
      var ids := Ordered(DeliveriesOf(s.db, c.record.key.workspace, c.pc.existing));
      c.(pc := Ready(StoreResult(c.pc.existing, ids, true)))
    case Commit(_) => c.(pc := Done(Ok(c.pc.result)), event := None, rows := map[])
    case CommitError(_, _) => Fail(c, CommitUnknown)
    case Rollback(_) => Fail(c, Other)
  }

  function Next(s: State, a: Action): State
    requires Enabled(s, a)
  {
    if a.Resubscribe? then s.(db := s.db.(subscriptions := a.subscriptions))
    else
      var c := s.clients[a.i];
      var db := if a.Commit? || (a.CommitError? && a.applied) then Apply(s.db, c) else s.db;
      var selected :=
        if a.SelectEndpoints?
        then s.selected[c.record.id := Subscribers(s.db, c.record.key.workspace, c.record.eventType)]
        else s.selected;
      State(db, s.clients[a.i := Advance(s, a)], selected)
  }

  // ----- runs

  predicate Runs(s: State, actions: seq<Action>)
    decreases |actions|
  {
    actions == [] || (Enabled(s, actions[0]) && Runs(Next(s, actions[0]), actions[1..]))
  }

  function After(s: State, actions: seq<Action>): State
    requires Runs(s, actions)
    decreases |actions|
  {
    if actions == [] then s else After(Next(s, actions[0]), actions[1..])
  }
}
