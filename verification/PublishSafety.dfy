/** Safety of idempotent publish over every interleaving. */
module PublishSafety {
  import opened Common
  import opened PublishModel

  // ----- what holds of one state

  ghost predicate Distinct(ids: seq<Id>) {
    forall i, j :: 0 <= i < j < |ids| ==> ids[i] != ids[j]
  }

  ghost predicate Unused(db: Db, id: Id) {
    && (forall k :: k in db.events ==> db.events[k].id != id)
    && (forall d :: d in db.deliveries ==> db.deliveries[d].eventId != id)
  }

  /** The result names the committed event of the record's key, with its content and all its deliveries. */
  ghost predicate Answers(db: Db, r: Record, result: StoreResult) {
    && r.key in db.events && db.events[r.key].id == result.eventId && SameContent(db.events[r.key], r)
    && Distinct(result.deliveryIds)
    && (forall d :: d in result.deliveryIds <==> d in DeliveriesOf(db, r.key.workspace, result.eventId))
  }

  /** One delivery per selected endpoint so far, in order, none twice. */
  ghost predicate Fanned(c: Client, selected: map<Id, set<Id>>) {
    && c.record.id in selected && |selected[c.record.id]| <= MAX_FANOUT
    && Increasing(c.targets) && |c.targets| == |selected[c.record.id]|
    && (forall x :: x in c.targets <==> x in selected[c.record.id])
    && |c.ids| <= |c.targets| && Distinct(c.ids)
    && (forall d :: d in c.rows <==> d in c.ids)
    && (forall j :: 0 <= j < |c.ids| ==>
          c.ids[j] in c.rows && c.rows[c.ids[j]] == DeliveryRow(c.record.key.workspace, c.record.id, c.targets[j]))
  }

  ghost predicate Creating(c: Client) {
    c.pc == Inserted || c.pc == Fanning || (c.pc.Ready? && !c.pc.result.duplicate)
  }

  ghost predicate ClientOk(db: Db, selected: map<Id, set<Id>>, c: Client) {
    && (c.event.Some? <==> Creating(c))
    && (c.event.Some? ==> c.event.value == RowOf(c.record) && c.record.key !in db.events)
    && (c.event.None? ==> c.rows == map[])
    && (c.pc == Start || c.pc == Inserted ==> c.rows == map[] && c.ids == [])
    && (c.pc == Fanning ==> Fanned(c, selected))
    && (c.pc.Ready? && !c.pc.result.duplicate ==>
          Fanned(c, selected) && |c.ids| == |c.targets| && c.pc.result == StoreResult(c.record.id, c.ids, false))
    && (c.pc.Ready? && c.pc.result.duplicate ==> Answers(db, c.record, c.pc.result))
    && (c.pc == Conflicted ==> c.record.key in db.events)
    && (c.pc.Matched? ==>
          c.record.key in db.events && db.events[c.record.key].id == c.pc.existing
          && SameContent(db.events[c.record.key], c.record))
    && (c.pc.Done? ==> DoneOk(db, c.record, c.pc.outcome))
    && (!c.pc.Done? ==> Unused(db, c.record.id))
    && (forall d :: d in c.rows ==> d !in db.deliveries)
  }

  ghost predicate DoneOk(db: Db, r: Record, outcome: Result<StoreResult, Failure>) {
    match outcome
    case Ok(result) => Answers(db, r, result) && (result.duplicate <==> result.eventId != r.id)
    case Err(Conflict) => r.key in db.events && !SameContent(db.events[r.key], r) && Unused(db, r.id)
    case Err(CommitUnknown) => Unused(db, r.id) || (r.key in db.events && db.events[r.key] == RowOf(r))
    case Err(f) => f != NoRows && Unused(db, r.id)
  }

  /** An event's committed deliveries: exactly one per endpoint selected for it. */
  ghost predicate FanoutExact(db: Db, selected: map<Id, set<Id>>, k: Key) {
    k in db.events &&
    var id := db.events[k].id;
    var ds := DeliveriesOf(db, k.workspace, id);
    && id in selected && |selected[id]| <= MAX_FANOUT
    && (forall d :: d in ds ==> db.deliveries[d].endpointId in selected[id])
    && (forall e :: e in selected[id] ==> exists d :: d in ds && db.deliveries[d].endpointId == e)
    && (forall d, d' :: d in ds && d' in ds && d != d' ==> db.deliveries[d].endpointId != db.deliveries[d'].endpointId)
  }

  ghost predicate OwnedBy(db: Db, row: DeliveryRow, k: Key) {
    k in db.events && db.events[k].id == row.eventId && k.workspace == row.workspace
  }

  ghost predicate DbOk(db: Db, selected: map<Id, set<Id>>) {
    && (forall k, k' :: k in db.events && k' in db.events && k != k' ==> db.events[k].id != db.events[k'].id)
    && (forall d :: d in db.deliveries ==> exists k :: OwnedBy(db, db.deliveries[d], k))
    && (forall k :: k in db.events ==> FanoutExact(db, selected, k))
  }

  /** Two callers never share an event id, an uncommitted key or an uncommitted delivery. */
  ghost predicate Apart(a: Client, b: Client) {
    && a.record.id != b.record.id
    && (a.event.Some? && b.event.Some? ==> a.record.key != b.record.key)
    && (forall d :: d in a.rows ==> d !in b.rows)
  }

  ghost predicate Inv(s: State) {
    && DbOk(s.db, s.selected)
    && (forall i :: 0 <= i < |s.clients| ==> ClientOk(s.db, s.selected, s.clients[i]))
    && (forall i, j :: 0 <= i < |s.clients| && 0 <= j < |s.clients| && i != j ==> Apart(s.clients[i], s.clients[j]))
  }

  /** Any consistent database and any callers with fresh, distinct event ids. */
  ghost predicate Init(s: State) {
    && DbOk(s.db, s.selected)
    && (forall i :: 0 <= i < |s.clients| ==>
          var c := s.clients[i];
          c == Client(c.record, Start, None, [], [], map[]) && Unused(s.db, c.record.id))
    && (forall i, j :: 0 <= i < j < |s.clients| ==> s.clients[i].record.id != s.clients[j].record.id)
  }

  lemma InitInv(s: State)
    requires Init(s)
    ensures Inv(s)
  {
  }

  // ----- a commit

  ghost predicate Committable(db: Db, selected: map<Id, set<Id>>, c: Client) {
    c.pc.Ready? && ClientOk(db, selected, c) && c.event.Some?
  }

  lemma AppliedDeliveries(db: Db, selected: map<Id, set<Id>>, c: Client, ws: Id, ev: Id)
    requires Committable(db, selected, c)
    ensures var db' := Apply(db, c);
      && (ev != c.record.id ==> DeliveriesOf(db', ws, ev) == DeliveriesOf(db, ws, ev))
      && (ev == c.record.id && ws == c.record.key.workspace ==> DeliveriesOf(db', ws, ev) == c.rows.Keys)
  {
    var db' := Apply(db, c);
    forall d | d in c.rows
      ensures c.rows[d].eventId == c.record.id && c.rows[d].workspace == c.record.key.workspace
    {
      var j :| 0 <= j < |c.ids| && c.ids[j] == d;
    }
  }

  lemma CommitAnswers(db: Db, selected: map<Id, set<Id>>, c: Client)
    requires Committable(db, selected, c)
    ensures Answers(Apply(db, c), c.record, c.pc.result)
  {
    AppliedDeliveries(db, selected, c, c.record.key.workspace, c.record.id);
  }

  lemma CommitKeepsAnswers(db: Db, selected: map<Id, set<Id>>, c: Client, r: Record, result: StoreResult)
    requires Committable(db, selected, c) && Answers(db, r, result)
    ensures Answers(Apply(db, c), r, result)
  {
    AppliedDeliveries(db, selected, c, r.key.workspace, result.eventId);
  }

  /** The rows of a complete fan-out: one for each selected endpoint, and for no other. */
  lemma CompleteRows(c: Client, selected: map<Id, set<Id>>)
    requires Fanned(c, selected) && |c.ids| == |c.targets|
    ensures forall d :: d in c.rows ==> c.rows[d].endpointId in selected[c.record.id]
    ensures forall e :: e in selected[c.record.id] ==> exists d :: d in c.rows && c.rows[d].endpointId == e
    ensures forall d, d' :: d in c.rows && d' in c.rows && d != d' ==> c.rows[d].endpointId != c.rows[d'].endpointId
  {
    forall d | d in c.rows
      ensures c.rows[d].endpointId in selected[c.record.id]
    {
      var j :| 0 <= j < |c.ids| && c.ids[j] == d;
    }
    forall e | e in selected[c.record.id]
      ensures exists d :: d in c.rows && c.rows[d].endpointId == e
    {
      var j :| 0 <= j < |c.targets| && c.targets[j] == e;
      assert c.ids[j] in c.rows && c.rows[c.ids[j]].endpointId == e;
    }
    forall d, d' | d in c.rows && d' in c.rows && d != d'
      ensures c.rows[d].endpointId != c.rows[d'].endpointId
    {
      var j :| 0 <= j < |c.ids| && c.ids[j] == d;
      var j' :| 0 <= j' < |c.ids| && c.ids[j'] == d';
      assert j < j' || j' < j;
    }
  }

  lemma CommitFanout(db: Db, selected: map<Id, set<Id>>, c: Client)
    requires Committable(db, selected, c)
    ensures FanoutExact(Apply(db, c), selected, c.record.key)
  {
    var db' := Apply(db, c);
    AppliedDeliveries(db, selected, c, c.record.key.workspace, c.record.id);
    CompleteRows(c, selected);
    assert db'.events[c.record.key] == RowOf(c.record);
    assert forall d :: d in c.rows ==> db'.deliveries[d] == c.rows[d];
    assert c.record.id in selected && |selected[c.record.id]| <= MAX_FANOUT;
    hide Fanned, ClientOk, Committable, Apply, DeliveriesOf;
  }

  lemma CommitKeepsFanout(db: Db, selected: map<Id, set<Id>>, c: Client, k: Key)
    requires Committable(db, selected, c) && FanoutExact(db, selected, k) && k != c.record.key
    ensures FanoutExact(Apply(db, c), selected, k)
  {
    var db' := Apply(db, c);
    AppliedDeliveries(db, selected, c, k.workspace, db.events[k].id);
    var ds := DeliveriesOf(db, k.workspace, db.events[k].id);
    assert forall d :: d in ds ==> db'.deliveries[d] == db.deliveries[d];
  }

  lemma CommitKeepsOwners(db: Db, selected: map<Id, set<Id>>, c: Client, d: Id)
    requires DbOk(db, selected) && Committable(db, selected, c) && d in Apply(db, c).deliveries
    ensures exists k :: OwnedBy(Apply(db, c), Apply(db, c).deliveries[d], k)
  {
    hide FanoutExact;
    var db' := Apply(db, c);
    if d in c.rows {
      var j :| 0 <= j < |c.ids| && c.ids[j] == d;
      assert OwnedBy(db', db'.deliveries[d], c.record.key);
    } else {
      var k :| OwnedBy(db, db.deliveries[d], k);
      assert OwnedBy(db', db'.deliveries[d], k);
    }
  }

  lemma CommitKeepsDb(db: Db, selected: map<Id, set<Id>>, c: Client)
    requires DbOk(db, selected) && Committable(db, selected, c)
    ensures DbOk(Apply(db, c), selected)
  {
    hide FanoutExact, OwnedBy;
    var db' := Apply(db, c);
    CommitFanout(db, selected, c);
    forall k | k in db'.events && k != c.record.key
      ensures FanoutExact(db', selected, k)
    {
      CommitKeepsFanout(db, selected, c, k);
    }
    forall d | d in db'.deliveries
      ensures exists k :: OwnedBy(db', db'.deliveries[d], k)
    {
      CommitKeepsOwners(db, selected, c, d);
    }
  }

  lemma CommitKeepsUnused(db: Db, selected: map<Id, set<Id>>, c: Client, id: Id)
    requires Committable(db, selected, c) && id != c.record.id && Unused(db, id)
    ensures Unused(Apply(db, c), id)
  {
    forall d | d in c.rows
      ensures c.rows[d].eventId == c.record.id
    {
      var j :| 0 <= j < |c.ids| && c.ids[j] == d;
    }
  }

  lemma CommitKeepsOther(db: Db, selected: map<Id, set<Id>>, c: Client, other: Client)
    requires Committable(db, selected, c) && ClientOk(db, selected, other) && Apart(c, other)
    ensures ClientOk(Apply(db, c), selected, other)
  {
    var db' := Apply(db, c);
    if other.pc.Ready? && other.pc.result.duplicate {
      CommitKeepsAnswers(db, selected, c, other.record, other.pc.result);
    }
    if other.pc.Done? && other.pc.outcome.Ok? {
      CommitKeepsAnswers(db, selected, c, other.record, other.pc.outcome.value);
    }
    if Unused(db, other.record.id) {
      CommitKeepsUnused(db, selected, c, other.record.id);
    }
  }

  // ----- a selection

  lemma SelectKeepsDb(db: Db, selected: map<Id, set<Id>>, id: Id, found: set<Id>)
    requires DbOk(db, selected) && Unused(db, id)
    ensures DbOk(db, selected[id := found])
  {
    forall k | k in db.events
      ensures FanoutExact(db, selected[id := found], k)
    {
      assert FanoutExact(db, selected, k);
    }
  }

  lemma SelectKeepsOther(db: Db, selected: map<Id, set<Id>>, id: Id, found: set<Id>, other: Client)
    requires ClientOk(db, selected, other) && other.record.id != id
    ensures ClientOk(db, selected[id := found], other)
  {
  }

  // ----- the stepping caller

  lemma InsertDeliveryOk(s: State, a: Action)
    requires Inv(s) && Enabled(s, a) && a.InsertDelivery?
    ensures ClientOk(s.db, s.selected, Advance(s, a))
  {
    hide DbOk, Apart, Answers;
    var c, n := s.clients[a.i], Advance(s, a);
    assert ClientOk(s.db, s.selected, c);
    assert a.id !in c.ids;
    forall j | 0 <= j < |n.ids|
      ensures n.ids[j] in n.rows && n.rows[n.ids[j]] == DeliveryRow(n.record.key.workspace, n.record.id, n.targets[j])
    {
      if j < |c.ids| { assert n.ids[j] == c.ids[j]; }
    }
  }

  lemma GatherOk(s: State, a: Action)
    requires Inv(s) && Enabled(s, a) && a.Gather?
    ensures ClientOk(s.db, s.selected, Advance(s, a))
  {
    hide DbOk, Apart, Fanned;
    var c := s.clients[a.i];
    assert ClientOk(s.db, s.selected, c);
    assert Answers(s.db, c.record, Advance(s, a).pc.result);
  }

  lemma FannedStart(c: Client, found: set<Id>, selected: map<Id, set<Id>>)
    requires c.ids == [] && c.rows == map[] && |found| <= MAX_FANOUT
    ensures Fanned(c.(pc := Fanning, targets := Ordered(found)), selected[c.record.id := found])
  {
    hide Ordered;
  }

  lemma SelectOk(s: State, a: Action)
    requires Inv(s) && Enabled(s, a) && a.SelectEndpoints?
    ensures ClientOk(s.db, Next(s, a).selected, Advance(s, a))
  {
    var c := s.clients[a.i];
    var found := Subscribers(s.db, c.record.key.workspace, c.record.eventType);
    hide DbOk, Apart, Answers, Fanned, Ordered, Subscribers;
    assert ClientOk(s.db, s.selected, c);
    if |found| <= MAX_FANOUT { FannedStart(c, found, s.selected); }
  }

  lemma InsertOk(s: State, a: Action)
    requires Enabled(s, a) && a.InsertEvent? && ClientOk(s.db, s.selected, s.clients[a.i])
    ensures ClientOk(s.db, s.selected, Advance(s, a))
  {
    hide Fanned, Answers, DoneOk, Unused;
  }

  lemma ReturnOk(s: State, a: Action)
    requires Enabled(s, a) && a.ReturnCreated? && ClientOk(s.db, s.selected, s.clients[a.i])
    ensures ClientOk(s.db, s.selected, Advance(s, a))
  {
    hide Answers, DoneOk, Unused;
  }

  lemma LookupOk(s: State, a: Action)
    requires Enabled(s, a) && a.Lookup? && ClientOk(s.db, s.selected, s.clients[a.i])
    ensures ClientOk(s.db, s.selected, Advance(s, a))
  {
    hide Fanned, Answers, Unused;
  }

  lemma LocalOk(s: State, a: Action)
    requires Inv(s) && Enabled(s, a)
    requires a.InsertEvent? || a.ReturnCreated? || a.Lookup? || a.Rollback? || (a.CommitError? && !a.applied)
    ensures ClientOk(s.db, s.selected, Advance(s, a))
  {
    assert ClientOk(s.db, s.selected, s.clients[a.i]) by { hide ClientOk; }
    hide Inv, ClientOk, Unused;
    if a.InsertEvent? {
      InsertOk(s, a);
    } else if a.ReturnCreated? {
      ReturnOk(s, a);
    } else if a.Lookup? {
      LookupOk(s, a);
    } else {
      EndsUnused(s, a);
      FinishedOk(s.db, s.selected, Advance(s, a));
    }
  }

  /** A call that ends without effect has published nothing under its id. */
  lemma EndsUnused(s: State, a: Action)
    requires Enabled(s, a) && (a.Rollback? || (a.CommitError? && !a.applied))
    requires ClientOk(s.db, s.selected, s.clients[a.i])
    ensures Unused(s.db, s.clients[a.i].record.id)
  {
    hide Fanned, Answers, Unused, DoneOk;
  }

  ghost predicate Commits(a: Action) {
    a.Commit? || (a.CommitError? && a.applied)
  }

  /** A caller that found its event already there commits nothing. */
  lemma NothingToApply(s: State, i: nat)
    requires Inv(s) && i < |s.clients| && s.clients[i].pc.Ready? && s.clients[i].event.None?
    ensures Apply(s.db, s.clients[i]) == s.db
  {
    hide DbOk, Apart, Answers, Fanned;
    assert ClientOk(s.db, s.selected, s.clients[i]);
  }

  lemma FinishedOk(db: Db, selected: map<Id, set<Id>>, c: Client)
    requires c.pc.Done? && c.event.None? && c.rows == map[] && DoneOk(db, c.record, c.pc.outcome)
    ensures ClientOk(db, selected, c)
  {
  }

  lemma CommitDone(s: State, i: nat)
    requires Inv(s) && i < |s.clients| && s.clients[i].pc.Ready?
    ensures DoneOk(Apply(s.db, s.clients[i]), s.clients[i].record, Ok(s.clients[i].pc.result))
    ensures DoneOk(Apply(s.db, s.clients[i]), s.clients[i].record, Err(CommitUnknown))
  {
    var c := s.clients[i];
    hide DbOk, Apart;
    assert ClientOk(s.db, s.selected, c);
    if c.event.Some? {
      CommitAnswers(s.db, s.selected, c);
    } else {
      NothingToApply(s, i);
    }
  }

  lemma CommitSelfOk(s: State, a: Action)
    requires Inv(s) && Enabled(s, a) && Commits(a)
    ensures ClientOk(Next(s, a).db, s.selected, Advance(s, a))
  {
    hide Inv, Apply;
    CommitDone(s, a.i);
    FinishedOk(Next(s, a).db, s.selected, Advance(s, a));
  }

  lemma CommitOthersOk(s: State, a: Action)
    requires Inv(s) && Enabled(s, a) && Commits(a)
    ensures DbOk(Next(s, a).db, s.selected)
    ensures forall j :: 0 <= j < |s.clients| && j != a.i ==> ClientOk(Next(s, a).db, s.selected, s.clients[j])
  {
    var c := s.clients[a.i];
    assert Committable(s.db, s.selected, c) || c.event.None? by { assert ClientOk(s.db, s.selected, c); }
    hide DbOk, ClientOk, Apart, Committable, Apply, Advance;
    if c.event.None? {
      NothingToApply(s, a.i);
    } else {
      CommitKeepsDb(s.db, s.selected, c);
      forall j | 0 <= j < |s.clients| && j != a.i
        ensures ClientOk(Apply(s.db, c), s.selected, s.clients[j])
      {
        assert Apart(c, s.clients[j]);
        CommitKeepsOther(s.db, s.selected, c, s.clients[j]);
      }
    }
  }

  lemma AdvanceApart(s: State, a: Action, j: nat)
    requires Inv(s) && Enabled(s, a) && !a.Resubscribe? && j < |s.clients| && j != a.i
    ensures Apart(Advance(s, a), s.clients[j]) && Apart(s.clients[j], Advance(s, a))
  {
    hide DbOk, Answers, Fanned;
    assert Apart(s.clients[a.i], s.clients[j]) && Apart(s.clients[j], s.clients[a.i]);
    assert ClientOk(s.db, s.selected, s.clients[j]);
  }

  lemma AdvanceOk(s: State, a: Action)
    requires Inv(s) && Enabled(s, a) && !a.Resubscribe?
    ensures ClientOk(Next(s, a).db, Next(s, a).selected, Advance(s, a))
  {
    hide Inv, ClientOk, Advance;
    match a
    case InsertDelivery(_, _) => InsertDeliveryOk(s, a);
    case Gather(_) => GatherOk(s, a);
    case SelectEndpoints(_) => SelectOk(s, a);
    case Commit(_) => CommitSelfOk(s, a);
    case CommitError(_, applied) => if applied { CommitSelfOk(s, a); } else { LocalOk(s, a); }
    case _ => LocalOk(s, a);
  }

  lemma OthersOk(s: State, a: Action)
    requires Inv(s) && Enabled(s, a) && !a.Resubscribe?
    ensures DbOk(Next(s, a).db, Next(s, a).selected)
    ensures forall j :: 0 <= j < |s.clients| && j != a.i ==> ClientOk(Next(s, a).db, Next(s, a).selected, s.clients[j])
  {
    hide DbOk, Advance;
    var c := s.clients[a.i];
    assert ClientOk(s.db, s.selected, c);
    if Commits(a) {
      CommitOthersOk(s, a);
    } else if a.SelectEndpoints? {
      var found := Subscribers(s.db, c.record.key.workspace, c.record.eventType);
      SelectKeepsDb(s.db, s.selected, c.record.id, found);
      forall j | 0 <= j < |s.clients| && j != a.i
        ensures ClientOk(s.db, Next(s, a).selected, s.clients[j])
      {
        assert Apart(c, s.clients[j]);
        SelectKeepsOther(s.db, s.selected, c.record.id, found, s.clients[j]);
      }
    }
  }

  lemma SameRowsOk(db: Db, db': Db, selected: map<Id, set<Id>>, c: Client)
    requires ClientOk(db, selected, c) && db'.events == db.events && db'.deliveries == db.deliveries
    ensures ClientOk(db', selected, c)
  {
    hide Fanned;
    assert forall ws, ev :: DeliveriesOf(db', ws, ev) == DeliveriesOf(db, ws, ev);
  }

  lemma SameRowsDb(db: Db, db': Db, selected: map<Id, set<Id>>)
    requires DbOk(db, selected) && db'.events == db.events && db'.deliveries == db.deliveries
    ensures DbOk(db', selected)
  {
    assert forall ws, ev :: DeliveriesOf(db', ws, ev) == DeliveriesOf(db, ws, ev);
    forall k | k in db'.events
      ensures FanoutExact(db', selected, k)
    {
      assert FanoutExact(db, selected, k);
    }
    forall d | d in db'.deliveries
      ensures exists k :: OwnedBy(db', db'.deliveries[d], k)
    {
      var k :| OwnedBy(db, db.deliveries[d], k);
      assert OwnedBy(db', db'.deliveries[d], k);
    }
  }

  lemma ResubscribeOk(s: State, subscriptions: set<Subscription>)
    requires Inv(s)
    ensures Inv(s.(db := s.db.(subscriptions := subscriptions)))
  {
    hide DbOk, ClientOk, Apart;
    var db := s.db.(subscriptions := subscriptions);
    SameRowsDb(s.db, db, s.selected);
    forall i | 0 <= i < |s.clients|
      ensures ClientOk(db, s.selected, s.clients[i])
    {
      SameRowsOk(s.db, db, s.selected, s.clients[i]);
    }
  }

  /** Every step of every caller keeps the invariant. */
  lemma NextInv(s: State, a: Action)
    requires Inv(s) && Enabled(s, a)
    ensures Inv(Next(s, a))
  {
    hide DbOk, ClientOk, Apart, Advance;
    if a.Resubscribe? {
      ResubscribeOk(s, a.subscriptions);
    } else {
      AdvanceOk(s, a);
      OthersOk(s, a);
      forall j | 0 <= j < |s.clients| && j != a.i
        ensures Apart(Advance(s, a), s.clients[j]) && Apart(s.clients[j], Advance(s, a))
      {
        AdvanceApart(s, a, j);
      }
    }
  }

  lemma {:induction false} RunInv(s: State, actions: seq<Action>)
    requires Inv(s) && Runs(s, actions)
    ensures Inv(After(s, actions))
    decreases |actions|
  {
    if actions != [] {
      NextInv(s, actions[0]);
      RunInv(Next(s, actions[0]), actions[1..]);
    }
  }
}
