/** What the worker's event loop keeps over every run. */
module SchedulerTheorems {
  import opened Common
  import opened Scheduler

  // ----- conservation of jobs

  lemma {:induction false} IdsSize(fs: seq<Finished>)
    requires NoRepeat(fs)
    ensures |Ids(fs)| == |fs|
  {
    if fs != [] {
      var rest := fs[1..];
      assert NoRepeat(rest);
      IdsSize(rest);
      assert Ids(fs) == {fs[0].id} + Ids(rest);
      assert fs[0].id !in Ids(rest);
    }
  }

  lemma IdsAppend(fs: seq<Finished>, f: Finished)
    ensures Ids(fs + [f]) == Ids(fs) + {f.id}
    ensures NoRepeat(fs) && f.id !in Ids(fs) ==> NoRepeat(fs + [f])
  {
    assert forall g :: g in fs + [f] <==> g in fs || g == f;
    assert forall i :: 0 <= i < |fs| ==> fs[i] in fs && fs[i].id in Ids(fs);
  }

  lemma IdsTail(fs: seq<Finished>)
    requires fs != [] && NoRepeat(fs)
    ensures NoRepeat(fs[1..]) && fs[0].id !in Ids(fs[1..]) && Ids(fs) == Ids(fs[1..]) + {fs[0].id}
  {
    assert fs == [fs[0]] + fs[1..];
    assert forall g :: g in fs <==> g in fs[1..] || g == fs[0];
  }

  lemma ReceiveConserves(s: State)
    requires Conserved(s) && s.done != []
    ensures Conserved(Receive(s)) && InFlight(Receive(s)) == InFlight(s) - 1
  {
    IdsTail(s.done);
    IdsAppend(s.received, s.done[0]);
    hide Ids, NoRepeat;
    PartitionMoves(s.running, Ids(s.done), Ids(s.done[1..]), Ids(s.received), s.done[0].id, s.started);
  }

  lemma PartitionMoves(a: set<JobId>, b: set<JobId>, b': set<JobId>, d: set<JobId>, x: JobId, n: nat)
    requires Partition(a, b, d, n) && b == b' + {x} && x !in b'
    ensures Partition(a, b', d + {x}, n) && x !in d
  {
  }

  /** A sender always finds room: the default arm of the non-blocking send is never taken. */
  lemma SendConserves(c: Config, s: State, f: Finished)
    requires Conserved(s) && f.id in s.running && InFlight(s) <= c.concurrency
    ensures |s.done| < c.concurrency
    ensures Conserved(Send(c, s, f)) && InFlight(Send(c, s, f)) == InFlight(s)
  {
    PartitionSends(s.running, Ids(s.done), Ids(s.received), f.id, s.started);
    IdsAppend(s.done, f);
    hide Ids, NoRepeat, Partition;
  }

  lemma PartitionSends(a: set<JobId>, b: set<JobId>, d: set<JobId>, x: JobId, n: nat)
    requires Partition(a, b, d, n) && x in a
    ensures Partition(a - {x}, b + {x}, d, n) && x !in b && |a - {x}| == |a| - 1
  {
  }

  lemma StartConserves(s: State)
    requires Conserved(s)
    ensures var t := s.(running := s.running + {s.started}, started := s.started + 1);
      Conserved(t) && InFlight(t) == InFlight(s) + 1
  {
    hide Ids, NoRepeat;
    assert s.started !in s.running;
  }

  lemma DisjointSize(a: set<JobId>, b: set<JobId>)
    requires forall x :: x in a ==> x !in b
    ensures |a + b| == |a| + |b|
  {
    assert a !! b;
  }

  // ----- one step

  lemma DrainInv(c: Config, s: State, errors: seq<JobResult>)
    requires ValidConfig(c) && Conserved(s) && InFlight(s) == s.active <= c.concurrency
    requires PanicsKept(s.(phase := Returned(errors)))
    requires 0 <= s.emptyPolls <= MAX_STEP && 0 <= s.failureBackoff <= MAX_STEP && s.handed == s.started
    ensures Inv(c, Drain(s, errors))
  {
  }

  lemma RowsInv(c: Config, s: State, n: nat)
    requires Inv(c, s) && s.phase.Claiming? && n <= s.phase.limit
    ensures Inv(c, TakeClaims(s, n))
  {
    hide Conserved;
    SameJobs(s, TakeClaims(s, n));
  }

  lemma StartInv(c: Config, s: State)
    requires Inv(c, s) && s.phase.Starting?
    ensures Inv(c, StartOne(c, s, s.phase.left))
  {
    StartConserves(s);
    hide Conserved, InFlight;
    var t := s.(running := s.running + {s.started}, started := s.started + 1);
    SameJobs(t, StartOne(c, s, s.phase.left));
    SameFlight(t, StartOne(c, s, s.phase.left));
  }

  lemma SameFlight(s: State, t: State)
    requires t.running == s.running && t.done == s.done
    ensures InFlight(t) == InFlight(s)
  {
  }

  lemma ClaimPanicInv(c: Config, s: State)
    requires Inv(c, s) && s.phase.Claiming?
    ensures Inv(c, Drain(s.(workCancelled := true, claimPanicked := true), [Panicked]))
  {
    hide Conserved;
    var t := s.(workCancelled := true, claimPanicked := true);
    SameJobs(s, t);
    DrainInv(c, t, [Panicked]);
  }

  lemma ClaimErrorInv(c: Config, s: State)
    requires Inv(c, s) && s.phase.Claiming?
    ensures Inv(c, BackOff(s).(phase := Looping))
    ensures Inv(c, Drain(s, []))
  {
    hide Conserved;
    SameJobs(s, BackOff(s).(phase := Looping));
    DrainInv(c, s, []);
  }

  lemma ClaimInv(c: Config, s: State, o: ClaimOutcome)
    requires Inv(c, s) && s.phase.Claiming?
    ensures Inv(c, AfterClaim(c, s, Bounded(s.phase.limit, o)))
  {
    var b := Bounded(s.phase.limit, o);
    if b.Rows? { RowsInv(c, s, b.n); }
    ClaimErrorInv(c, s);
    ClaimPanicInv(c, s);
    hide Inv, Drain, TakeClaims;
  }

  lemma SameJobs(s: State, t: State)
    requires Conserved(s) && t.running == s.running && t.done == s.done && t.received == s.received
    requires t.dropped == s.dropped && t.started == s.started
    ensures Conserved(t)
  {
  }

  lemma TakeResultInv(c: Config, s: State)
    requires Inv(c, s) && s.phase == Looping && s.done != []
    ensures Inv(c, AfterResult(Receive(s), s.done[0].result))
  {
    ReceiveConserves(s);
    hide Conserved;
    var t := Receive(s);
    var r := s.done[0].result;
    if r == Panicked {
      SameJobs(t, t.(workCancelled := true));
      DrainInv(c, t.(workCancelled := true), [Panicked]);
    } else {
      SameJobs(t, AfterResult(t, r));
      assert forall i :: 0 <= i < |t.received| ==>
        t.received[i] == if i < |s.received| then s.received[i] else s.done[0];
    }
  }

  lemma DrainResultInv(c: Config, s: State)
    requires Inv(c, s) && s.phase.Draining? && s.done != []
    ensures Inv(c, Next(c, s, DrainResult))
  {
    ReceiveConserves(s);
    hide Conserved;
    var n := Next(c, s, DrainResult);
    SameJobs(Receive(s), n);
    JoinedKeeps(s.phase.errors, s.done[0].result);
    hide Joined;
    assert forall i :: 0 <= i < |n.received| ==> n.received[i] == if i < |s.received| then s.received[i] else s.done[0];
  }

  lemma JoinedKeeps(errors: seq<JobResult>, r: JobResult)
    ensures Panicked in errors || r == Panicked ==> Panicked in Joined(errors, r)
  {
    if r == Panicked { assert Joined(errors, r)[|errors|] == Panicked; }
  }

  /** Every step keeps the invariant. */
  lemma NextInv(c: Config, s: State, a: Action)
    requires Inv(c, s) && Enabled(s, a)
    ensures Inv(c, Next(c, s, a))
  {
    match a
    case TakeResult => TakeResultInv(c, s);
    case ClaimReturns(o) => ClaimInv(c, s, o);
    case DrainResult => DrainResultInv(c, s);
    case JobEnds(_, _) => JobEndsInv(c, s, a);
    case StartJob => StartInv(c, s);
    case _ => SimpleInv(c, s, a);
  }

  lemma JobEndsInv(c: Config, s: State, a: Action)
    requires Inv(c, s) && Enabled(s, a) && a.JobEnds?
    ensures Inv(c, Next(c, s, a))
  {
    hide Conserved;
    SendConserves(c, s, Finished(a.id, a.result));
  }

  lemma SimpleInv(c: Config, s: State, a: Action)
    requires Inv(c, s) && Enabled(s, a)
    requires !a.TakeResult? && !a.ClaimReturns? && !a.DrainResult? && !a.JobEnds? && !a.StartJob?
    ensures Inv(c, Next(c, s, a))
  {
    hide Conserved;
    if a.SeeCancel? || a.ClaimAbandoned? {
      DrainInv(c, s, []);
    } else {
      SameJobs(s, Next(c, s, a));
    }
  }

  lemma {:induction false} RunInv(c: Config, s: State, actions: seq<Action>)
    requires Inv(c, s) && Runs(c, s, actions)
    ensures Inv(c, After(c, s, actions))
    decreases |actions|
  {
    if actions != [] {
      NextInv(c, s, actions[0]);
      RunInv(c, Next(c, s, actions[0]), actions[1..]);
    }
  }

  // ----- the promises

  function Below(n: nat): (ids: set<JobId>)
    ensures |ids| == n && forall i :: i in ids <==> 0 <= i < n
  {
    if n == 0 then {} else Below(n - 1) + {n - 1}
  }

  lemma PartitionSize(a: set<JobId>, b: set<JobId>, d: set<JobId>, n: nat)
    requires Partition(a, b, d, n)
    ensures |a| + |b| + |d| == n
  {
    hide Below;
    DisjointSize(a, b);
    DisjointSize(a + b, d);
    assert a + b + d == Below(n);
  }

  /**
   * Over every run: `active` counts exactly the running jobs and the buffered results, between 0 and
   * the concurrency; every claim handed to Run has become, or while they are being started will next
   * become, one job that is running, buffered or received, and no result is ever lost, even after the
   * drain gave up.
   */
  lemma NoJobIsLost(c: Config, actions: seq<Action>)
    requires ValidConfig(c) && Runs(c, Initial, actions)
    ensures var s := After(c, Initial, actions);
      && s.active == |s.running| + |s.done| && 0 <= s.active <= c.concurrency
      && |s.running| + |s.done| + |s.received| == s.started == s.handed - Unstarted(s)
      && Partition(s.running, Ids(s.done), Ids(s.received), s.started)
      && s.dropped == {}
      && (s.phase.Returned? && s.active == 0 ==> |s.received| == s.handed)
  {
    RunInv(c, Initial, actions);
    var s := After(c, Initial, actions);
    IdsSize(s.done);
    IdsSize(s.received);
    PartitionSize(s.running, Ids(s.done), Ids(s.received), s.started);
  }

  /** At every loop head a wake-up is due, and every claim asks for 1 up to the free slots. */
  lemma LoopNeverSleepsForever(c: Config, actions: seq<Action>)
    requires ValidConfig(c) && Runs(c, Initial, actions)
    ensures var s := After(c, Initial, actions);
      && (s.phase == Looping ==> Enabled(s, TimerFires) || Enabled(s, TakeTimer))
      && (s.phase.Claiming? ==> 1 <= s.phase.limit <= c.concurrency - s.active && s.phase.limit <= c.batchSize)
  {
    RunInv(c, Initial, actions);
  }

  /** A panic Run has received is returned, and an early return has cancelled the jobs left behind. */
  lemma PanicsAreReturned(c: Config, actions: seq<Action>, i: nat)
    requires ValidConfig(c) && Runs(c, Initial, actions)
    ensures var s := After(c, Initial, actions);
      && (i < |s.received| && s.received[i].result == Panicked ==> Panicked in ErrorsOf(s.phase))
      && (s.claimPanicked ==> Panicked in ErrorsOf(s.phase))
      && (s.phase.Returned? && s.running != {} ==> s.workCancelled)
  {
    RunInv(c, Initial, actions);
  }

  // ----- the drain phase

  function DrainMeasure(s: State): int {
    if s.phase.Draining? then s.active + (if s.phase.forcePending then 1 else 0) else 0
  }

  /** Each drain step lowers active + [force pending], and only drain steps change that phase. */
  lemma DrainTerminates(c: Config, s: State, a: Action)
    requires Inv(c, s) && s.phase.Draining? && Enabled(s, a)
    ensures var n := Next(c, s, a);
      && (a.DrainResult? || a.ForceFires? || a.DeadlineFires? ==> 0 <= DrainMeasure(n) < DrainMeasure(s))
      && (a.Cancel? || a.TimerFires? || a.JobEnds? ==> n.phase == s.phase && n.active == s.active)
  {
  }

  function DrainSteps(actions: seq<Action>): nat {
    if actions == [] then 0
    else
      (if actions[0].DrainResult? || actions[0].ForceFires? || actions[0].DeadlineFires? then 1 else 0)
      + DrainSteps(actions[1..])
  }

  lemma {:induction false} ReturnedStays(c: Config, s: State, actions: seq<Action>)
    requires Inv(c, s) && s.phase.Returned? && Runs(c, s, actions)
    ensures DrainSteps(actions) == 0 && After(c, s, actions).phase == s.phase
    decreases |actions|
  {
    if actions != [] {
      NextInv(c, s, actions[0]);
      ReturnedStays(c, Next(c, s, actions[0]), actions[1..]);
    }
  }

  /** However the run goes on, the drain makes at most active + 1 selections before Run returns. */
  lemma {:induction false} DrainIsBounded(c: Config, s: State, actions: seq<Action>)
    requires Inv(c, s) && s.phase.Draining? && Runs(c, s, actions)
    ensures DrainSteps(actions) + DrainMeasure(After(c, s, actions)) <= DrainMeasure(s)
    decreases |actions|
  {
    if actions != [] {
      var n := Next(c, s, actions[0]);
      NextInv(c, s, actions[0]);
      DrainTerminates(c, s, actions[0]);
      if n.phase.Draining? {
        DrainIsBounded(c, n, actions[1..]);
      } else {
        ReturnedStays(c, n, actions[1..]);
      }
    }
  }

  /** While draining, a job still runs or its result is waiting: the drain is never left to its timers alone. */
  lemma DrainHasSource(c: Config, s: State)
    requires Inv(c, s) && s.phase.Draining?
    ensures s.running != {} || Enabled(s, DrainResult)
  {
  }

  function ForceAfter(shutdown: int): int {
    if shutdown - 5_000_000_000 > 0 then shutdown - 5_000_000_000
    else shutdown / 2
  }

  /** The force timer is set strictly before the deadline, and not in the past. */
  lemma ForceBeforeDeadline(shutdown: int)
    requires shutdown > 0
    ensures 0 <= ForceAfter(shutdown) < shutdown
    ensures shutdown > 5_000_000_000 ==> shutdown - ForceAfter(shutdown) == 5_000_000_000
    ensures shutdown <= 5_000_000_000 ==> 0 <= shutdown - 2 * ForceAfter(shutdown) <= 1
  {
  }
}
