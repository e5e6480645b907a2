/** When the worker's loop is left, what each outcome does to it, and what the drain reports. */
module SchedulerDecisions {
  import opened Common
  import opened Scheduler
  import opened SchedulerTheorems

  // ----- what each arm does

  /** One more, up to the largest 16-bit number. */
  predicate OneMore(before: int, after: int) {
    after == if before < 32767 then before + 1 else before
  }

  /** Run has left its loop with these errors: it waits for what is in flight, or has returned. */
  predicate LeftWith(s: State, errors: seq<JobResult>) {
    if s.active > 0 then s.phase == Draining(errors, true) else s.phase == Returned(errors)
  }

  /**
   * A claim call has ended. A failed one costs a longer wait and nothing else; only after cancellation, or
   * by a panic, does Run leave its loop. The claims of a filled one are all handed over; one that found
   * nothing forgets the failures and waits longer the more such calls there have been.
   */
  lemma ClaimDecides(c: Config, s: State, o: ClaimOutcome)
    requires Inv(c, s) && s.phase.Claiming?
    ensures var n := Next(c, s, ClaimReturns(o));
      var panicked := o.ClaimPanic? || (o.Rows? && o.n > s.phase.limit);
      && n == s.(phase := n.phase, timer := n.timer, handed := n.handed, workCancelled := n.workCancelled,
                 claimPanicked := n.claimPanicked, emptyPolls := n.emptyPolls, failureBackoff := n.failureBackoff)
      && n.handed == s.handed + (if o.Rows? && !panicked then o.n else 0)
      && (n.claimPanicked <==> s.claimPanicked || (panicked && !s.cancelled))
      && (n.workCancelled <==> s.workCancelled || (panicked && !s.cancelled))
      && (panicked && !s.cancelled ==> LeftWith(n, [Panicked]))
      && ((panicked || o.ClaimError?) && s.cancelled ==> LeftWith(n, []))
      && (o.ClaimError? && !s.cancelled ==>
            n.phase == Looping && OneMore(s.failureBackoff, n.failureBackoff)
            && n.emptyPolls == s.emptyPolls && n.timer == Armed(Poll(n.failureBackoff)))
      && (o == Rows(0) ==>
            n.phase == Looping && OneMore(s.emptyPolls, n.emptyPolls) && n.failureBackoff == 0
            && n.timer == Armed(Poll(n.emptyPolls)))
      && (o.Rows? && 1 <= o.n <= s.phase.limit ==>
            n.phase == Starting(o.n) && n.emptyPolls == s.emptyPolls && n.failureBackoff == s.failureBackoff)
  {
  }

  /** The last job of a filled claim: polls start over, at once while a slot is free. */
  lemma StartDecides(c: Config, s: State)
    requires Inv(c, s) && s.phase.Starting?
    ensures var n := Next(c, s, StartJob);
      && n == s.(phase := n.phase, timer := n.timer, emptyPolls := n.emptyPolls, active := s.active + 1,
                 running := s.running + {s.started}, started := s.started + 1)
      && (s.phase.left > 1 ==> n.phase == Starting(s.phase.left - 1) && n.emptyPolls == s.emptyPolls)
      && (s.phase.left == 1 ==>
            n.phase == Looping && n.emptyPolls == 0
            && n.timer == Armed(if n.active == c.concurrency then Poll(0) else Now))
  {
    hide Conserved, PanicsKept;
  }

  /**
   * A job's result has come in while running. Only a panic ends the loop, and cancels the other jobs; any
   * other failure costs a longer wait, a success forgets the failures before it.
   */
  lemma ResultDecides(c: Config, s: State)
    requires Inv(c, s) && s.phase == Looping && s.done != []
    ensures var n := Next(c, s, TakeResult);
      var r := s.done[0].result;
      && n == s.(phase := n.phase, timer := n.timer, workCancelled := n.workCancelled, active := s.active - 1,
                 done := s.done[1..], received := s.received + [s.done[0]], failureBackoff := n.failureBackoff)
      && (n.workCancelled <==> s.workCancelled || r == Panicked)
      && (r == Panicked ==> LeftWith(n, [Panicked]))
      && (r == Failed || r == Canceled ==>
            n.phase == Looping && OneMore(s.failureBackoff, n.failureBackoff)
            && n.timer == Armed(Poll(n.failureBackoff)))
      && (r == Fine ==> n.phase == Looping && n.failureBackoff == 0 && n.timer == s.timer)
  {
  }

  /** The poll timer: a claim for the free slots, at most a batch; with none free, another wait. */
  lemma PollDecides(c: Config, s: State)
    requires Inv(c, s) && s.phase == Looping && s.timer == Fired
    ensures var n := Next(c, s, TakeTimer);
      var free := c.concurrency - s.active;
      && n == s.(phase := n.phase, timer := n.timer)
      && (free == 0 ==> n.phase == Looping && n.timer == Armed(Poll(0)))
      && (free > 0 ==> n.phase == Claiming(if free < c.batchSize then free else c.batchSize))
  {
  }

  /**
   * A selection of the drain: a result joins the errors unless it is a success or a cancellation, and the
   * last one ends the drain; the force signal cancels the jobs and is used up; the deadline cancels them and
   * returns what there is.
   */
  lemma DrainDecides(c: Config, s: State, a: Action)
    requires Inv(c, s) && s.phase.Draining?
    requires (a == DrainResult && s.done != []) || (a == ForceFires && s.phase.forcePending) || a == DeadlineFires
    ensures var n := Next(c, s, a);
      var errors := s.phase.errors;
      && (a.DrainResult? ==>
            var r := s.done[0].result;
            var joined := if r == Failed || r == Panicked then errors + [r] else errors;
            && n.received == s.received + [s.done[0]] && n.done == s.done[1..]
            && n.active == s.active - 1 && n.workCancelled == s.workCancelled
            && n.phase == if s.active == 1 then Returned(joined) else Draining(joined, s.phase.forcePending))
      && (a.ForceFires? ==> n == s.(workCancelled := true, phase := Draining(errors, false)))
      && (a.DeadlineFires? ==> n == s.(workCancelled := true, phase := Returned(errors)))
  {
  }

  /** What happens outside, and the two ways Run notices that its caller cancelled. */
  lemma OutsideDecides(c: Config, s: State, a: Action)
    requires Inv(c, s)
    requires
      || a == Cancel || (a == TimerFires && s.timer.Armed?) || (a.JobEnds? && a.id in s.running)
      || (a == SeeCancel && s.phase == Looping && s.cancelled)
      || (a == ClaimAbandoned && s.phase.Claiming? && s.cancelled)
    ensures var n := Next(c, s, a);
      && (a == Cancel ==> n == s.(cancelled := true))
      && (a == TimerFires ==> n == s.(timer := Fired))
      && (a.JobEnds? ==> n == s.(running := s.running - {a.id}, done := s.done + [Finished(a.id, a.result)]))
      && (a == SeeCancel || a == ClaimAbandoned ==> LeftWith(n, []) && n == s.(phase := n.phase))
  {
    if a.JobEnds? {
      SendConserves(c, s, Finished(a.id, a.result));
    }
  }

  // ----- over whole runs

  ghost predicate PanicReceived(s: State) {
    exists i :: 0 <= i < |s.received| && s.received[i].result == Panicked
  }

  ghost predicate Happened(actions: seq<Action>, a: Action) {
    exists i :: 0 <= i < |actions| && actions[i] == a
  }

  lemma {:induction false} CancelledByCaller(c: Config, s: State, actions: seq<Action>)
    requires Runs(c, s, actions)
    ensures After(c, s, actions).cancelled ==> s.cancelled || Happened(actions, Cancel)
    decreases |actions|
  {
    if actions != [] {
      CancelledByCaller(c, Next(c, s, actions[0]), actions[1..]);
      assert actions[0] == Cancel ==> Happened(actions, Cancel);
      if Happened(actions[1..], Cancel) {
        var i :| 0 <= i < |actions[1..]| && actions[1..][i] == Cancel;
        assert actions[i + 1] == Cancel;
      }
    }
  }

  ghost predicate LeftForCause(s: State) {
    s.phase.Draining? || s.phase.Returned? ==> s.cancelled || s.claimPanicked || PanicReceived(s)
  }

  lemma CausesStay(c: Config, s: State, a: Action)
    requires Enabled(s, a)
    ensures s.cancelled || s.claimPanicked || PanicReceived(s) ==>
      var n := Next(c, s, a); n.cancelled || n.claimPanicked || PanicReceived(n)
  {
    if PanicReceived(s) {
      var i :| 0 <= i < |s.received| && s.received[i].result == Panicked;
      assert Next(c, s, a).received[i] == s.received[i];
    }
  }

  lemma LeavesForCause(c: Config, s: State, a: Action)
    requires Enabled(s, a) && LeftForCause(s)
    ensures LeftForCause(Next(c, s, a))
  {
    CausesStay(c, s, a);
    if a.TakeResult? && s.done[0].result == Panicked {
      assert Next(c, s, a).received[|s.received|].result == Panicked;
    }
  }

  lemma {:induction false} RunLeavesForCause(c: Config, s: State, actions: seq<Action>)
    requires Runs(c, s, actions) && LeftForCause(s)
    ensures LeftForCause(After(c, s, actions))
    decreases |actions|
  {
    if actions != [] {
      LeavesForCause(c, s, actions[0]);
      RunLeavesForCause(c, Next(c, s, actions[0]), actions[1..]);
    }
  }

  /**
   * Run leaves its loop only because its caller cancelled, because claiming panicked, or because it has
   * received the panic of a job; however many claims and jobs fail, it goes on.
   */
  lemma OnlyCauseEndsRun(c: Config, actions: seq<Action>)
    requires Runs(c, Initial, actions)
    ensures var s := After(c, Initial, actions);
      s.phase.Draining? || s.phase.Returned? ==> Happened(actions, Cancel) || s.claimPanicked || PanicReceived(s)
  {
    RunLeavesForCause(c, Initial, actions);
    CancelledByCaller(c, Initial, actions);
  }

  /** The errors among results, in order. */
  ghost function Reported(fs: seq<Finished>): seq<JobResult> {
    if fs == [] then []
    else
      var r := fs[|fs| - 1].result;
      Reported(fs[..|fs| - 1]) + (if r == Failed || r == Panicked then [r] else [])
  }

  lemma ReportedAppend(fs: seq<Finished>, f: Finished)
    ensures Reported(fs + [f]) == Reported(fs) + (if f.result == Failed || f.result == Panicked then [f.result] else [])
  {
    assert (fs + [f])[..|fs|] == fs;
  }

  lemma DrainStep(c: Config, s: State, a: Action, before: nat, errors: seq<JobResult>)
    requires Enabled(s, a) && (s.phase.Draining? || s.phase.Returned?) && before <= |s.received|
    requires ErrorsOf(s.phase) == errors + Reported(s.received[before..])
    ensures var n := Next(c, s, a);
      && (n.phase.Draining? || n.phase.Returned?) && s.received <= n.received
      && ErrorsOf(n.phase) == errors + Reported(n.received[before..])
  {
    hide Reported;
    var n := Next(c, s, a);
    if a.DrainResult? {
      assert n.received[before..] == s.received[before..] + [s.done[0]];
      ReportedAppend(s.received[before..], s.done[0]);
    } else {
      assert n.received == s.received && ErrorsOf(n.phase) == ErrorsOf(s.phase);
    }
  }

  lemma {:induction false} DrainCollects(
      c: Config, s: State, actions: seq<Action>, before: nat, errors: seq<JobResult>)
    requires Runs(c, s, actions) && (s.phase.Draining? || s.phase.Returned?) && before <= |s.received|
    requires ErrorsOf(s.phase) == errors + Reported(s.received[before..])
    ensures var n := After(c, s, actions);
      && (n.phase.Draining? || n.phase.Returned?) && s.received <= n.received
      && ErrorsOf(n.phase) == errors + Reported(n.received[before..])
    decreases |actions|
  {
    if actions != [] {
      DrainStep(c, s, actions[0], before, errors);
      DrainCollects(c, Next(c, s, actions[0]), actions[1..], before, errors);
    }
  }

  /** Whatever happens once the loop was left, the errors are those it was left with and every later failure. */
  lemma DrainReportsFailures(c: Config, s: State, actions: seq<Action>)
    requires Runs(c, s, actions) && (s.phase.Draining? || s.phase.Returned?)
    ensures var n := After(c, s, actions);
      && (n.phase.Draining? || n.phase.Returned?) && s.received <= n.received
      && n.phase.errors == s.phase.errors + Reported(n.received[|s.received|..])
  {
    assert s.received[|s.received|..] == [];
    assert Reported([]) == [];
    DrainCollects(c, s, actions, |s.received|, s.phase.errors);
  }

  ghost predicate JobsStopped(s: State, actions: seq<Action>) {
    || s.claimPanicked || PanicReceived(s)
    || Happened(actions, ForceFires) || Happened(actions, DeadlineFires)
  }

  lemma HappenedLater(actions: seq<Action>, a: Action)
    requires actions != []
    ensures Happened(actions, a) <==> actions[0] == a || Happened(actions[1..], a)
  {
    if Happened(actions, a) {
      var i :| 0 <= i < |actions| && actions[i] == a;
      assert i > 0 ==> actions[1..][i - 1] == a;
    }
    if Happened(actions[1..], a) {
      var i :| 0 <= i < |actions[1..]| && actions[1..][i] == a;
      assert actions[i + 1] == a;
    }
    assert actions[0] == a ==> Happened(actions, a);
  }

  lemma StoppingStep(c: Config, s: State, a: Action)
    requires Enabled(s, a) && Next(c, s, a).workCancelled && !s.workCancelled
    ensures var n := Next(c, s, a);
      a == ForceFires || a == DeadlineFires || n.claimPanicked || PanicReceived(n)
  {
    if a.TakeResult? {
      assert Next(c, s, a).received[|s.received|].result == Panicked;
    }
  }

  lemma {:induction false} CauseLasts(c: Config, s: State, actions: seq<Action>)
    requires Runs(c, s, actions)
    ensures s.claimPanicked || PanicReceived(s) ==>
      After(c, s, actions).claimPanicked || PanicReceived(After(c, s, actions))
    decreases |actions|
  {
    if actions != [] {
      var n := Next(c, s, actions[0]);
      assert s.claimPanicked ==> n.claimPanicked;
      if PanicReceived(s) {
        var i :| 0 <= i < |s.received| && s.received[i].result == Panicked;
        assert n.received[i] == s.received[i];
      }
      CauseLasts(c, n, actions[1..]);
    }
  }

  /**
   * The running jobs are cancelled only after a panic, by the force signal or by the deadline: cancelling
   * Run by itself lets them finish.
   */
  lemma {:induction false} JobsStopForCause(c: Config, s: State, actions: seq<Action>)
    requires Runs(c, s, actions) && !s.workCancelled && After(c, s, actions).workCancelled
    ensures JobsStopped(After(c, s, actions), actions)
    decreases |actions|
  {
    hide PanicReceived, Happened, Enabled, Next;
    if actions != [] {
      var n := Next(c, s, actions[0]);
      HappenedLater(actions, ForceFires);
      HappenedLater(actions, DeadlineFires);
      CauseLasts(c, n, actions[1..]);
      if n.workCancelled {
        StoppingStep(c, s, actions[0]);
      } else {
        JobsStopForCause(c, n, actions[1..]);
      }
    }
  }
}
