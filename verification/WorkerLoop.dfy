/**
 * The worker's Run and drain as they are written, with their own counters, against an environment that
 * ends jobs, fires timers and cancels at will: every execution is a run of the step machine.
 */
module WorkerLoop {
  import opened Common
  import opened Scheduler
  import SchedulerDecisions
  import SchedulerTheorems

  /** What the environment does by itself; the other steps are arms that Run selects. */
  predicate Outside(a: Action) {
    a.Cancel? || a.TimerFires? || a.JobEnds?
  }

  lemma {:induction false} RunsAppend(c: Config, s: State, actions: seq<Action>, a: Action)
    requires Runs(c, s, actions) && Enabled(After(c, s, actions), a)
    ensures Runs(c, s, actions + [a]) && After(c, s, actions + [a]) == Next(c, After(c, s, actions), a)
    decreases |actions|
  {
    hide Enabled, Next;
    if actions == [] {
      assert [] + [a] == [a] && [a][1..] == [];
    } else {
      assert (actions + [a])[0] == actions[0] && (actions + [a])[1..] == actions[1..] + [a];
      RunsAppend(c, Next(c, s, actions[0]), actions[1..], a);
    }
  }

  /** The parts of the state that only Run changes; a cancellation stays. */
  predicate SameForRun(s: State, t: State) {
    s.active == t.active && s.phase == t.phase && s.emptyPolls == t.emptyPolls && s.failureBackoff == t.failureBackoff
    && s.received == t.received && s.handed == t.handed && s.started == t.started
    && s.claimPanicked == t.claimPanicked && (s.cancelled ==> t.cancelled)
  }

  lemma OutsideSame(c: Config, s: State, a: Action)
    requires Enabled(s, a) && Outside(a)
    ensures SameForRun(s, Next(c, s, a))
    ensures Next(c, s, a).timer == if a == TimerFires then Fired else s.timer
  {
  }

  class World {
    const config: Config
    ghost var trace: seq<Action>
    var state: State
    var timer: Timer
    const script: seq<Action>
    var next: nat

    /** The script is everything that happens, in order; what is not possible when its turn comes does not happen. */
    constructor (config: Config, script: seq<Action>)
      requires ValidConfig(config)
      ensures Valid() && state == Initial && timer == Armed(Now) && trace == [] && next == 0
      ensures this.config == config && this.script == script
    {
      this.config, this.script := config, script;
      trace, state, timer, next := [], Initial, Armed(Now), 0;
    }

    ghost predicate Valid()
      reads this
    {
      && ValidConfig(config) && next <= |script|
      && Runs(config, Initial, trace) && After(config, Initial, trace) == state
    }

    method Do(a: Action)
      requires Valid() && Enabled(state, a)
      modifies `trace, `state
      ensures Valid() && state == Next(config, old(state), a)
      ensures trace == old(trace) + [a]
    {
      hide Enabled, Next;
      RunsAppend(config, Initial, trace, a);
      trace := trace + [a];
      state := Next(config, state, a);
    }

    /** Stop, drain the channel if the timer has fired, and set it again. */
    method ResetTimer(delay: Delay)
      modifies `timer
      ensures timer == Armed(delay)
    {
      timer := Armed(delay);
    }

    /** A select: the environment moves until one of Run's arms is taken, or the script is over. */
    method Select() returns (arm: Option<Action>)
      requires Valid()
      modifies this
      ensures Valid() && SameForRun(old(state), state) && old(next) <= next
      ensures old(timer) == old(state).timer ==> timer == state.timer
      ensures arm.None? ==> next == |script|
      ensures arm.Some? ==> !Outside(arm.value) && Enabled(state, arm.value) && old(next) < next
    {
      hide Runs, After, Enabled, Next;
      arm := None;
      while next < |script|
        invariant Valid() && SameForRun(old(state), state) && old(next) <= next
        invariant old(timer) == old(state).timer ==> timer == state.timer
        decreases |script| - next
      {
        var a := script[next];
        next := next + 1;
        if Enabled(state, a) {
          if !Outside(a) {
            return Some(a);
          }
          OutsideSame(config, state, a);
          Do(a);
          if a == TimerFires {
            timer := Fired;
          }
        }
      }
    }
  }

  /** Waiting for what is in flight; None when the script ended first. */
  method Drain(w: World, active: int, result: seq<JobResult>) returns (r: Option<seq<JobResult>>)
    requires w.Valid() && w.state.active == active >= 0
    requires w.state.phase == if active == 0 then Returned(result) else Draining(result, true)
    modifies w
    ensures w.Valid()
    ensures r.Some? ==> w.state.phase == Returned(r.value)
    ensures r.None? ==> w.state.phase.Draining? && w.next == |w.script|
    ensures old(w.state).cancelled ==> w.state.cancelled
    ensures old(w.state).claimPanicked ==> w.state.claimPanicked
  {
    hide Runs, After;
    if active == 0 {
      return Some(result);
    }
    var left, errors, force := active, result, true;
    while left > 0
      invariant w.Valid() && left == w.state.active >= 0
      invariant w.state.phase == if left == 0 then Returned(errors) else Draining(errors, force)
      invariant old(w.state).cancelled ==> w.state.cancelled
      invariant old(w.state).claimPanicked ==> w.state.claimPanicked
      decreases |w.script| - w.next
    {
      var arm := w.Select();
      if arm.None? {
        return None;
      }
      match arm.value {
        case DrainResult =>
          var err := w.state.done[0].result;
          w.Do(DrainResult);
          left := left - 1;
          if err != Fine && err != Canceled {
            errors := errors + [err];
          }
        case ForceFires =>
          w.Do(ForceFires);
          force := false;
        case DeadlineFires =>
          w.Do(DeadlineFires);
          return Some(errors);
      }
    }
    return Some(errors);
  }

  /** The store's loop over claimed rows: one attempt id per row, and an index past them panics. */
  method CollectClaims(rows: nat, attemptIds: seq<JobId>) returns (r: Option<seq<JobId>>)
    ensures r == if rows <= |attemptIds| then Some(attemptIds[..rows]) else None
  {
    var claims: seq<JobId> := [];
    while |claims| < rows
      invariant |claims| <= rows && |claims| <= |attemptIds| && claims == attemptIds[..|claims|]
    {
      if |claims| >= |attemptIds| {
        return None;
      }
      claims := claims + [attemptIds[|claims|]];
    }
    return Some(claims);
  }

  /** The loop's variables and its timer are those of the machine. */
  predicate Agrees(w: World, active: int, emptyPolls: int, failureBackoff: int)
    reads w
  {
    && w.state.active == active >= 0 && w.state.emptyPolls == emptyPolls && w.state.failureBackoff == failureBackoff
    && w.timer == w.state.timer
  }

  /** One goroutine per claim, with the environment moving in between; false when the script ended first. */
  method StartJobs(w: World, claims: nat, active: int) returns (ended: bool, active': int)
    requires w.Valid() && w.state.phase == Starting(claims) && claims >= 1 && w.state.active == active
    requires w.timer == w.state.timer
    modifies w
    ensures w.Valid() && old(w.next) <= w.next
    ensures w.state.failureBackoff == old(w.state).failureBackoff
    ensures !ended ==> w.state.phase == Looping && w.state.emptyPolls == 0
    ensures !ended ==> active' == w.state.active == active + claims
    ensures !ended ==> w.state.timer == Armed(if active' >= w.config.concurrency then Poll(0) else Now)
    ensures ended ==> !w.state.phase.Returned? && w.next == |w.script|
  {
    hide Runs, After;
    active', ended := active, false;
    var left := claims;
    while left > 0
      invariant w.Valid() && old(w.next) <= w.next
      invariant left <= claims && active' == w.state.active == active + claims - left
      invariant w.state.failureBackoff == old(w.state).failureBackoff
      invariant left > 0 ==> w.state.phase == Starting(left)
      invariant left == 0 ==>
        && w.state.phase == Looping && w.state.emptyPolls == 0
        && w.state.timer == Armed(if active' >= w.config.concurrency then Poll(0) else Now)
    {
      var arm := w.Select();
      if arm.None? {
        return true, active';
      }
      active' := active' + 1;
      w.Do(StartJob);
      left := left - 1;
    }
  }

  /**
   * One claim and what Run does with it. When Run is to return from here it is `stopped`, with the result
   * if there is one.
   */
  method ClaimAndStart(w: World, active: int, emptyPolls: int, failureBackoff: int)
    returns (stopped: bool, r: Option<seq<JobResult>>, active': int, emptyPolls': int, failureBackoff': int)
    requires w.Valid() && w.state.phase.Claiming? && Agrees(w, active, emptyPolls, failureBackoff)
    modifies w
    ensures w.Valid() && (!stopped ==> old(w.next) < w.next)
    ensures !stopped ==> w.state.phase == Looping && Agrees(w, active', emptyPolls', failureBackoff')
    ensures !stopped ==>
      || (active' == active && emptyPolls' == emptyPolls && SchedulerDecisions.OneMore(failureBackoff, failureBackoff'))
      || (active' == active && failureBackoff' == 0 && SchedulerDecisions.OneMore(emptyPolls, emptyPolls'))
      || (active' > active && failureBackoff' == failureBackoff && emptyPolls' == 0)
    ensures stopped && r.Some? ==> w.state.cancelled || w.state.claimPanicked
    ensures stopped && r.Some? ==> w.state.phase == Returned(r.value)
    ensures stopped && r.None? ==> !w.state.phase.Returned? && w.next == |w.script|
  {
    hide Runs, After;
    stopped, r := true, None;
    active', emptyPolls', failureBackoff' := active, emptyPolls, failureBackoff;
    var limit := w.state.phase.limit;
    var arm := w.Select();
    if arm.None? {
      return;
    }
    var cancelled := w.state.cancelled;
    w.Do(arm.value);
    if arm.value == ClaimAbandoned {
      r := Drain(w, active, []);
      return;
    }
    var outcome := Bounded(limit, arm.value.outcome);
    if !outcome.Rows? {
      if cancelled {
        r := Drain(w, active, []);
        return;
      }
      if outcome.ClaimPanic? {
        r := Drain(w, active, [Panicked]);
        return;
      }
      failureBackoff' := NextBackoffStep(failureBackoff);
      w.ResetTimer(Poll(failureBackoff'));
      stopped := false;
      return;
    }
    if outcome.n == 0 {
      failureBackoff' := 0;
      emptyPolls' := NextBackoffStep(emptyPolls);
      w.ResetTimer(Poll(emptyPolls'));
    } else {
      var ended;
      ended, active' := StartJobs(w, outcome.n, active);
      if ended {
        return;
      }
      emptyPolls' := 0;
      w.ResetTimer(if active' >= w.config.concurrency then Poll(0) else Now);
    }
    stopped := false;
  }

  /**
   * The event loop. Its three counters and its timer stay those of the step machine, it returns exactly the
   * errors the machine returns, and the machine's invariant holds of the state it leaves behind. It returns
   * for a cause only: its caller cancelled, claiming panicked, or it received the panic of a job.
   */
  method Run(w: World) returns (r: Option<seq<JobResult>>)
    requires w.Valid() && w.state == Initial && w.timer == Armed(Now)
    modifies w
    ensures w.Valid() && Inv(w.config, w.state)
    ensures r.Some? ==> w.state.phase == Returned(r.value)
    ensures r.Some? ==>
      || SchedulerDecisions.Happened(w.trace, Cancel) || w.state.claimPanicked
      || SchedulerDecisions.PanicReceived(w.state)
    ensures r.None? ==> !w.state.phase.Returned? && w.next == |w.script|
  {
    hide Runs, After, Inv, SchedulerDecisions.Happened, SchedulerDecisions.PanicReceived;
    var active, emptyPolls, failureBackoff := 0, 0, 0;
    r := None;
    while true
      invariant w.Valid() && w.state.phase == Looping && r.None?
      invariant Agrees(w, active, emptyPolls, failureBackoff)
      decreases |w.script| - w.next
    {
      var arm := w.Select();
      if arm.None? {
        break;
      }
      if arm.value == SeeCancel {
        w.Do(SeeCancel);
        r := Drain(w, active, []);
        break;
      } else if arm.value == TakeResult {
        var err := w.state.done[0].result;
        ActiveCountsResults(w.config, w.trace, w.state);
        w.Do(TakeResult);
        active := active - 1;
        if err == Panicked {
          r := Drain(w, active, [Panicked]);
          break;
        }
        if err != Fine {
          failureBackoff := NextBackoffStep(failureBackoff);
          w.ResetTimer(Poll(failureBackoff));
        } else {
          failureBackoff := 0;
        }
      } else {
        var slots := w.config.concurrency - active;
        w.Do(TakeTimer);
        w.timer := Stopped;
        if slots <= 0 {
          w.ResetTimer(Poll(0));
        } else {
          var stopped, result;
          stopped, result, active, emptyPolls, failureBackoff := ClaimAndStart(w, active, emptyPolls, failureBackoff);
          if stopped {
            r := result;
            break;
          }
        }
      }
    }
    ReachedInv(w.config, w.trace);
    SchedulerDecisions.OnlyCauseEndsRun(w.config, w.trace);
  }

  lemma ReachedInv(c: Config, actions: seq<Action>)
    requires ValidConfig(c) && Runs(c, Initial, actions)
    ensures Inv(c, After(c, Initial, actions))
  {
    SchedulerTheorems.RunInv(c, Initial, actions);
  }

  lemma ActiveCountsResults(c: Config, actions: seq<Action>, s: State)
    requires ValidConfig(c) && Runs(c, Initial, actions) && s == After(c, Initial, actions) && s.done != []
    ensures s.active >= 1
  {
    SchedulerTheorems.NoJobIsLost(c, actions);
  }
}
