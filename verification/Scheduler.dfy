/**
 * The delivery worker's event loop, its job goroutines and its drain phase as a step machine. Each
 * step is one arm of a select statement, one goroutine's completion, or an outside event.
 */
module Scheduler {
  import opened Common

  type JobId = nat

  /** How one job or one claim call ends; `Canceled` is an error that is `context.Canceled`. */
  datatype JobResult = Fine | Failed | Canceled | Panicked

  datatype Finished = Finished(id: JobId, result: JobResult)

  /** At once, or after the poll policy's delay for a step. */
  datatype Delay = Now | Poll(step: int)

  datatype Timer = Stopped | Armed(delay: Delay) | Fired

  /** The errors joined into what Run will return. */
  datatype Phase =
    | Looping
    | Claiming(limit: int)
    | Starting(left: nat)
    | Draining(errors: seq<JobResult>, forcePending: bool)
    | Returned(errors: seq<JobResult>)

  datatype ClaimOutcome = Rows(n: nat) | ClaimError | ClaimPanic

  datatype Config = Config(concurrency: int, batchSize: int)

  /**
   * `running` are the goroutines that have not sent yet, `done` the buffered channel, `received`
   * what Run took from it, `dropped` the results lost to the default arm of the send, `handed` the
   * number of claims given to Run, `started` the number of jobs started, and `claimPanicked` whether a
   * claim panic was seen while running.
   */
  datatype State = State(
    active: int,
    running: set<JobId>,
    done: seq<Finished>,
    received: seq<Finished>,
    dropped: set<JobId>,
    handed: nat,
    started: nat,
    timer: Timer,
    phase: Phase,
    emptyPolls: int,
    failureBackoff: int,
    cancelled: bool,
    workCancelled: bool,
    claimPanicked: bool)

  datatype Action =
    | Cancel
    | TimerFires
    | JobEnds(id: JobId, result: JobResult)
    | SeeCancel
    | TakeResult
    | TakeTimer
    | ClaimReturns(outcome: ClaimOutcome)
    | ClaimAbandoned
    | StartJob
    | DrainResult
    | ForceFires
    | DeadlineFires

  const MAX_STEP := 32767

  const Initial := State(0, {}, [], [], {}, 0, 0, Armed(Now), Looping, 0, 0, false, false, false)

  predicate ValidConfig(c: Config) {
    1 <= c.concurrency && 1 <= c.batchSize
  }

  function NextBackoffStep(current: int): int {
    if current < MAX_STEP then current + 1 else current
  }

  predicate Enabled(s: State, a: Action) {
    match a
    case Cancel => true
    case TimerFires => s.timer.Armed?
    case JobEnds(id, _) => id in s.running
    case SeeCancel => s.phase == Looping && s.cancelled
    case TakeResult => s.phase == Looping && s.done != []
    case TakeTimer => s.phase == Looping && s.timer == Fired
    case ClaimReturns(_) => s.phase.Claiming?
    case ClaimAbandoned => s.phase.Claiming? && s.cancelled
    case StartJob => s.phase.Starting?
    case DrainResult => s.phase.Draining? && s.done != []
    case ForceFires => s.phase.Draining? && s.phase.forcePending
    case DeadlineFires => s.phase.Draining?
  }

  /** Entering the drain phase: with nothing in flight Run returns at once. */
  function Drain(s: State, errors: seq<JobResult>): State {
    s.(phase := if s.active == 0 then Returned(errors) else Draining(errors, true))
  }

  /** The send of a finished job: buffered when the channel has room, lost otherwise. */
  function Send(c: Config, s: State, f: Finished): State {
    var left := s.(running := s.running - {f.id});
    if |s.done| < c.concurrency then left.(done := s.done + [f]) else left.(dropped := s.dropped + {f.id})
  }

  function Receive(s: State): State
    requires s.done != []
  {
    s.(done := s.done[1..], received := s.received + [s.done[0]], active := s.active - 1)
  }

  /** The claims a claim call brings: none, or some whose jobs are then started one at a time. */
  function TakeClaims(s: State, n: nat): State {
    if n == 0 then
      var polls := NextBackoffStep(s.emptyPolls);
      s.(failureBackoff := 0, emptyPolls := polls, phase := Looping, timer := Armed(Poll(polls)))
    else s.(handed := s.handed + n, phase := Starting(n))
  }

  /** One job more; after the last one the next poll is due at once, or later if every slot is taken. */
  function StartOne(c: Config, s: State, left: nat): State {
    var t := s.(active := s.active + 1, running := s.running + {s.started}, started := s.started + 1);
    if left <= 1 then
      t.(emptyPolls := 0, phase := Looping, timer := Armed(if t.active >= c.concurrency then Poll(0) else Now))
    else t.(phase := Starting(left - 1))
  }

  /** The store indexes one attempt id per row, so more rows than asked for are a panic. */
  function Bounded(limit: int, o: ClaimOutcome): ClaimOutcome {
    if o.Rows? && o.n > limit then ClaimPanic else o
  }

  /** One failure more, and the next poll that much later. */
  function BackOff(s: State): State {
    var failures := NextBackoffStep(s.failureBackoff);
    s.(failureBackoff := failures, timer := Armed(Poll(failures)))
  }

  function AfterClaim(c: Config, s: State, o: ClaimOutcome): State {
    match o
    case Rows(n) => TakeClaims(s, n)
    case ClaimError =>
      if s.cancelled then Drain(s, [])
      else BackOff(s).(phase := Looping)
    case ClaimPanic =>
      if s.cancelled then Drain(s, []) else Drain(s.(workCancelled := true, claimPanicked := true), [Panicked])
  }

  function AfterResult(s: State, r: JobResult): State {
    if r == Panicked then Drain(s.(workCancelled := true), [Panicked])
    else if r != Fine then BackOff(s)
    else s.(failureBackoff := 0)
  }

  function Joined(errors: seq<JobResult>, r: JobResult): seq<JobResult> {
    if r != Fine && r != Canceled then errors + [r] else errors
  }

  function Next(c: Config, s: State, a: Action): State
    requires Enabled(s, a)
  {
    match a
    case Cancel => s.(cancelled := true)
    case TimerFires => s.(timer := Fired)
    case JobEnds(id, r) => Send(c, s, Finished(id, r))
    case SeeCancel => Drain(s, [])
    case TakeResult => AfterResult(Receive(s), s.done[0].result)
    case TakeTimer =>
      var slots := c.concurrency - s.active;
      if slots <= 0 then s.(timer := Armed(Poll(0)))
      else s.(timer := Stopped, phase := Claiming(Min(slots, c.batchSize)))
    case ClaimReturns(o) => AfterClaim(c, s, Bounded(s.phase.limit, o))
    case ClaimAbandoned => Drain(s, [])
    case StartJob => StartOne(c, s, s.phase.left)
    case DrainResult =>
      var t := Receive(s);
      var errors := Joined(s.phase.errors, s.done[0].result);
      t.(phase := if t.active > 0 then Draining(errors, s.phase.forcePending) else Returned(errors))
    case ForceFires => s.(workCancelled := true, phase := Draining(s.phase.errors, false))
    case DeadlineFires => s.(workCancelled := true, phase := Returned(s.phase.errors))
  }

  predicate Runs(c: Config, s: State, actions: seq<Action>)
    decreases |actions|
  {
    actions == [] || (Enabled(s, actions[0]) && Runs(c, Next(c, s, actions[0]), actions[1..]))
  }

  function After(c: Config, s: State, actions: seq<Action>): State
    requires Runs(c, s, actions)
    decreases |actions|
  {
    if actions == [] then s else After(c, Next(c, s, actions[0]), actions[1..])
  }

  // ----- the invariant

  function Ids(fs: seq<Finished>): set<JobId> {
    set f <- fs :: f.id
  }

  ghost predicate NoRepeat(fs: seq<Finished>) {
    forall i, j :: 0 <= i < j < |fs| ==> fs[i].id != fs[j].id
  }

  function InFlight(s: State): int {
    |s.running| + |s.done|
  }

  /** The three sets are disjoint and together hold the ids below n. */
  ghost predicate Partition(a: set<JobId>, b: set<JobId>, d: set<JobId>, n: nat) {
    && (forall x :: x in a ==> x < n && x !in b && x !in d)
    && (forall x :: x in b ==> x < n && x !in d)
    && (forall x :: x in d ==> x < n)
    && (forall x: JobId :: x < n ==> x in a || x in b || x in d)
  }

  /** Every started job is in exactly one place, and none is lost. */
  ghost predicate Conserved(s: State) {
    && Partition(s.running, Ids(s.done), Ids(s.received), s.started)
    && NoRepeat(s.done) && NoRepeat(s.received)
    && s.dropped == {}
  }

  function ErrorsOf(p: Phase): seq<JobResult> {
    if p.Draining? || p.Returned? then p.errors else []
  }

  /** Every panic Run has received, from a job or while claiming, is in what it returns. */
  ghost predicate PanicsKept(s: State) {
    (s.claimPanicked || exists i :: 0 <= i < |s.received| && s.received[i].result == Panicked)
    ==> Panicked in ErrorsOf(s.phase)
  }

  /** Claims handed over whose jobs are still to be started. */
  function Unstarted(s: State): nat {
    if s.phase.Starting? then s.phase.left else 0
  }

  ghost predicate PhaseOk(c: Config, s: State) {
    match s.phase
    case Looping => s.timer != Stopped
    case Starting(left) => 1 <= left <= c.concurrency - s.active
    case Claiming(limit) => 1 <= limit <= c.concurrency - s.active && limit <= c.batchSize
    case Draining(_, forcePending) => s.active > 0 && (!forcePending ==> s.workCancelled)
    case Returned(_) => s.active == 0 || s.workCancelled
  }

  ghost predicate Inv(c: Config, s: State) {
    && ValidConfig(c)
    && Conserved(s)
    && InFlight(s) == s.active <= c.concurrency
    && PhaseOk(c, s) && PanicsKept(s)
    && s.handed == s.started + Unstarted(s)
    && 0 <= s.emptyPolls <= MAX_STEP && 0 <= s.failureBackoff <= MAX_STEP
  }
}
