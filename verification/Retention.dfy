/** The retention runner: purge in bounded sweeps until nothing moves, then look at what is left. */
module Retention {
  import opened Common
  import opened Arith

  datatype Counts = Counts(
    payloads: int, secrets: int, attempts: int, replays: int, rotations: int,
    deliveries: int, events: int, audits: int, buckets: int, sessions: int,
    workspaceRows: int, workspaceSteps: int)

  const BATCH := 100

  const NOTHING := Counts(0, 0, 0, 0, 0, 0, 0, 0, 0, 0, 0, 0)

  function Progress(c: Counts): int {
    c.payloads + c.secrets + c.attempts + c.replays + c.rotations + c.deliveries + c.events + c.audits
    + c.buckets + c.sessions + c.workspaceRows + c.workspaceSteps
  }

  function Add(a: Counts, b: Counts): Counts {
    Counts(a.payloads + b.payloads, a.secrets + b.secrets, a.attempts + b.attempts, a.replays + b.replays,
           a.rotations + b.rotations, a.deliveries + b.deliveries, a.events + b.events, a.audits + b.audits,
           a.buckets + b.buckets, a.sessions + b.sessions,
           a.workspaceRows + b.workspaceRows, a.workspaceSteps + b.workspaceSteps)
  }

  /** A sweep reports counts even when it fails. */
  datatype Sweep = Sweep(counts: Counts, failed: bool)

  datatype Backlog = Unavailable | Backlog(total: int, oldest: Option<int>)

  /** What the store will answer to its k-th purge, and to a scan of the backlog after k purges. */
  datatype Script = Script(purge: nat -> Sweep, scan: nat -> Backlog)

  datatype RunError = PurgeFailed | ScanFailed | Leftover

  /** lastOk is None for the zero time. */
  datatype Report = Report(
    counts: Counts, backlog: int, oldestAge: int, duration: int, batches: nat, lastOk: Option<int>, degraded: bool)

  /** The clock readings of one run, in order. */
  datatype Clock = Clock(started: int, scanned: int, drained: int, finished: int)

  // ----- the specification

  predicate Productive(s: Sweep) {
    !s.failed && Progress(s.counts) > 0
  }

  /** The k-th sweep is the first that fails or moves nothing. */
  ghost predicate StopsAt(purge: nat -> Sweep, k: nat) {
    (forall j: nat :: j < k ==> Productive(purge(j))) && !Productive(purge(k))
  }

  lemma StopIsUnique(purge: nat -> Sweep, a: nat, b: nat)
    requires StopsAt(purge, a) && StopsAt(purge, b)
    ensures a == b
  {
  }

  function Total(purge: nat -> Sweep, n: nat): Counts {
    if n == 0 then NOTHING else Add(Total(purge, n - 1), purge(n - 1).counts)
  }

  /** How a run that stops at sweep k ends. */
  function ErrorOf(s: Script, k: nat): Option<RunError> {
    if s.purge(k).failed then Some(PurgeFailed)
    else if s.scan(k + 1).Unavailable? then Some(ScanFailed)
    else if s.scan(k + 1).total != 0 then Some(Leftover)
    else None
  }

  function ReportOf(s: Script, k: nat, clock: Clock): Report {
    var scan := s.scan(k + 1);
    var scanned := !s.purge(k).failed && scan.Backlog?;
    Report(
      Total(s.purge, k + 1),
      if scanned then scan.total else 0,
      if scanned && scan.total > 0 && scan.oldest.Some? then Max(clock.scanned - scan.oldest.value, 0) else 0,
      clock.finished - clock.started,
      k + 1,
      if ErrorOf(s, k).None? then Some(clock.drained) else None,
      ErrorOf(s, k).Some?)
  }

  /** Work that every productive sweep lowers. */
  ghost predicate Bounded(purge: nat -> Sweep, work: nat -> nat) {
    forall k: nat :: Productive(purge(k)) ==> work(k + 1) < work(k)
  }

  // ----- the store and the runner

  class Store {
    const script: Script
    var purges: nat
    var scans: nat
    var asked: seq<int>

    constructor (script: Script)
      ensures this.script == script && purges == 0 && scans == 0 && asked == []
    {
      this.script := script;
      purges, scans, asked := 0, 0, [];
    }

    /** One sweep, of at most `limit` rows of each kind. */
    method Purge(limit: int) returns (s: Sweep)
      modifies this
      ensures s == script.purge(old(purges)) && purges == old(purges) + 1 && scans == old(scans)
      ensures asked == old(asked) + [limit]
    {
      s := script.purge(purges);
      purges, asked := purges + 1, asked + [limit];
    }

    method ScanBacklog() returns (b: Backlog)
      modifies this
      ensures b == script.scan(purges) && scans == old(scans) + 1 && purges == old(purges)
      ensures asked == old(asked)
    {
      b := script.scan(purges);
      scans := scans + 1;
    }
  }

  const HOUR := 3_600_000_000_000

  class Runner {
    var report: Report
    var lastErr: Option<RunError>

    constructor ()
      ensures Valid() && report.lastOk.None? && lastErr.None?
    {
      report := Report(NOTHING, 0, 0, 0, 0, None, false);
      lastErr := None;
    }

    /** A time of success is only ever that of a run without error or backlog. */
    ghost predicate Valid()
      reads this
    {
      report.lastOk.Some? ==> lastErr.None? && !report.degraded && report.backlog == 0
    }

    /** A run ends, sums all its sweeps, and scans the backlog once, or never after a failed sweep. */
    method RunOnce(store: Store, clock: Clock, ghost work: nat -> nat) returns (ghost k: nat)
      requires Valid() && store.purges == 0 && store.scans == 0 && store.asked == []
      requires Bounded(store.script.purge, work)
      modifies this, store
      ensures Valid()
      ensures StopsAt(store.script.purge, k)
      ensures report == ReportOf(store.script, k, clock) && lastErr == ErrorOf(store.script, k)
      ensures store.purges == k + 1 == |store.asked| && forall j :: 0 <= j <= k ==> store.asked[j] == 100
      ensures store.scans == if store.script.purge(k).failed then 0 else 1
    {
      hide Add, Progress;
      var current := Report(NOTHING, 0, 0, 0, 0, None, false);
      var runErr: Option<RunError> := None;
      while true
        invariant store.purges == current.batches && store.scans == 0 && runErr.None?
        invariant current == Report(Total(store.script.purge, store.purges), 0, 0, 0, store.purges, None, false)
        invariant |store.asked| == store.purges && forall j :: 0 <= j < store.purges ==> store.asked[j] == BATCH
        invariant forall j: nat :: j < store.purges ==> Productive(store.script.purge(j))
        decreases work(store.purges)
      {
        k := store.purges;
        var batch := store.Purge(BATCH);
        current := current.(batches := current.batches + 1, counts := Add(current.counts, batch.counts));
        if batch.failed {
          runErr := Some(PurgeFailed);
          break;
        }
        if Progress(batch.counts) > 0 {
          continue;
        }
        var backlog := store.ScanBacklog();
        if backlog.Unavailable? {
          runErr := Some(ScanFailed);
          break;
        }
        current := current.(backlog := backlog.total, oldestAge := 0);
        if backlog.total > 0 && backlog.oldest.Some? {
          current := current.(oldestAge := Max(clock.scanned - backlog.oldest.value, 0));
        }
        if backlog.total == 0 {
          current := current.(lastOk := Some(clock.drained));
          break;
        }
        runErr := Some(Leftover);
        break;
      }
      current := current.(duration := clock.finished - clock.started, degraded := runErr.Some?);
      report, lastErr := current, runErr;
    }

    /** Ready means that the latest run drained everything at most 25 hours ago. */
    method Ready(now: int) returns (ok: bool)
      requires Valid()
      ensures ok <==> lastErr.None? && report.lastOk.Some? && now - report.lastOk.value <= 90_000_000_000_000
      ensures ok ==> !report.degraded && report.backlog == 0
    {
      if lastErr.Some? || report.lastOk.None? || now - report.lastOk.value > 25 * HOUR {
        return false;
      }
      return true;
    }
  }

  // ----- conservation and length

  lemma ProgressAdds(a: Counts, b: Counts)
    ensures Progress(Add(a, b)) == Progress(a) + Progress(b)
  {
  }

  /** When sweeps lower the work by exactly what they report, the report accounts for all of it. */
  lemma {:induction false} ReportAccountsForWork(purge: nat -> Sweep, work: nat -> nat, n: nat)
    requires forall k: nat :: k < n ==> work(k + 1) == work(k) - Progress(purge(k).counts)
    ensures Progress(Total(purge, n)) == work(0) - work(n)
  {
    if n > 0 {
      ReportAccountsForWork(purge, work, n - 1);
      ProgressAdds(Total(purge, n - 1), purge(n - 1).counts);
      assert work(n - 1 + 1) == work(n - 1) - Progress(purge(n - 1).counts);
    }
  }

  /** One field summed over the first n sweeps. */
  function Sum(purge: nat -> Sweep, field: Counts -> int, n: nat): int {
    if n == 0 then 0 else Sum(purge, field, n - 1) + field(purge(n - 1).counts)
  }

  /** Every field of the total is the sum of that field over the sweeps. */
  lemma {:induction false} TotalByField(purge: nat -> Sweep, n: nat)
    ensures var t := Total(purge, n);
      && t.payloads == Sum(purge, (c: Counts) => c.payloads, n)
      && t.secrets == Sum(purge, (c: Counts) => c.secrets, n)
      && t.attempts == Sum(purge, (c: Counts) => c.attempts, n)
      && t.replays == Sum(purge, (c: Counts) => c.replays, n)
      && t.rotations == Sum(purge, (c: Counts) => c.rotations, n)
      && t.deliveries == Sum(purge, (c: Counts) => c.deliveries, n)
      && t.events == Sum(purge, (c: Counts) => c.events, n)
      && t.audits == Sum(purge, (c: Counts) => c.audits, n)
      && t.buckets == Sum(purge, (c: Counts) => c.buckets, n)
      && t.sessions == Sum(purge, (c: Counts) => c.sessions, n)
      && t.workspaceRows == Sum(purge, (c: Counts) => c.workspaceRows, n)
      && t.workspaceSteps == Sum(purge, (c: Counts) => c.workspaceSteps, n)
  {
    if n > 0 {
      TotalByField(purge, n - 1);
    }
  }

  /** A sweep that leaves a run going: it did not fail, and its twelve counts add up to more than zero. */
  ghost predicate Moved(s: Sweep) {
    var c := s.counts;
    && !s.failed
    && c.payloads + c.secrets + c.attempts + c.replays + c.rotations + c.deliveries + c.events + c.audits
       + c.buckets + c.sessions + c.workspaceRows + c.workspaceSteps > 0
  }

  /**
   * How a run ends. Its last sweep is the first that failed or moved nothing. A failed sweep, a failed scan
   * and rows left over degrade it; only a run that leaves nothing has a time of success. The age is that of
   * the oldest row left over, and never negative.
   */
  lemma RunDecides(s: Script, k: nat, clock: Clock)
    requires StopsAt(s.purge, k)
    ensures (forall j: nat :: j < k ==> Moved(s.purge(j))) && !Moved(s.purge(k))
    ensures var r, e := ReportOf(s, k, clock), ErrorOf(s, k);
      var scan := s.scan(k + 1);
      && r.batches == k + 1 && r.duration == clock.finished - clock.started
      && (r.degraded <==> e.Some?)
      && (s.purge(k).failed ==> e == Some(PurgeFailed) && r.backlog == 0 && r.oldestAge == 0 && r.lastOk.None?)
      && (!s.purge(k).failed && scan.Unavailable? ==>
            e == Some(ScanFailed) && r.backlog == 0 && r.oldestAge == 0 && r.lastOk.None?)
      && (!s.purge(k).failed && scan.Backlog? && scan.total == 0 ==>
            e.None? && r.backlog == 0 && r.oldestAge == 0 && r.lastOk == Some(clock.drained))
      && (!s.purge(k).failed && scan.Backlog? && scan.total != 0 ==>
            && e == Some(Leftover) && r.backlog == scan.total && r.lastOk.None?
            && (scan.total < 0 || scan.oldest.None? ==> r.oldestAge == 0)
            && (scan.total > 0 && scan.oldest.Some? ==>
                  r.oldestAge == if clock.scanned < scan.oldest.value then 0 else clock.scanned - scan.oldest.value))
  {
    assert forall j: nat :: j <= k ==> (Moved(s.purge(j)) <==> Productive(s.purge(j)));
  }

  /** A run never sweeps more than once beyond the work it had. */
  lemma {:induction false} SweepsAreBounded(purge: nat -> Sweep, work: nat -> nat, k: nat)
    requires Bounded(purge, work) && forall j: nat :: j < k ==> Productive(purge(j))
    ensures k + work(k) <= work(0)
  {
    if k > 0 {
      SweepsAreBounded(purge, work, k - 1);
      assert work(k - 1 + 1) < work(k - 1);
    }
  }

  function Remaining(n: nat, k: nat): nat {
    Max(n - BATCH * k, 0)
  }

  /** A store holding n rows and removing up to 100 of them at a time. */
  ghost predicate RemovesRows(purge: nat -> Sweep, n: nat) {
    forall k: nat :: !purge(k).failed && Progress(purge(k).counts) == Min(BATCH, Remaining(n, k))
  }

  /** n rows take ceil(n/100) productive sweeps and one that finds nothing, and all n are reported. */
  lemma RowsTakeCeilingPlusOne(purge: nat -> Sweep, n: nat, k: nat)
    requires RemovesRows(purge, n)
    ensures StopsAt(purge, k) <==> k == (n + 99) / 100
    ensures StopsAt(purge, k) ==> Progress(Total(purge, k + 1)) == n
  {
    var stop := (n + BATCH - 1) / BATCH;
    forall j: nat
      ensures Productive(purge(j)) <==> j < stop
    {
      assert Productive(purge(j)) <==> Remaining(n, j) > 0;
    }
    assert StopsAt(purge, stop);
    if StopsAt(purge, k) {
      StopIsUnique(purge, k, stop);
      ReportAccountsForWork(purge, j => Remaining(n, j), k + 1);
    }
  }
}
