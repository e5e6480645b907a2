/** The worker's numeric configuration and the claim requests made under it. */
module WorkerConfig {
  import opened Common

  const SECOND := 1_000_000_000
  const MILLISECOND := 1_000_000
  const MINUTE := 60 * SECOND

  /** Durations in nanoseconds. */
  datatype Worker = Worker(
    concurrency: int, batchSize: int, workspaceLimit: int, endpointLimit: int,
    pollInterval: int, claimTimeout: int, requestTimeout: int, leaseTtl: int,
    retryBase: int, retryCap: int, shutdown: int)

  predicate ValidateWorker(w: Worker) {
    && 1 <= w.concurrency <= 100
    && 1 <= w.batchSize <= w.concurrency
    && 1 <= w.workspaceLimit <= w.batchSize && 1 <= w.endpointLimit <= w.batchSize
    && 10 * MILLISECOND <= w.pollInterval <= 10 * SECOND
    && 10 * MILLISECOND <= w.claimTimeout <= 2 * SECOND
    && w.claimTimeout <= w.pollInterval && w.claimTimeout <= w.leaseTtl
    && 100 * MILLISECOND <= w.requestTimeout <= 20 * SECOND
    && w.requestTimeout + 10 * SECOND <= w.leaseTtl <= 2 * MINUTE
    && 0 < w.retryBase <= w.retryCap <= 15 * MINUTE
    && w.shutdown <= 30 * SECOND
  }

  datatype ClaimRequest = ClaimRequest(
    workerId: nat, leaseTtl: int, limit: int, workspaceLimit: int, endpointLimit: int)

  /** The nil UUID. */
  const NIL := 0

  predicate ValidateClaim(r: ClaimRequest) {
    && r.workerId != NIL && 20 * SECOND <= r.leaseTtl <= 2 * MINUTE
    && 1 <= r.limit <= 100
    && 1 <= r.workspaceLimit <= r.limit
    && 1 <= r.endpointLimit <= r.limit
  }

  function RequestFor(w: Worker, workerId: nat, limit: int): ClaimRequest {
    ClaimRequest(workerId, w.leaseTtl, limit, Min(w.workspaceLimit, limit), Min(w.endpointLimit, limit))
  }

  /**
   * Under an accepted configuration a claim for any number of free slots is valid exactly when the
   * lease is at least 20 seconds; the configuration check alone admits leases down to 10.1 seconds.
   */
  lemma ClaimValidIffLeaseLongEnough(w: Worker, workerId: nat, slots: int)
    requires ValidateWorker(w) && workerId != NIL && 1 <= slots <= w.concurrency
    ensures ValidateClaim(RequestFor(w, workerId, Min(slots, w.batchSize))) <==> w.leaseTtl >= 20 * SECOND
  {
  }

  lemma ShortLeaseIsAcceptedButRefused()
    ensures exists w :: ValidateWorker(w) && !ValidateClaim(RequestFor(w, 1, 1))
  {
    var w := Worker(1, 1, 1, 1, 10 * SECOND, SECOND, SECOND, 11 * SECOND, SECOND, MINUTE, 30 * SECOND);
    assert ValidateWorker(w) && !ValidateClaim(RequestFor(w, 1, 1));
  }
}
