/** From the transport's outcome to the arguments of the store's finalize call. */
module ResultPipeline {
  import opened Common
  import opened Backoff

  datatype Disposition = Success | Retry | Permanent

  datatype AttemptResult = AttemptResult(
    disposition: Disposition, status: Option<int>, category: string, retryAfter: int)

  // ----- what the HTTP client reports

  /** An error may match several of the tests, which are made in this order. */
  datatype ClientError = ClientError(redirect: bool, policy: bool, deadline: bool, canceled: bool, timeout: bool)

  /** The Retry-After header once trimmed: a 32-bit number, a parsed instant (nanoseconds), or neither. */
  datatype RetryHeader = Blank | Seconds(n: int) | Date(when: int) | Unreadable

  datatype Exchange =
    | NoResponse(error: ClientError, redirectStatus: Option<int>)
    | ReadFailed
    | Response(code: int, bodyBytes: nat, header: RetryHeader)

  /** A job that is refused before any request, or the exchange it led to. */
  datatype Delivery = Refused(reason: string) | Sent(exchange: Exchange)

  const SECOND_NS := 1_000_000_000
  const MAX_BODY := 64 * 1024

  /** The difference of two instants saturates at the ends of the duration type. */
  function Since(when: int, now: int): int {
    Clamp(when - now, -TWO_63, TWO_63 - 1)
  }

  /** The server's hint in nanoseconds, or 0 when it is absent, past, unreadable or beyond the cap. */
  function RetryAfter(h: RetryHeader, now: int, cap: int): int {
    match h
    case Seconds(n) => if n <= 0 || cap <= 0 || n > cap / SECOND_NS then 0 else n * SECOND_NS
    case Date(when) => if when <= now || Since(when, now) > cap then 0 else Since(when, now)
    case _ => 0
  }

  /** A conversion to 16 bits keeps the low bits. */
  function ToInt16(x: int): int {
    (x + 0x8000) % 0x1_0000 - 0x8000
  }

  function Narrow(status: Option<int>): Option<int> {
    if status.None? then None else Some(ToInt16(status.value))
  }

  function RetryResult(status: Option<int>, category: string, serverDelay: int): AttemptResult {
    AttemptResult(Retry, status, category, serverDelay)
  }

  function PermanentResult(status: Option<int>, category: string): AttemptResult {
    AttemptResult(Permanent, status, category, 0)
  }

  predicate RetryableStatus(status: int) {
    status == 408 || status == 425 || status == 429 || 500 <= status <= 599
  }

  function Execute(x: Exchange, now: int, cap: int): AttemptResult {
    match x
    case NoResponse(e, status) =>
      if e.redirect then PermanentResult(Narrow(status), "redirect")
      else if e.policy then PermanentResult(None, "ssrf_policy")
      else if e.deadline then RetryResult(None, "timeout", 0)
      else if e.canceled then RetryResult(None, "cancelled", 0)
      else if e.timeout then RetryResult(None, "timeout", 0)
      else RetryResult(None, "network", 0)
    case ReadFailed => RetryResult(None, "response_read", 0)
    case Response(status, body, header) =>
      if body > MAX_BODY then PermanentResult(None, "response_too_large")
      else if status < 100 || status > 599 then PermanentResult(None, "invalid_http_status")
      else if 200 <= status < 300 then AttemptResult(Success, Some(ToInt16(status)), "", 0)
      else if RetryableStatus(status)
      then RetryResult(Some(ToInt16(status)), "http_retryable", RetryAfter(header, now, cap))
      else PermanentResult(Some(ToInt16(status)), "http_permanent")
  }

  function Deliver(d: Delivery, now: int, cap: int): AttemptResult {
    match d
    case Refused(category) => PermanentResult(None, category)
    case Sent(x) => Execute(x, now, cap)
  }

  /** The categories of a job refused before its request. */
  predicate RefusalCategory(c: string) {
    c in {"http_destination_disabled", "ssrf_policy", "decrypt_target", "decrypt_payload", "decrypt_secret",
          "invalid_target", "request_build"}
  }

  // ----- the store's side

  datatype FinalArgs = FinalArgs(
    disposition: Disposition, status: Option<int>, category: string, retryDelay: Option<int>)

  function Normalize(r: AttemptResult): AttemptResult {
    if r.status.None? || 100 <= r.status.value <= 599 then r
    else AttemptResult(Permanent, None, "invalid_http_status", 0)
  }

  function Arguments(r: AttemptResult): FinalArgs {
    var n := Normalize(r);
    FinalArgs(n.disposition, n.status, n.category, if n.disposition == Retry then Some(n.retryAfter) else None)
  }

  datatype Policy = Policy(base: int64, cap: int64, jitter: Jitter)

  lemma HintFits(h: RetryHeader, now: int, cap: int64)
    requires cap > 0
    ensures 0 <= RetryAfter(h, now, cap as int) <= cap as int
  {
    if h.Seconds? && 0 < h.n <= cap as int / SECOND_NS {
      assert cap as int / SECOND_NS * SECOND_NS <= cap as int;
    }
  }

  function WithDelay(p: Policy, attempt: int16, r: AttemptResult): AttemptResult
    requires IsInt64(r.retryAfter)
  {
    if r.disposition == Retry
    then r.(retryAfter := RetryDelaySpec(p.base, p.cap, p.jitter, attempt, r.retryAfter as int64))
    else r
  }

  lemma DeliverHint(d: Delivery, now: int, cap: int64)
    requires cap > 0
    ensures 0 <= Deliver(d, now, cap as int).retryAfter <= cap as int
  {
    if d.Sent? && d.exchange.Response? {
      HintFits(d.exchange.header, now, cap);
    }
  }

  /** The job's result, its retry delay chosen. */
  function Processed(p: Policy, attempt: int16, d: Delivery, now: int): AttemptResult
    requires p.cap > 0
  {
    DeliverHint(d, now, p.cap);
    WithDelay(p, attempt, Deliver(d, now, p.cap as int))
  }

  function Reported(p: Policy, attempt: int16, d: Delivery, now: int): FinalArgs
    requires p.cap > 0
  {
    Arguments(Processed(p, attempt, d, now))
  }

  /** The server's hint, which only an answered request with a retryable status carries. */
  function Hint(d: Delivery, now: int, cap: int): int {
    if d.Sent? && d.exchange.Response? then RetryAfter(d.exchange.header, now, cap) else 0
  }

  /**
   * Whatever the transport does: the status sent is absent or a real HTTP status; a delay is sent
   * exactly for retries, within 0..Cap, and is the longer of the jittered backoff and the accepted hint;
   * only success has no category, and only a 2xx response is a success.
   */
  lemma FinalArgumentsAreSound(p: Policy, attempt: int16, d: Delivery, now: int)
    requires p.base > 0 && p.cap > 0
    requires d.Refused? ==> RefusalCategory(d.reason)
    ensures var a := Reported(p, attempt, d, now);
      && (a.status.None? || 100 <= a.status.value <= 599)
      && (a.retryDelay.Some? <==> a.disposition == Retry)
      && (a.retryDelay.Some? ==> 0 <= a.retryDelay.value <= p.cap as int)
      && (a.category != "" <==> a.disposition != Success)
      && (a.disposition == Success <==>
            d.Sent? && d.exchange.Response? && d.exchange.bodyBytes <= MAX_BODY && 200 <= d.exchange.code < 300)
      && (a.disposition == Retry ==>
            a.retryDelay.value == Max(RetryDelaySpec(p.base, p.cap, p.jitter, attempt, 0), Hint(d, now, p.cap as int)))
  {
    DeliverHint(d, now, p.cap);
    var r := Deliver(d, now, p.cap as int);
    RetryDelayBounds(p.base, p.cap, p.jitter, attempt, r.retryAfter as int64);
    if d.Sent? && d.exchange.Response? {
      assert 100 <= d.exchange.code <= 599 ==> ToInt16(d.exchange.code) == d.exchange.code;
    }
  }

  /** The redirects that Go's HTTP client asks about, and that the program refuses. */
  predicate RedirectCode(status: int) {
    status == 301 || status == 302 || status == 303 || status == 307 || status == 308
  }

  /**
   * A refused redirect is final and reaches the store with its status and category. For other statuses,
   * which the client never asks about, the decision functions alone would report an invalid status exactly
   * when 16 bits do not hold a real one.
   */
  lemma RedirectIsPermanent(p: Policy, attempt: int16, e: ClientError, status: Option<int>, now: int)
    requires p.cap > 0 && e.redirect
    ensures var a := Reported(p, attempt, Sent(NoResponse(e, status)), now);
      && (status.Some? && RedirectCode(status.value) ==> a == FinalArgs(Permanent, status, "redirect", None))
      && (status.None? ==> a == FinalArgs(Permanent, None, "redirect", None))
      && (status.Some? && !(100 <= ToInt16(status.value) <= 599) ==>
            a == FinalArgs(Permanent, None, "invalid_http_status", None))
  {
    if status.Some? && RedirectCode(status.value) {
      assert ToInt16(status.value) == status.value;
    }
  }

  /** What the store answers to a finalize call, if it does not panic. */
  datatype Reply = Reply(changed: bool, failed: bool) | StorePanics

  datatype JobError = StoreFailed | JobPanic

  /** What the observer is told at the end of an attempt; no result is the zero one. */
  datatype Finish = Finish(result: Option<AttemptResult>, changed: bool, error: Option<JobError>)

  /** How the job ends for its goroutine. */
  datatype JobEnd = Returned(error: Option<JobError>) | Panicked

  /** The calls made to the store and to the observer. */
  class FinalizeLog {
    var calls: seq<FinalArgs>
    var finishes: seq<Finish>

    constructor ()
      ensures calls == [] && finishes == []
    {
      calls, finishes := [], [];
    }

    /** The store's side of one finalize call. */
    method Finalize(result: AttemptResult, reply: Reply)
        returns (changed: bool, error: Option<JobError>, panicked: bool)
      modifies `calls
      ensures calls == old(calls) + [Arguments(result)]
      ensures panicked <==> reply.StorePanics?
      ensures !panicked ==> changed == reply.changed && error == if reply.failed then Some(StoreFailed) else None
    {
      var normal := Normalize(result);
      var retryDelay: Option<int> := None;
      if normal.disposition == Retry {
        retryDelay := Some(normal.retryAfter);
      }
      calls := calls + [FinalArgs(normal.disposition, normal.status, normal.category, retryDelay)];
      changed, error, panicked := false, None, reply.StorePanics?;
      if !panicked {
        changed := reply.changed;
        error := if reply.failed then Some(StoreFailed) else None;
      }
    }

    /**
     * One job: unless its delivery panics it finalizes exactly once, with the sound arguments; its error and
     * its panic are passed on; and the observer is told exactly once how it ended, on every path.
     */
    method ProcessClaim(p: Policy, attempt: int16, d: Delivery, now: int, deliveryPanics: bool, reply: Reply)
        returns (end: JobEnd)
      requires p.cap > 0
      modifies this
      ensures calls == old(calls) + if deliveryPanics then [] else [Reported(p, attempt, d, now)]
      ensures end ==
        if deliveryPanics || reply.StorePanics? then Panicked
        else Returned(if reply.failed then Some(StoreFailed) else None)
      ensures finishes == old(finishes) + [Finish(
        if deliveryPanics then None else Some(Processed(p, attempt, d, now)),
        !deliveryPanics && reply.Reply? && reply.changed,
        if end.Panicked? then Some(JobPanic) else end.error)]
    {
      if deliveryPanics {
        finishes := finishes + [Finish(None, false, Some(JobPanic))];
        return Panicked;
      }
      DeliverHint(d, now, p.cap);
      var result := Deliver(d, now, p.cap as int);
      if result.disposition == Retry {
        var delay := RetryDelay(p.base, p.cap, p.jitter, attempt, result.retryAfter as int64);
        result := result.(retryAfter := delay as int);
      }
      var changed, error, panicked := Finalize(result, reply);
      if panicked {
        finishes := finishes + [Finish(Some(result), false, Some(JobPanic))];
        return Panicked;
      }
      finishes := finishes + [Finish(Some(result), changed, error)];
      return Returned(error);
    }
  }
}
