/** What becomes of an attempt, read off what the transport reported: retried, done or given up, and when. */
module ResultDecisions {
  import opened Common
  import opened Backoff
  import opened ResultPipeline

  /** The answers that are retried: request timeout, too early, too many requests, and every server error. */
  ghost predicate TryAgain(code: int) {
    code in {408, 425, 429} || 500 <= code <= 599
  }

  /**
   * The wait a server asks for, as far as the cap allows it: whole seconds from now, or up to a later instant,
   * where a distance beyond 64 bits counts as the longest duration.
   */
  ghost function AskedWait(h: RetryHeader, now: int, cap: int): int {
    if h.Seconds? then
      if 1 <= h.n && h.n * 1_000_000_000 <= cap then h.n * 1_000_000_000 else 0
    else if h.Date? && now < h.when then
      var longest := 9_223_372_036_854_775_807;
      var gap := if h.when - now <= longest then h.when - now else longest;
      if gap <= cap then gap else 0
    else 0
  }

  lemma SecondsFit(n: int, cap: int)
    requires cap > 0
    ensures n <= cap / 1_000_000_000 <==> n * 1_000_000_000 <= cap
  {
  }

  lemma HintIsAskedWait(h: RetryHeader, now: int, cap: int64)
    requires cap > 0
    ensures RetryAfter(h, now, cap as int) == AskedWait(h, now, cap as int)
  {
    if h.Seconds? {
      SecondsFit(h.n, cap as int);
    }
  }

  /** The job's own draw for this attempt. */
  ghost function OwnWait(p: Policy, attempt: int16): int
    requires p.base > 0 && p.cap > 0
  {
    CeilingBounds(p.base as int, p.cap as int, attempt as int);
    var ceiling := Ceiling(p.base as int, p.cap as int, attempt as int);
    var draw := p.jitter(ceiling as int64) as int;
    if draw < 0 then 0 else if draw > ceiling then ceiling else draw
  }

  ghost function Again(p: Policy, attempt: int16, status: Option<int>, category: string, asked: int): FinalArgs
    requires p.base > 0 && p.cap > 0
  {
    var own := OwnWait(p, attempt);
    FinalArgs(Retry, status, category, Some(if own < asked then asked else own))
  }

  lemma RetryReported(p: Policy, attempt: int16, d: Delivery, now: int)
    requires p.base > 0 && p.cap > 0
    ensures var r := Deliver(d, now, p.cap as int);
      r.disposition == Retry && (r.status.None? || 100 <= r.status.value <= 599) ==>
        Reported(p, attempt, d, now) == Again(p, attempt, r.status, r.category, r.retryAfter)
  {
    hide Deliver, Ceiling;
    DeliverHint(d, now, p.cap);
    RetryDelayExact(p.base, p.cap, p.jitter, attempt, Deliver(d, now, p.cap as int).retryAfter as int64);
  }

  /**
   * An answered request. Within 64 KiB and with a status of HTTP: a 2xx succeeds, a retryable status is
   * retried after the longer of the server's wait and the job's own, and every other status is final.
   */
  lemma AnswerDecides(p: Policy, attempt: int16, code: int, body: nat, header: RetryHeader, now: int)
    requires p.base > 0 && p.cap > 0
    ensures var a := Reported(p, attempt, Sent(Response(code, body, header)), now);
      && (body > 65536 ==> a == FinalArgs(Permanent, None, "response_too_large", None))
      && (body <= 65536 && !(100 <= code <= 599) ==> a == FinalArgs(Permanent, None, "invalid_http_status", None))
      && (body <= 65536 && 200 <= code <= 299 ==> a == FinalArgs(Success, Some(code), "", None))
      && (body <= 65536 && 100 <= code <= 599 && TryAgain(code) ==>
            a == Again(p, attempt, Some(code), "http_retryable", AskedWait(header, now, p.cap as int)))
      && (body <= 65536 && 100 <= code <= 599 && !(200 <= code <= 299) && !TryAgain(code) ==>
            a == FinalArgs(Permanent, Some(code), "http_permanent", None))
  {
    hide OwnWait, AskedWait, RetryAfter;
    RetryReported(p, attempt, Sent(Response(code, body, header)), now);
    HintIsAskedWait(header, now, p.cap);
    assert 100 <= code <= 599 ==> ToInt16(code) == code;
  }

  /**
   * No answer. A refused redirect and a forbidden address are final; a deadline, a cancellation, a timeout
   * and any other failure of the network are retried, the first that applies giving the category.
   */
  lemma FailureDecides(p: Policy, attempt: int16, e: ClientError, redirectStatus: Option<int>, now: int)
    requires p.base > 0 && p.cap > 0
    requires redirectStatus.Some? ==> 300 <= redirectStatus.value <= 399
    ensures var a := Reported(p, attempt, Sent(NoResponse(e, redirectStatus)), now);
      a == if e.redirect then FinalArgs(Permanent, redirectStatus, "redirect", None)
           else if e.policy then FinalArgs(Permanent, None, "ssrf_policy", None)
           else if e.deadline then Again(p, attempt, None, "timeout", 0)
           else if e.canceled then Again(p, attempt, None, "cancelled", 0)
           else if e.timeout then Again(p, attempt, None, "timeout", 0)
           else Again(p, attempt, None, "network", 0)
  {
    hide OwnWait;
    RetryReported(p, attempt, Sent(NoResponse(e, redirectStatus)), now);
    if redirectStatus.Some? { assert ToInt16(redirectStatus.value) == redirectStatus.value; }
  }

  /** A body that cannot be read is retried; a job refused before its request is final, with the reason given. */
  lemma RefusalDecides(p: Policy, attempt: int16, reason: string, now: int)
    requires p.base > 0 && p.cap > 0
    ensures Reported(p, attempt, Sent(ReadFailed), now) == Again(p, attempt, None, "response_read", 0)
    ensures Reported(p, attempt, Refused(reason), now) == FinalArgs(Permanent, None, reason, None)
  {
    hide OwnWait;
    RetryReported(p, attempt, Sent(ReadFailed), now);
  }
}
