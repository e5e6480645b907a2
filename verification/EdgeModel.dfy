/** The in-memory edge limiter on plain values: the specification its class is proved against. */
module EdgeModel {
  import opened Common

  datatype Policy = Policy(global: int, origin: int, prefix: int, maxBuckets: int, windowSeconds: int)

  /** The bounds `allow` itself relies on: it divides by the window and evicts from a non-empty list. */
  predicate Usable(p: Policy) {
    1 <= p.maxBuckets && 1 <= p.windowSeconds
  }

  /** The keyed digest of (kind, value); HMAC is left uninterpreted. */
  type LocalKey = (string, string) -> Digest

  datatype Request = Request(now: int, origin: string, prefix: string)

  datatype Decision = Admit | Deny(retryAfter: int)

  datatype Wanted = Wanted(key: Digest, limit: int)

  datatype Entry = Entry(key: Digest, windowStart: int, count: int)

  datatype State = State(globalStart: int, globalCount: int, lru: seq<Entry>)

  const Initial := State(0, 0, [])

  // ----- windows

  /** Go's integer division by a positive divisor: it truncates toward zero. */
  function TruncDiv(a: int, b: int): int
    requires b > 0
  {
    if a >= 0 then a / b else -((-a) / b)
  }

  function WindowStart(now: int, window: int): int
    requires window > 0
  {
    TruncDiv(now, window) * window
  }

  function RetrySeconds(now: int, start: int, window: int): int {
    if start + window - now < 1 then 1 else start + window - now
  }

  // ----- one bucket

  function ResetEntry(e: Entry, w: int): Entry {
    if e.windowStart != w then e.(windowStart := w, count := 0) else e
  }

  function ResetGlobal(s: State, w: int): State {
    if s.globalStart != w then s.(globalStart := w, globalCount := 0) else s
  }

  function IndexOf(lru: seq<Entry>, key: Digest): (i: int)
    ensures -1 <= i < |lru|
    ensures i >= 0 ==> lru[i].key == key
    ensures i < 0 ==> forall j :: 0 <= j < |lru| ==> lru[j].key != key
  {
    if lru == [] then -1
    else if lru[0].key == key then 0
    else
      var i := IndexOf(lru[1..], key);
      if i < 0 then -1 else i + 1
  }

  function Without(lru: seq<Entry>, i: nat): (r: seq<Entry>)
    requires i < |lru|
    ensures |r| == |lru| - 1
    ensures forall j :: 0 <= j < |r| ==> r[j] == lru[if j < i then j else j + 1]
  {
    lru[..i] + lru[i + 1..]
  }

  /** The list after `bucket(key, w)`: the bucket is at the front, reset to window w. */
  function Touch(lru: seq<Entry>, key: Digest, w: int, max: int): (r: seq<Entry>)
    requires max >= 1
    ensures r != [] && r[0].key == key && r[0].windowStart == w
  {
    var i := IndexOf(lru, key);
    if i >= 0 then [ResetEntry(lru[i], w)] + Without(lru, i)
    else if |lru| >= max then [Entry(key, w, 0)] + Without(lru, |lru| - 1)
    else [Entry(key, w, 0)] + lru
  }

  /** One more hit on the bucket of `key`, if it is still in the table. */
  function Bump(lru: seq<Entry>, key: Digest): seq<Entry> {
    var i := IndexOf(lru, key);
    if i < 0 then lru else lru[i := lru[i].(count := lru[i].count + 1)]
  }

  // ----- one request

  function Wants(p: Policy, mac: LocalKey, r: Request): seq<Wanted> {
    [Wanted(mac("origin", r.origin), p.origin)]
    + (if r.prefix != "" then [Wanted(mac("prefix", r.prefix), p.prefix)] else [])
  }

  function TouchAll(lru: seq<Entry>, wanted: seq<Wanted>, w: int, max: int): (seq<Entry>, bool)
    requires max >= 1
    decreases |wanted|
  {
    if wanted == [] then (lru, true)
    else
      var next := Touch(lru, wanted[0].key, w, max);
      if next[0].count < wanted[0].limit then TouchAll(next, wanted[1..], w, max) else (next, false)
  }

  function BumpAll(lru: seq<Entry>, wanted: seq<Wanted>): seq<Entry>
    decreases |wanted|
  {
    if wanted == [] then lru else BumpAll(Bump(lru, wanted[0].key), wanted[1..])
  }

  /** The decision on a list of buckets, once the global counter is in window w. */
  function Serve(p: Policy, s: State, wanted: seq<Wanted>, w: int, retry: int): (State, Decision)
    requires Usable(p)
  {
    if s.globalCount >= p.global then (s, Deny(retry))
    else
      var (lru, ok) := TouchAll(s.lru, wanted, w, p.maxBuckets);
      if ok then (State(s.globalStart, s.globalCount + 1, BumpAll(lru, wanted)), Admit)
      else (s.(lru := lru), Deny(retry))
  }

  function WindowOf(p: Policy, r: Request): int
    requires Usable(p)
  {
    WindowStart(r.now, p.windowSeconds)
  }

  function RetryOf(p: Policy, r: Request): int
    requires Usable(p)
  {
    RetrySeconds(r.now, WindowOf(p, r), p.windowSeconds)
  }

  /** One request: the state it leaves and the answer it gets. */
  function Allow(p: Policy, mac: LocalKey, s: State, r: Request): (State, Decision)
    requires Usable(p)
  {
    var w := WindowOf(p, r);
    Serve(p, ResetGlobal(s, w), Wants(p, mac, r), w, RetryOf(p, r))
  }

  // ----- the reference: one unbounded counter per key and window

  datatype Exact = Exact(globals: map<int, int>, counts: map<(Digest, int), int>)

  const ExactInitial := Exact(map[], map[])

  function ExactGlobal(e: Exact, w: int): int {
    if w in e.globals then e.globals[w] else 0
  }

  function ExactCount(e: Exact, key: Digest, w: int): int {
    if (key, w) in e.counts then e.counts[(key, w)] else 0
  }

  function ExactBumpAll(e: Exact, wanted: seq<Wanted>, w: int): Exact
    decreases |wanted|
  {
    if wanted == [] then e
    else
      var k := wanted[0].key;
      ExactBumpAll(e.(counts := e.counts[(k, w) := ExactCount(e, k, w) + 1]), wanted[1..], w)
  }

  predicate ExactOk(e: Exact, wanted: seq<Wanted>, w: int) {
    forall i :: 0 <= i < |wanted| ==> ExactCount(e, wanted[i].key, w) < wanted[i].limit
  }

  function ExactServe(p: Policy, e: Exact, wanted: seq<Wanted>, w: int, retry: int): (Exact, Decision) {
    if ExactGlobal(e, w) < p.global && ExactOk(e, wanted, w)
    then (ExactBumpAll(e.(globals := e.globals[w := ExactGlobal(e, w) + 1]), wanted, w), Admit)
    else (e, Deny(retry))
  }

  function ExactAllow(p: Policy, mac: LocalKey, e: Exact, r: Request): (Exact, Decision)
    requires Usable(p)
  {
    ExactServe(p, e, Wants(p, mac, r), WindowOf(p, r), RetryOf(p, r))
  }

  // ----- runs

  function Decisions(p: Policy, mac: LocalKey, s: State, rs: seq<Request>): seq<Decision>
    requires Usable(p)
    decreases |rs|
  {
    if rs == [] then []
    else
      var (next, d) := Allow(p, mac, s, rs[0]);
      [d] + Decisions(p, mac, next, rs[1..])
  }

  function ExactDecisions(p: Policy, mac: LocalKey, e: Exact, rs: seq<Request>): seq<Decision>
    requires Usable(p)
    decreases |rs|
  {
    if rs == [] then []
    else
      var (next, d) := ExactAllow(p, mac, e, rs[0]);
      [d] + ExactDecisions(p, mac, next, rs[1..])
  }

  /** Windows never go back along the run. */
  predicate InOrder(p: Policy, rs: seq<Request>)
    requires Usable(p)
  {
    forall i, j :: 0 <= i < j < |rs| ==> WindowOf(p, rs[i]) <= WindowOf(p, rs[j])
  }

  function KeysOf(wanted: seq<Wanted>): set<Digest> {
    set i | 0 <= i < |wanted| :: wanted[i].key
  }

  /** Every key presented in window w by a run. */
  function Presented(p: Policy, mac: LocalKey, rs: seq<Request>, w: int): set<Digest>
    requires Usable(p)
  {
    if rs == [] then {}
    else (if WindowOf(p, rs[0]) == w then KeysOf(Wants(p, mac, rs[0])) else {}) + Presented(p, mac, rs[1..], w)
  }
}
