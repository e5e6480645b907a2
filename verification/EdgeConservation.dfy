/** Structure and conservation laws of the edge limiter that need no bound on the keys presented. */
module EdgeConservation {
  import opened Common
  import opened Arith
  import opened EdgeModel
  import opened EdgeTheorems

  function After(p: Policy, mac: LocalKey, s: State, rs: seq<Request>): State
    requires Usable(p)
    decreases |rs|
  {
    if rs == [] then s else After(p, mac, Allow(p, mac, s, rs[0]).0, rs[1..])
  }

  // ----- structure, for any clock

  lemma {:induction false} TouchAllStructure(lru: seq<Entry>, wanted: seq<Wanted>, w: int, max: int)
    requires Structure(lru, max) && max >= 1
    ensures Structure(TouchAll(lru, wanted, w, max).0, max)
    decreases |wanted|
  {
    if wanted != [] {
      TouchStructure(lru, wanted[0].key, w, max);
      TouchAllStructure(Touch(lru, wanted[0].key, w, max), wanted[1..], w, max);
    }
  }

  lemma {:induction false} BumpAllStructure(lru: seq<Entry>, wanted: seq<Wanted>, max: int)
    requires Structure(lru, max)
    ensures Structure(BumpAll(lru, wanted), max)
    decreases |wanted|
  {
    if wanted != [] {
      BumpAllStructure(Bump(lru, wanted[0].key), wanted[1..], max);
    }
  }

  /** No key repeats and the table never outgrows its bound, whatever the requests and the clock. */
  lemma {:induction false} TableStaysBounded(p: Policy, mac: LocalKey, s: State, rs: seq<Request>)
    requires Usable(p) && Structure(s.lru, p.maxBuckets)
    ensures Structure(After(p, mac, s, rs).lru, p.maxBuckets)
    decreases |rs|
  {
    if rs != [] {
      var w := WindowOf(p, rs[0]);
      var wanted := Wants(p, mac, rs[0]);
      TouchAllStructure(s.lru, wanted, w, p.maxBuckets);
      BumpAllStructure(TouchAll(s.lru, wanted, w, p.maxBuckets).0, wanted, p.maxBuckets);
      TableStaysBounded(p, mac, Allow(p, mac, s, rs[0]).0, rs[1..]);
    }
  }

  // ----- the global counter is the number of admissions

  function Admitted(p: Policy, mac: LocalKey, s: State, rs: seq<Request>, w: int): nat
    requires Usable(p)
    decreases |rs|
  {
    if rs == [] then 0
    else
      var (next, d) := Allow(p, mac, s, rs[0]);
      (if d == Admit && WindowOf(p, rs[0]) == w then 1 else 0) + Admitted(p, mac, next, rs[1..], w)
  }

  lemma AllowGlobal(p: Policy, mac: LocalKey, s: State, r: Request)
    requires Usable(p)
    ensures var (n, d) := Allow(p, mac, s, r);
      && n.globalStart == WindowOf(p, r)
      && n.globalCount == GlobalCount(s, WindowOf(p, r)) + (if d == Admit then 1 else 0)
      && (d == Admit ==> n.globalCount <= p.global)
  {
  }

  lemma {:induction false} NoneBefore(p: Policy, mac: LocalKey, s: State, rs: seq<Request>, w: int)
    requires Usable(p) && forall i :: 0 <= i < |rs| ==> WindowOf(p, rs[i]) > w
    ensures Admitted(p, mac, s, rs, w) == 0
    decreases |rs|
  {
    if rs != [] {
      assert forall i :: 0 <= i < |rs[1..]| ==> rs[1..][i] == rs[i + 1];
      NoneBefore(p, mac, Allow(p, mac, s, rs[0]).0, rs[1..], w);
    }
  }

  lemma {:induction false} AdmittedBound(p: Policy, mac: LocalKey, s: State, rs: seq<Request>, v: int)
    requires Usable(p) && InOrder(p, rs) && rs != []
    requires s.globalStart <= WindowOf(p, rs[0]) || s.globalCount == 0
    requires s.globalCount <= Max(p.global, 0)
    ensures Admitted(p, mac, s, rs, v) + GlobalCount(s, v) <= Max(p.global, 0)
    ensures v == WindowOf(p, rs[|rs| - 1]) ==>
      GlobalCount(After(p, mac, s, rs), v) == Admitted(p, mac, s, rs, v) + GlobalCount(s, v)
    decreases |rs|
  {
    var n := Allow(p, mac, s, rs[0]).0;
    var rest := rs[1..];
    AllowGlobal(p, mac, s, rs[0]);
    assert forall i :: 0 <= i < |rest| ==> rest[i] == rs[i + 1];
    if rest == [] {
      assert After(p, mac, n, rest) == n && Admitted(p, mac, n, rest, v) == 0;
    } else {
      AdmittedBound(p, mac, n, rest, v);
      if v < WindowOf(p, rs[0]) {
        NoneBefore(p, mac, n, rest, v);
      }
    }
  }

  /** In every window at most `Global` requests are admitted, and the live counter is that number. */
  lemma GlobalLimitHolds(p: Policy, mac: LocalKey, rs: seq<Request>, w: int)
    requires Usable(p) && InOrder(p, rs)
    ensures Admitted(p, mac, Initial, rs, w) <= Max(p.global, 0)
    ensures rs != [] && w == WindowOf(p, rs[|rs| - 1]) ==>
      GlobalCount(After(p, mac, Initial, rs), w) == Admitted(p, mac, Initial, rs, w)
  {
    if rs != [] {
      AdmittedBound(p, mac, Initial, rs, w);
    }
  }

  /** If windows return, the limit does not hold: the counter of a left window is forgotten. */
  lemma ReturningWindowForgets(mac: LocalKey)
    ensures var p := Policy(1, 1, 1, 16, 60);
      var rs := [Request(59, "a", ""), Request(60, "a", ""), Request(59, "a", "")];
      Usable(p) && !InOrder(p, rs) && Admitted(p, mac, Initial, rs, 0) == 2 > p.global
  {
    var p := Policy(1, 1, 1, 16, 60);
    var r0, r1 := Request(59, "a", ""), Request(60, "a", "");
    var rs := [r0, r1, r0];
    var k := mac("origin", "a");
    assert Wants(p, mac, r0) == [Wanted(k, 1)] == Wants(p, mac, r1);
    assert WindowOf(p, r0) == 0 && WindowOf(p, r1) == 60;
    var s1 := SingleAdmit(p, mac, Initial, r0, k);
    var s2 := SingleAdmit(p, mac, s1, r1, k);
    var s3 := SingleAdmit(p, mac, s2, r0, k);
    assert rs[1..] == [r1, r0] && rs[1..][1..] == [r0];
    assert Admitted(p, mac, s2, [r0], 0) == 1;
    assert Admitted(p, mac, s1, [r1, r0], 0) == 1;
    assert WindowOf(p, rs[1]) > WindowOf(p, rs[2]);
  }

  /** A lone origin whose bucket and global counter are of another window is admitted afresh. */
  lemma SingleAdmit(p: Policy, mac: LocalKey, s: State, r: Request, k: Digest) returns (n: State)
    requires Usable(p) && p.global == 1 && p.maxBuckets == 16 && Wants(p, mac, r) == [Wanted(k, 1)]
    requires GlobalCount(s, WindowOf(p, r)) == 0
    requires s.lru == [] || (|s.lru| == 1 && s.lru[0].key == k && s.lru[0].windowStart != WindowOf(p, r))
    ensures Allow(p, mac, s, r) == (n, Admit)
    ensures n.lru == [Entry(k, WindowOf(p, r), 1)] && n.globalStart == WindowOf(p, r)
  {
    var w := WindowOf(p, r);
    var wanted := Wants(p, mac, r);
    var lru := [Entry(k, w, 0)];
    assert Touch(s.lru, k, w, 16) == lru;
    assert wanted[1..] == [];
    assert TouchAll(lru, wanted[1..], w, 16) == (lru, true);
    assert TouchAll(s.lru, wanted, w, 16) == (lru, true);
    assert Bump(lru, k) == [Entry(k, w, 1)];
    assert BumpAll(lru, wanted) == BumpAll(Bump(lru, k), wanted[1..]);
    n := Allow(p, mac, s, r).0;
  }

  // ----- the retry hint

  lemma MultipleIsStart(q: int, window: int)
    requires window >= 1
    ensures WindowStart(q * window, window) == q * window
  {
    MulSign(q, window);
    DivUnique(q * window, q, 0, window);
    assert -(q * window) == (-q) * window;
    DivUnique(-(q * window), -q, 0, window);
  }

  lemma MulSign(q: int, m: int)
    requires m >= 1
    ensures q >= 0 <==> q * m >= 0
  {
    if q >= 0 { MulLe(0, q, m); } else { MulLe(q, -1, m); }
  }

  /**
   * Waiting the hinted seconds lands exactly on the start of the next window; from 1970 on no
   * shorter wait leaves the window, and the hint is within 1..window exactly then or on a boundary.
   */
  lemma RetryReachesNextWindow(now: int, window: int, wait: int)
    requires window >= 1
    ensures var start := WindowStart(now, window);
      var retry := RetrySeconds(now, start, window);
      && retry >= 1
      && WindowStart(now + retry, window) == now + retry == start + window
      && (now >= 0 && 0 <= wait < retry ==> WindowStart(now + wait, window) == start)
      && (retry <= window <==> now >= 0 || now == start)
  {
    var start := WindowStart(now, window);
    var q := TruncDiv(now, window);
    WindowBounds(now, window);
    var retry := RetrySeconds(now, start, window);
    assert now + retry == (q + 1) * window;
    MultipleIsStart(q + 1, window);
    if now >= 0 && 0 <= wait < retry {
      DivUnique(now + wait, q, now + wait - start, window);
    }
  }

  // ----- what one request may change

  lemma TouchOnlyForgets(lru: seq<Entry>, key: Digest, w: int, max: int)
    requires max >= 1
    ensures forall e :: e in Touch(lru, key, w, max) ==> e in lru || e.count == 0
  {
    TouchShape(lru, key, w, max);
    MovedFrom(lru, Touch(lru, key, w, max), Displaced(lru, key, max));
  }

  lemma MovedFrom(lru: seq<Entry>, n: seq<Entry>, v: nat)
    requires Moved(lru, n, v)
    ensures forall e :: e in n ==> e == n[0] || e in lru
  {
    forall j | 1 <= j < |n|
      ensures n[j] in lru
    {
      if j <= v { assert n[j] == lru[j - 1]; } else { assert n[j] == lru[j]; }
    }
  }

  lemma {:induction false} TouchAllOnlyForgets(lru: seq<Entry>, wanted: seq<Wanted>, w: int, max: int)
    requires max >= 1
    ensures forall e :: e in TouchAll(lru, wanted, w, max).0 ==> e in lru || e.count == 0
    decreases |wanted|
  {
    if wanted != [] {
      var n := Touch(lru, wanted[0].key, w, max);
      TouchOnlyForgets(lru, wanted[0].key, w, max);
      TouchAllOnlyForgets(n, wanted[1..], w, max);
    }
  }

  /** A denied request raises no counter. */
  lemma DenialCountsNothing(p: Policy, mac: LocalKey, s: State, r: Request)
    requires Usable(p) && Allow(p, mac, s, r).1.Deny?
    ensures var n := Allow(p, mac, s, r).0;
      && (forall e :: e in n.lru ==> e in s.lru || e.count == 0)
      && GlobalCount(n, WindowOf(p, r)) == GlobalCount(s, WindowOf(p, r))
  {
    TouchAllOnlyForgets(s.lru, Wants(p, mac, r), WindowOf(p, r), p.maxBuckets);
  }

  /** With room for two buckets the one touched last is never the one evicted. */
  lemma TouchSparesFront(lru: seq<Entry>, key: Digest, w: int, max: int)
    requires Structure(lru, max) && max >= 2 && lru != [] && lru[0].key != key
    ensures var n := Touch(lru, key, w, max);
      IndexOf(n, lru[0].key) == 1 && |n| >= 2 && n[1] == lru[0]
  {
    TouchShape(lru, key, w, max);
    TouchStructure(lru, key, w, max);
    CountAt(Touch(lru, key, w, max), max, 1);
  }

  lemma FrontCount(lru: seq<Entry>, key: Digest, w: int, max: int)
    requires Structure(lru, max) && max >= 1
    ensures Touch(lru, key, w, max)[0] == Entry(key, w, Count(lru, key, w))
    ensures IndexOf(Touch(lru, key, w, max), key) == 0
  {
    TouchStructure(lru, key, w, max);
    CountAt(Touch(lru, key, w, max), max, 0);
  }

  lemma {:induction false} SameKeysSameIndex(a: seq<Entry>, b: seq<Entry>, k: Digest)
    requires |a| == |b| && forall i :: 0 <= i < |a| ==> a[i].key == b[i].key
    ensures IndexOf(a, k) == IndexOf(b, k)
  {
    if a != [] && a[0].key != k {
      SameKeysSameIndex(a[1..], b[1..], k);
    }
  }

  lemma SameKeysSameIndices(a: seq<Entry>, b: seq<Entry>)
    requires |a| == |b| && forall i :: 0 <= i < |a| ==> a[i].key == b[i].key
    ensures forall k :: IndexOf(a, k) == IndexOf(b, k)
  {
    hide IndexOf;
    forall k
      ensures IndexOf(a, k) == IndexOf(b, k)
    {
      SameKeysSameIndex(a, b, k);
    }
  }

  lemma RaisedStructure(lru: seq<Entry>, i: nat, max: int)
    requires Structure(lru, max) && i < |lru|
    ensures var n := lru[i := lru[i].(count := lru[i].count + 1)];
      Structure(n, max) && |n| == |lru| && forall j :: 0 <= j < |n| ==> n[j].key == lru[j].key
  {
  }

  lemma BumpAt(lru: seq<Entry>, key: Digest, max: int)
    requires Structure(lru, max) && IndexOf(lru, key) >= 0
    ensures var i := IndexOf(lru, key);
      Bump(lru, key) == lru[i := lru[i].(count := lru[i].count + 1)] && Structure(Bump(lru, key), max)
    ensures forall k :: IndexOf(Bump(lru, key), k) == IndexOf(lru, k)
  {
    var i := IndexOf(lru, key);
    var n := lru[i := lru[i].(count := lru[i].count + 1)];
    assert Bump(lru, key) == n;
    hide *;
    RaisedStructure(lru, i, max);
    SameKeysSameIndices(n, lru);
  }

  lemma OneWanted(lru: seq<Entry>, a: Wanted, w: int, max: int)
    requires Structure(lru, max) && max >= 1 && TouchAll(lru, [a], w, max).1
    ensures var n := BumpAll(TouchAll(lru, [a], w, max).0, [a]);
      Structure(n, max) && Has(n, a.key, w) && Count(n, a.key, w) == Count(lru, a.key, w) + 1 <= a.limit
  {
    var t := Touch(lru, a.key, w, max);
    TouchStructure(lru, a.key, w, max);
    FrontCount(lru, a.key, w, max);
    assert [a][1..] == [];
    assert TouchAll(lru, [a], w, max).0 == t;
    BumpAt(t, a.key, max);
    assert BumpAll(t, [a]) == Bump(t, a.key);
  }

  lemma BumpTwo(t: seq<Entry>, a: Digest, b: Digest, max: int)
    requires Structure(t, max) && |t| >= 2 && t[0].key == b && t[1].key == a && a != b
    ensures var n := Bump(Bump(t, a), b);
      && Structure(n, max) && IndexOf(n, b) == 0 && IndexOf(n, a) == 1
      && n[0] == t[0].(count := t[0].count + 1) && n[1] == t[1].(count := t[1].count + 1)
  {
    CountAt(t, max, 0);
    CountAt(t, max, 1);
    BumpAt(t, a, max);
    BumpAt(Bump(t, a), b, max);
  }

  lemma TwoWanted(lru: seq<Entry>, a: Wanted, b: Wanted, w: int, max: int)
    requires Structure(lru, max) && max >= 2 && a.key != b.key
    requires TouchAll(lru, [a, b], w, max).1
    ensures var n := BumpAll(TouchAll(lru, [a, b], w, max).0, [a, b]);
      && Structure(n, max) && Has(n, a.key, w) && Has(n, b.key, w)
      && Count(n, a.key, w) == Count(lru, a.key, w) + 1 <= a.limit
      && Count(n, b.key, w) == Count(Touch(lru, a.key, w, max), b.key, w) + 1 <= b.limit
  {
    var t1 := Touch(lru, a.key, w, max);
    var t2 := Touch(t1, b.key, w, max);
    TouchStructure(lru, a.key, w, max);
    TouchStructure(t1, b.key, w, max);
    FrontCount(lru, a.key, w, max);
    FrontCount(t1, b.key, w, max);
    TouchSparesFront(t1, b.key, w, max);
    TwoTouches(lru, a, b, w, max);
    BumpTwo(t2, a.key, b.key, max);
    var n := Bump(Bump(t2, a.key), b.key);
    assert n[0].windowStart == w && n[1].windowStart == w;
  }

  lemma TwoTouches(lru: seq<Entry>, a: Wanted, b: Wanted, w: int, max: int)
    requires max >= 1 && TouchAll(lru, [a, b], w, max).1
    ensures var t1 := Touch(lru, a.key, w, max);
      var t2 := Touch(t1, b.key, w, max);
      && TouchAll(lru, [a, b], w, max) == (t2, true)
      && t1[0].count < a.limit && t2[0].count < b.limit
      && BumpAll(t2, [a, b]) == Bump(Bump(t2, a.key), b.key)
  {
    var t1 := Touch(lru, a.key, w, max);
    var t2 := Touch(t1, b.key, w, max);
    var both := [a, b];
    assert both[0] == a && both[1..] == [b] && [b][1..] == [];
    assert TouchAll(lru, both, w, max) == TouchAll(t1, both[1..], w, max);
    assert TouchAll(t1, [b], w, max) == TouchAll(t2, [b][1..], w, max);
    assert BumpAll(t2, both) == BumpAll(Bump(t2, a.key), both[1..]);
    BumpOne(Bump(t2, a.key), b);
  }

  lemma BumpOne(lru: seq<Entry>, a: Wanted)
    ensures BumpAll(lru, [a]) == Bump(lru, a.key)
  {
    assert [a][1..] == [];
    assert BumpAll(lru, [a]) == BumpAll(Bump(lru, a.key), [a][1..]);
  }

  /**
   * The origin's count is one more than before; the prefix's is one more than it was once the origin's
   * bucket had been looked up, which may have evicted it; both are in the table and within their limits.
   */
  predicate RaisesItsCounters(p: Policy, mac: LocalKey, s: State, r: Request, n: State)
    requires Usable(p)
  {
    var w := WindowOf(p, r);
    var a, b := mac("origin", r.origin), mac("prefix", r.prefix);
    && Has(n.lru, a, w) && Count(n.lru, a, w) == Count(s.lru, a, w) + 1 <= p.origin
    && (r.prefix != "" ==> Has(n.lru, b, w))
    && (r.prefix != "" ==> Count(n.lru, b, w) == Count(Touch(s.lru, a, w, p.maxBuckets), b, w) + 1 <= p.prefix)
  }

  /**
   * An admitted request raises the very counters it was checked against: with room for two buckets
   * none of them was evicted meanwhile, and each ends within its limit.
   */
  lemma AdmissionIsCounted(p: Policy, mac: LocalKey, s: State, r: Request)
    requires Usable(p) && p.maxBuckets >= 2 && Structure(s.lru, p.maxBuckets)
    ensures Allow(p, mac, s, r).1 == Admit && mac("origin", r.origin) != mac("prefix", r.prefix) ==>
      RaisesItsCounters(p, mac, s, r, Allow(p, mac, s, r).0)
  {
    hide Has, Count, Structure, Touch;
    if Allow(p, mac, s, r).1 == Admit && mac("origin", r.origin) != mac("prefix", r.prefix) {
      var w := WindowOf(p, r);
      var a := Wanted(mac("origin", r.origin), p.origin);
      var b := Wanted(mac("prefix", r.prefix), p.prefix);
      var wanted := Wants(p, mac, r);
      var n := Allow(p, mac, s, r).0;
      assert TouchAll(s.lru, wanted, w, p.maxBuckets).1;
      assert n.lru == BumpAll(TouchAll(s.lru, wanted, w, p.maxBuckets).0, wanted);
      if r.prefix == "" {
        assert wanted == [a];
        OneWanted(s.lru, a, w, p.maxBuckets);
      } else {
        assert wanted == [a, b];
        TwoWanted(s.lru, a, b, w, p.maxBuckets);
      }
    }
  }

  // ----- origins against the global counter

  /** What one entry adds to the total of window w over the keys in `origins`. */
  function OriginPart(origins: set<Digest>, e: Entry, w: int): int {
    if e.windowStart == w && e.key in origins then e.count else 0
  }

  function OriginSum(origins: set<Digest>, lru: seq<Entry>, w: int): int {
    if lru == [] then 0 else OriginPart(origins, lru[0], w) + OriginSum(origins, lru[1..], w)
  }

  ghost predicate Nonnegative(lru: seq<Entry>) {
    forall i :: 0 <= i < |lru| ==> lru[i].count >= 0
  }

  lemma {:induction false} SumWithout(origins: set<Digest>, lru: seq<Entry>, i: nat, w: int)
    requires i < |lru|
    ensures OriginSum(origins, lru, w) == OriginSum(origins, Without(lru, i), w) + OriginPart(origins, lru[i], w)
  {
    var r := Without(lru, i);
    if i == 0 {
      assert r == lru[1..];
    } else {
      SumWithout(origins, lru[1..], i - 1, w);
      assert r[0] == lru[0] && r[1..] == Without(lru[1..], i - 1);
    }
  }

  lemma {:induction false} SumUpdate(origins: set<Digest>, lru: seq<Entry>, i: nat, e: Entry, w: int)
    requires i < |lru|
    ensures OriginSum(origins, lru[i := e], w)
         == OriginSum(origins, lru, w) - OriginPart(origins, lru[i], w) + OriginPart(origins, e, w)
  {
    SumWithout(origins, lru, i, w);
    SumWithout(origins, lru[i := e], i, w);
    assert Without(lru[i := e], i) == Without(lru, i);
  }

  lemma TouchSum(origins: set<Digest>, lru: seq<Entry>, key: Digest, w: int, max: int)
    requires max >= 1 && Nonnegative(lru)
    ensures Nonnegative(Touch(lru, key, w, max))
    ensures OriginSum(origins, Touch(lru, key, w, max), w) <= OriginSum(origins, lru, w)
  {
    var n := Touch(lru, key, w, max);
    var i := IndexOf(lru, key);
    if i >= 0 {
      SumWithout(origins, lru, i, w);
      assert n[1..] == Without(lru, i);
    } else if |lru| >= max {
      SumWithout(origins, lru, |lru| - 1, w);
      assert n[1..] == Without(lru, |lru| - 1);
    } else {
      assert n[1..] == lru;
    }
  }

  lemma {:induction false} TouchAllSum(origins: set<Digest>, lru: seq<Entry>, wanted: seq<Wanted>, w: int, max: int)
    requires max >= 1 && Nonnegative(lru)
    ensures Nonnegative(TouchAll(lru, wanted, w, max).0)
    ensures OriginSum(origins, TouchAll(lru, wanted, w, max).0, w) <= OriginSum(origins, lru, w)
    decreases |wanted|
  {
    if wanted != [] {
      TouchSum(origins, lru, wanted[0].key, w, max);
      TouchAllSum(origins, Touch(lru, wanted[0].key, w, max), wanted[1..], w, max);
    }
  }

  lemma BumpSum(origins: set<Digest>, lru: seq<Entry>, key: Digest, w: int)
    requires Nonnegative(lru)
    ensures Nonnegative(Bump(lru, key))
    ensures OriginSum(origins, Bump(lru, key), w) <= OriginSum(origins, lru, w) + (if key in origins then 1 else 0)
  {
    var i := IndexOf(lru, key);
    if i >= 0 {
      SumUpdate(origins, lru, i, lru[i].(count := lru[i].count + 1), w);
    }
  }

  /** `origins` tells this request's origin key from its prefix key. */
  predicate ToldApart(mac: LocalKey, origins: set<Digest>, r: Request) {
    mac("origin", r.origin) in origins && mac("prefix", r.prefix) !in origins
  }

  lemma WantedSum(p: Policy, mac: LocalKey, origins: set<Digest>, lru: seq<Entry>, r: Request, w: int)
    requires Nonnegative(lru) && ToldApart(mac, origins, r)
    ensures Nonnegative(BumpAll(lru, Wants(p, mac, r)))
    ensures OriginSum(origins, BumpAll(lru, Wants(p, mac, r)), w) <= OriginSum(origins, lru, w) + 1
  {
    var wanted := Wants(p, mac, r);
    var l1 := Bump(lru, wanted[0].key);
    BumpSum(origins, lru, wanted[0].key, w);
    if r.prefix != "" {
      BumpSum(origins, l1, wanted[1].key, w);
      assert wanted[1..] == [wanted[1]];
      assert BumpAll(lru, wanted) == BumpAll(l1, wanted[1..]);
      BumpOne(l1, wanted[1]);
    } else {
      assert wanted == [wanted[0]];
      BumpOne(lru, wanted[0]);
    }
  }

  /** In the live window the origin counters never add up to more than the global one. */
  ghost predicate OriginsWithinGlobal(origins: set<Digest>, s: State) {
    Nonnegative(s.lru) && s.globalCount >= 0 && OriginSum(origins, s.lru, s.globalStart) <= s.globalCount
  }

  lemma {:induction false} NoneCurrent(origins: set<Digest>, lru: seq<Entry>, w: int)
    requires forall i :: 0 <= i < |lru| ==> lru[i].windowStart != w
    ensures OriginSum(origins, lru, w) == 0
  {
    if lru != [] {
      assert forall i :: 0 <= i < |lru[1..]| ==> lru[1..][i] == lru[i + 1];
      NoneCurrent(origins, lru[1..], w);
    }
  }

  lemma ServeKeepsOrigins(p: Policy, mac: LocalKey, origins: set<Digest>, s: State, r: Request)
    requires Usable(p) && ToldApart(mac, origins, r) && OriginsWithinGlobal(origins, s)
    requires s.globalStart == WindowOf(p, r)
    ensures OriginsWithinGlobal(origins, Serve(p, s, Wants(p, mac, r), WindowOf(p, r), RetryOf(p, r)).0)
  {
    var w := WindowOf(p, r);
    var retry := RetryOf(p, r);
    var wanted := Wants(p, mac, r);
    hide WindowOf, RetryOf, Wants, ToldApart, OriginSum, Nonnegative, TouchAll, BumpAll, Serve;
    var (lru, ok) := TouchAll(s.lru, wanted, w, p.maxBuckets);
    ServeUnfolds(p, s, ExactInitial, wanted, w, retry);
    if s.globalCount < p.global {
      TouchAllSum(origins, s.lru, wanted, w, p.maxBuckets);
      if ok {
        WantedSum(p, mac, origins, lru, r, w);
      }
    }
  }

  lemma ResetKeepsOrigins(origins: set<Digest>, s: State, w: int)
    requires OriginsWithinGlobal(origins, s)
    requires Ordered(s.lru, s.globalStart) && (s.globalStart <= w || s.lru == [])
    ensures OriginsWithinGlobal(origins, ResetGlobal(s, w))
  {
    if s.globalStart != w {
      NoneCurrent(origins, s.lru, w);
    }
  }

  lemma {:induction false} TouchAllOrdered(lru: seq<Entry>, wanted: seq<Wanted>, w: int, max: int)
    requires max >= 1 && Ordered(lru, w)
    ensures Ordered(TouchAll(lru, wanted, w, max).0, w)
    decreases |wanted|
  {
    if wanted != [] {
      var n := Touch(lru, wanted[0].key, w, max);
      TouchShape(lru, wanted[0].key, w, max);
      MovedOrdered(lru, n, Displaced(lru, wanted[0].key, max), w);
      TouchAllOrdered(n, wanted[1..], w, max);
    }
  }

  lemma {:induction false} BumpAllOrdered(lru: seq<Entry>, wanted: seq<Wanted>, w: int)
    requires Ordered(lru, w)
    ensures Ordered(BumpAll(lru, wanted), w)
    decreases |wanted|
  {
    if wanted != [] {
      BumpAllOrdered(Bump(lru, wanted[0].key), wanted[1..], w);
    }
  }

  lemma AllowOrdered(p: Policy, mac: LocalKey, s: State, r: Request)
    requires Usable(p) && Ordered(s.lru, WindowOf(p, r))
    ensures Ordered(Allow(p, mac, s, r).0.lru, WindowOf(p, r))
  {
    var wanted := Wants(p, mac, r);
    TouchAllOrdered(s.lru, wanted, WindowOf(p, r), p.maxBuckets);
    BumpAllOrdered(TouchAll(s.lru, wanted, WindowOf(p, r), p.maxBuckets).0, wanted, WindowOf(p, r));
  }

  /**
   * Over any in-order run in which no presented prefix has the key of a presented origin, the live origin
   * counters never add up to more than the live global counter.
   */
  lemma {:induction false} OriginsNeverExceedGlobal(
      p: Policy, mac: LocalKey, origins: set<Digest>, s: State, rs: seq<Request>)
    requires Usable(p) && InOrder(p, rs) && forall i :: 0 <= i < |rs| ==> ToldApart(mac, origins, rs[i])
    requires OriginsWithinGlobal(origins, s) && Ordered(s.lru, s.globalStart)
    requires rs != [] ==> s.globalStart <= WindowOf(p, rs[0]) || s.lru == []
    ensures OriginsWithinGlobal(origins, After(p, mac, s, rs))
    decreases |rs|
  {
    if rs != [] {
      var w := WindowOf(p, rs[0]);
      ResetKeepsOrigins(origins, s, w);
      ServeKeepsOrigins(p, mac, origins, ResetGlobal(s, w), rs[0]);
      AllowOrdered(p, mac, s, rs[0]);
      AllowGlobal(p, mac, s, rs[0]);
      assert forall i :: 0 <= i < |rs[1..]| ==> rs[1..][i] == rs[i + 1];
      OriginsNeverExceedGlobal(p, mac, origins, Allow(p, mac, s, rs[0]).0, rs[1..]);
    }
  }
}
