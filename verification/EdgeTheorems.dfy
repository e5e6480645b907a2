/** What the edge limiter promises over whole runs. */
module EdgeTheorems {
  import opened Common
  import opened Arith
  import opened EdgeModel

  // ----- window arithmetic

  lemma WindowBounds(now: int, window: int)
    requires window >= 1
    ensures WindowStart(now, window) % window == 0
    ensures now >= 0 ==> WindowStart(now, window) <= now < WindowStart(now, window) + window
    ensures now < 0 ==> WindowStart(now, window) - window < now <= WindowStart(now, window)
  {
    var q := TruncDiv(now, window);
    DivUnique(q * window, q, 0, window);
    if now < 0 {
      var n := (-now) / window;
      assert -now == n * window + (-now) % window;
      assert q == -n;
    }
  }

  lemma TruncDivMonotone(a: int, b: int, m: int)
    requires m >= 1 && a <= b
    ensures TruncDiv(a, m) <= TruncDiv(b, m)
  {
    if 0 <= a {
      DivMonotone(a, b, m);
    } else if b < 0 {
      DivMonotone(-b, -a, m);
    } else {
      DivUnique(0, 0, 0, m);
      DivMonotone(0, -a, m);
      DivMonotone(0, b, m);
    }
  }

  lemma WindowMonotone(a: int, b: int, window: int)
    requires window >= 1 && a <= b
    ensures WindowStart(a, window) <= WindowStart(b, window)
  {
    TruncDivMonotone(a, b, window);
    MulLe(TruncDiv(a, window), TruncDiv(b, window), window);
  }

  // ----- the table

  ghost predicate Structure(lru: seq<Entry>, max: int) {
    && |lru| <= max
    && (forall i, j :: 0 <= i < j < |lru| ==> lru[i].key != lru[j].key)
  }

  /** Most recent window first, none later than w. */
  ghost predicate Ordered(lru: seq<Entry>, w: int) {
    && (forall i, j :: 0 <= i < j < |lru| ==> lru[i].windowStart >= lru[j].windowStart)
    && (forall i :: 0 <= i < |lru| ==> lru[i].windowStart <= w)
  }

  /** The buckets of window w belong to keys of t. */
  ghost predicate CurrentIn(lru: seq<Entry>, w: int, t: set<Digest>) {
    forall i :: 0 <= i < |lru| && lru[i].windowStart == w ==> lru[i].key in t
  }

  /** What the table remembers about a key in a window. */
  function Count(lru: seq<Entry>, key: Digest, w: int): int {
    var i := IndexOf(lru, key);
    if i >= 0 && lru[i].windowStart == w then lru[i].count else 0
  }

  function GlobalCount(s: State, w: int): int {
    if s.globalStart == w then s.globalCount else 0
  }

  lemma CountAt(lru: seq<Entry>, max: int, i: int)
    requires Structure(lru, max) && 0 <= i < |lru|
    ensures IndexOf(lru, lru[i].key) == i
  {
  }

  /** `n` is some front entry followed by `lru` without position v; v == |lru| removes nothing. */
  ghost predicate Moved(lru: seq<Entry>, n: seq<Entry>, v: nat) {
    && v <= |lru|
    && |n| == (if v < |lru| then |lru| else |lru| + 1)
    && (forall j :: 1 <= j <= v ==> n[j] == lru[j - 1])
    && (forall j :: v < j < |lru| ==> n[j] == lru[j])
  }

  /** The position `Touch` displaces: the key's own, else the last one when the table is full. */
  function Displaced(lru: seq<Entry>, key: Digest, max: int): nat {
    var i := IndexOf(lru, key);
    if i >= 0 then i else if |lru| >= max && lru != [] then |lru| - 1 else |lru|
  }

  lemma FrontAndRest(lru: seq<Entry>, front: Entry, v: nat)
    requires v <= |lru|
    ensures Moved(lru, [front] + (if v < |lru| then Without(lru, v) else lru), v)
  {
    hide Without;
    var rest := if v < |lru| then Without(lru, v) else lru;
    var n := [front] + rest;
    assert forall j :: 1 <= j < |n| ==> n[j] == rest[j - 1];
  }

  lemma TouchShape(lru: seq<Entry>, key: Digest, w: int, max: int)
    requires max >= 1
    ensures var n := Touch(lru, key, w, max);
      && Moved(lru, n, Displaced(lru, key, max))
      && n[0] == (var i := IndexOf(lru, key); if i >= 0 then ResetEntry(lru[i], w) else Entry(key, w, 0))
  {
    hide Moved;
    FrontAndRest(lru, Touch(lru, key, w, max)[0], Displaced(lru, key, max));
  }

  lemma MovedStructure(lru: seq<Entry>, n: seq<Entry>, v: nat, max: int)
    requires Structure(lru, max) && Moved(lru, n, v) && |n| <= max
    requires forall j :: 0 <= j < |lru| && j != v ==> lru[j].key != n[0].key
    ensures Structure(n, max)
  {
  }

  lemma MovedOrdered(lru: seq<Entry>, n: seq<Entry>, v: nat, w: int)
    requires Ordered(lru, w) && Moved(lru, n, v) && n[0].windowStart == w
    ensures Ordered(n, w)
  {
  }

  lemma MovedCurrent(lru: seq<Entry>, n: seq<Entry>, v: nat, w: int, t: set<Digest>)
    requires CurrentIn(lru, w, t) && Moved(lru, n, v) && n[0].windowStart == w
    ensures CurrentIn(n, w, t + {n[0].key})
  {
  }

  lemma MovedKeepsOthers(lru: seq<Entry>, n: seq<Entry>, v: nat, i: nat)
    requires Moved(lru, n, v) && i < |lru| && i != v
    ensures lru[i] in n
  {
    if i < v { assert n[i + 1] == lru[i]; } else { assert n[i] == lru[i]; }
  }

  lemma TouchStructure(lru: seq<Entry>, key: Digest, w: int, max: int)
    requires Structure(lru, max) && max >= 1
    ensures Structure(Touch(lru, key, w, max), max)
    ensures Touch(lru, key, w, max)[0].key == key && Touch(lru, key, w, max)[0].windowStart == w
  {
    TouchShape(lru, key, w, max);
    MovedStructure(lru, Touch(lru, key, w, max), Displaced(lru, key, max), max);
  }

  lemma {:induction false} DistinctKeysFit(lru: seq<Entry>, max: int, t: set<Digest>)
    requires Structure(lru, max)
    requires forall i :: 0 <= i < |lru| ==> lru[i].key in t
    ensures |lru| <= |t|
  {
    if lru != [] {
      var rest := lru[1..];
      assert forall i :: 0 <= i < |rest| ==> rest[i] == lru[i + 1];
      DistinctKeysFit(rest, max, t - {lru[0].key});
    }
  }

  /** Eviction takes a stale bucket as long as the window's keys fit in the table. */
  lemma EvictsStale(lru: seq<Entry>, key: Digest, w: int, max: int, t: set<Digest>)
    requires Structure(lru, max) && Ordered(lru, w) && CurrentIn(lru, w, t) && max >= 1
    requires |t + {key}| <= max && |lru| >= max && IndexOf(lru, key) < 0
    ensures lru[|lru| - 1].windowStart < w
  {
    if lru[|lru| - 1].windowStart >= w {
      assert forall i :: 0 <= i < |lru| ==> lru[i].key in t - {key};
      DistinctKeysFit(lru, max, t - {key});
    }
  }

  /** A count depends only on the entries of that key and window. */
  lemma SameEntriesSameCount(a: seq<Entry>, b: seq<Entry>, max: int, k: Digest, v: int)
    requires Structure(a, max) && Structure(b, max)
    requires forall i :: 0 <= i < |a| && a[i].key == k && a[i].windowStart == v ==> a[i] in b
    requires forall i :: 0 <= i < |b| && b[i].key == k && b[i].windowStart == v ==> b[i] in a
    ensures Count(a, k, v) == Count(b, k, v)
  {
  }

  lemma MovedOther(lru: seq<Entry>, n: seq<Entry>, v: nat, max: int, k: Digest, w: int)
    requires Structure(lru, max) && Structure(n, max) && Moved(lru, n, v) && k != n[0].key
    requires v < |lru| ==> lru[v].key != k || lru[v].windowStart != w
    ensures Count(n, k, w) == Count(lru, k, w)
  {
    forall i | 0 <= i < |lru| && lru[i].key == k && lru[i].windowStart == w
      ensures lru[i] in n
    {
      MovedKeepsOthers(lru, n, v, i);
    }
    SameEntriesSameCount(n, lru, max, k, w);
  }

  lemma MovedKeepsCount(lru: seq<Entry>, n: seq<Entry>, key: Digest, w: int, max: int, k: Digest, v: int)
    requires Structure(lru, max) && Ordered(lru, w) && max >= 1 && v >= w
    requires Structure(n, max) && Moved(lru, n, Displaced(lru, key, max))
    requires n[0] == (var i := IndexOf(lru, key); if i >= 0 then ResetEntry(lru[i], w) else Entry(key, w, 0))
    requires IndexOf(lru, key) < 0 && |lru| >= max ==> lru[|lru| - 1].windowStart < w
    ensures Count(n, k, v) == Count(lru, k, v)
  {
    if k == key {
      CountAt(n, max, 0);
    } else {
      MovedOther(lru, n, Displaced(lru, key, max), max, k, v);
    }
  }

  lemma TouchKeepsCount(lru: seq<Entry>, key: Digest, w: int, max: int, k: Digest, v: int)
    requires Structure(lru, max) && Ordered(lru, w) && max >= 1 && v >= w
    requires IndexOf(lru, key) < 0 && |lru| >= max ==> lru[|lru| - 1].windowStart < w
    ensures Count(Touch(lru, key, w, max), k, v) == Count(lru, k, v)
  {
    TouchShape(lru, key, w, max);
    TouchStructure(lru, key, w, max);
    MovedKeepsCount(lru, Touch(lru, key, w, max), key, w, max, k, v);
  }

  /** Touching a bucket forgets nothing about window w or any later one. */
  lemma TouchKeepsCounts(lru: seq<Entry>, key: Digest, w: int, max: int, t: set<Digest>)
    requires Structure(lru, max) && Ordered(lru, w) && CurrentIn(lru, w, t) && max >= 1
    requires |t + {key}| <= max
    ensures var n := Touch(lru, key, w, max);
      && Structure(n, max) && Ordered(n, w) && CurrentIn(n, w, t + {key})
      && n[0] == Entry(key, w, Count(lru, key, w))
      && (forall k, v :: v >= w ==> Count(n, k, v) == Count(lru, k, v))
  {
    TouchStructure(lru, key, w, max);
    TouchShape(lru, key, w, max);
    MovedOrdered(lru, Touch(lru, key, w, max), Displaced(lru, key, max), w);
    MovedCurrent(lru, Touch(lru, key, w, max), Displaced(lru, key, max), w, t);
    if IndexOf(lru, key) < 0 && |lru| >= max {
      EvictsStale(lru, key, w, max, t);
    }
    forall k, v | v >= w
      ensures Count(Touch(lru, key, w, max), k, v) == Count(lru, k, v)
    {
      TouchKeepsCount(lru, key, w, max, k, v);
    }
  }

  lemma BumpedCount(lru: seq<Entry>, n: seq<Entry>, at: nat, max: int, k: Digest, v: int)
    requires Structure(lru, max) && at < |lru| && n == lru[at := lru[at].(count := lru[at].count + 1)]
    ensures Structure(n, max)
    ensures Count(n, k, v) == Count(lru, k, v) + (if k == lru[at].key && v == lru[at].windowStart then 1 else 0)
  {
    var i := IndexOf(lru, k);
    CountAt(lru, max, at);
    if i >= 0 {
      assert n[i].key == k;
      CountAt(n, max, i);
    }
  }

  lemma BumpCounts(lru: seq<Entry>, key: Digest, w: int, max: int, t: set<Digest>)
    requires Structure(lru, max) && Ordered(lru, w) && CurrentIn(lru, w, t)
    requires exists i :: 0 <= i < |lru| && lru[i].key == key && lru[i].windowStart == w
    ensures var n := Bump(lru, key);
      && Structure(n, max) && Ordered(n, w) && CurrentIn(n, w, t)
      && (forall i :: 0 <= i < |lru| ==> n[i].key == lru[i].key && n[i].windowStart == lru[i].windowStart)
      && |n| == |lru|
      && (forall k, v :: Count(n, k, v) == Count(lru, k, v) + (if k == key && v == w then 1 else 0))
  {
    var n := Bump(lru, key);
    var at :| 0 <= at < |lru| && lru[at].key == key && lru[at].windowStart == w;
    CountAt(lru, max, at);
    assert n == lru[at := lru[at].(count := lru[at].count + 1)];
    hide Bump, Count, IndexOf;
    forall k, v
      ensures Count(n, k, v) == Count(lru, k, v) + (if k == key && v == w then 1 else 0)
    {
      BumpedCount(lru, n, at, max, k, v);
    }
  }

  // ----- one request against the reference

  predicate Has(lru: seq<Entry>, key: Digest, w: int) {
    exists i :: 0 <= i < |lru| && lru[i].key == key && lru[i].windowStart == w
  }

  ghost predicate CountsAgree(lru: seq<Entry>, e: Exact, w: int) {
    forall k, v :: v >= w ==> Count(lru, k, v) == ExactCount(e, k, v)
  }

  ghost predicate TableAgrees(lru: seq<Entry>, max: int, e: Exact, w: int, t: set<Digest>) {
    Structure(lru, max) && Ordered(lru, w) && CurrentIn(lru, w, t) && CountsAgree(lru, e, w)
  }

  ghost predicate GlobalsAgree(s: State, e: Exact, w: int) {
    && (forall v :: v >= w ==> GlobalCount(s, v) == ExactGlobal(e, v))
    && (forall v :: v > w ==> ExactGlobal(e, v) == 0)
  }

  /** The bounded table and the unbounded counters answer alike from window w on. */
  ghost predicate Agrees(p: Policy, s: State, e: Exact, w: int, t: set<Digest>) {
    GlobalsAgree(s, e, w) && TableAgrees(s.lru, p.maxBuckets, e, w, t)
  }

  lemma KeysOfHead(wanted: seq<Wanted>)
    requires wanted != []
    ensures KeysOf(wanted) == {wanted[0].key} + KeysOf(wanted[1..])
  {
    forall k | k in KeysOf(wanted)
      ensures k in {wanted[0].key} + KeysOf(wanted[1..])
    {
      var i :| 0 <= i < |wanted| && wanted[i].key == k;
      if i > 0 { assert wanted[1..][i - 1].key == k; }
    }
  }

  lemma TouchHas(lru: seq<Entry>, key: Digest, w: int, max: int, t: set<Digest>, k: Digest)
    requires Structure(lru, max) && Ordered(lru, w) && CurrentIn(lru, w, t) && max >= 1 && |t + {key}| <= max
    requires k == key || Has(lru, k, w)
    ensures Has(Touch(lru, key, w, max), k, w)
  {
    var n := Touch(lru, key, w, max);
    TouchShape(lru, key, w, max);
    if IndexOf(lru, key) < 0 && |lru| >= max {
      EvictsStale(lru, key, w, max, t);
    }
    if k != key {
      var i :| 0 <= i < |lru| && lru[i].key == k && lru[i].windowStart == w;
      MovedKeepsOthers(lru, n, Displaced(lru, key, max), i);
    } else {
      assert n[0].key == k && n[0].windowStart == w;
    }
  }

  /** The invariant of one lookup, with the key budget of the remaining ones. */
  lemma TouchStep(lru: seq<Entry>, wanted: seq<Wanted>, w: int, max: int, t: set<Digest>)
    requires Structure(lru, max) && Ordered(lru, w) && CurrentIn(lru, w, t) && max >= 1
    requires wanted != [] && |t + KeysOf(wanted)| <= max
    ensures var n := Touch(lru, wanted[0].key, w, max);
      && Structure(n, max) && Ordered(n, w) && CurrentIn(n, w, t + {wanted[0].key})
    ensures |t + {wanted[0].key}| <= max
    ensures t + {wanted[0].key} + KeysOf(wanted[1..]) == t + KeysOf(wanted)
  {
    KeysOfHead(wanted);
    SubsetSize(t + {wanted[0].key}, t + KeysOf(wanted));
    TouchKeepsCounts(lru, wanted[0].key, w, max, t);
    assert t + {wanted[0].key} + KeysOf(wanted[1..]) == t + KeysOf(wanted);
  }

  lemma {:induction false} TouchAllSpec(lru: seq<Entry>, wanted: seq<Wanted>, w: int, max: int, t: set<Digest>)
    requires Structure(lru, max) && Ordered(lru, w) && CurrentIn(lru, w, t) && max >= 1
    requires |t + KeysOf(wanted)| <= max
    ensures var (n, ok) := TouchAll(lru, wanted, w, max);
      && Structure(n, max) && Ordered(n, w) && CurrentIn(n, w, t + KeysOf(wanted))
      && (forall k, v :: v >= w ==> Count(n, k, v) == Count(lru, k, v))
      && (ok <==> forall i :: 0 <= i < |wanted| ==> Count(lru, wanted[i].key, w) < wanted[i].limit)
    decreases |wanted|
  {
    hide Structure, Ordered, Count, Touch;
    if wanted == [] {
      assert t + KeysOf(wanted) == t;
    } else {
      var key := wanted[0].key;
      var next := Touch(lru, key, w, max);
      TouchStep(lru, wanted, w, max, t);
      TouchKeepsCounts(lru, key, w, max, t);
      if next[0].count < wanted[0].limit {
        TouchAllSpec(next, wanted[1..], w, max, t + {key});
        assert forall i :: 1 <= i < |wanted| ==> wanted[i] == wanted[1..][i - 1];
      }
    }
  }

  /** A bucket current in window w survives the whole lookup phase. */
  lemma {:induction false} TouchAllKeepsHas(
      lru: seq<Entry>, wanted: seq<Wanted>, w: int, max: int, t: set<Digest>, k: Digest)
    requires Structure(lru, max) && Ordered(lru, w) && CurrentIn(lru, w, t) && max >= 1
    requires |t + KeysOf(wanted)| <= max && Has(lru, k, w)
    ensures Has(TouchAll(lru, wanted, w, max).0, k, w)
    decreases |wanted|
  {
    hide Structure, Ordered, CurrentIn, Has, Touch;
    if wanted != [] {
      TouchStep(lru, wanted, w, max, t);
      TouchHas(lru, wanted[0].key, w, max, t, k);
      TouchAllKeepsHas(Touch(lru, wanted[0].key, w, max), wanted[1..], w, max, t + {wanted[0].key}, k);
    }
  }

  /** Every bucket looked up for an admitted request is still in the table when it counts. */
  lemma {:induction false} TouchAllHas(
      lru: seq<Entry>, wanted: seq<Wanted>, w: int, max: int, t: set<Digest>, i: nat)
    requires Structure(lru, max) && Ordered(lru, w) && CurrentIn(lru, w, t) && max >= 1
    requires |t + KeysOf(wanted)| <= max && i < |wanted|
    requires TouchAll(lru, wanted, w, max).1
    ensures Has(TouchAll(lru, wanted, w, max).0, wanted[i].key, w)
    decreases |wanted|
  {
    hide Structure, Ordered, CurrentIn, Has, Touch;
    var key := wanted[0].key;
    var next := Touch(lru, key, w, max);
    TouchStep(lru, wanted, w, max, t);
    if i == 0 {
      TouchHas(lru, key, w, max, t, key);
      TouchAllKeepsHas(next, wanted[1..], w, max, t + {key}, key);
    } else {
      TouchAllHas(next, wanted[1..], w, max, t + {key}, i - 1);
    }
  }

  lemma BumpAgrees(lru: seq<Entry>, e: Exact, key: Digest, w: int, max: int, t: set<Digest>)
    requires Structure(lru, max) && Ordered(lru, w) && CurrentIn(lru, w, t) && CountsAgree(lru, e, w)
    requires Has(lru, key, w)
    ensures var n := Bump(lru, key);
      && Structure(n, max) && Ordered(n, w) && CurrentIn(n, w, t)
      && CountsAgree(n, e.(counts := e.counts[(key, w) := ExactCount(e, key, w) + 1]), w)
      && (forall k :: Has(lru, k, w) ==> Has(n, k, w))
  {
    BumpCounts(lru, key, w, max, t);
    var n := Bump(lru, key);
    forall k | Has(lru, k, w)
      ensures Has(n, k, w)
    {
      var i :| 0 <= i < |lru| && lru[i].key == k && lru[i].windowStart == w;
      assert n[i].key == k && n[i].windowStart == w;
    }
  }

  ghost predicate HasAll(lru: seq<Entry>, wanted: seq<Wanted>, w: int) {
    forall i :: 0 <= i < |wanted| ==> Has(lru, wanted[i].key, w)
  }

  lemma HasAllTail(lru: seq<Entry>, wanted: seq<Wanted>, w: int)
    requires wanted != [] && HasAll(lru, wanted, w)
    ensures Has(lru, wanted[0].key, w) && HasAll(lru, wanted[1..], w)
  {
    forall i | 0 <= i < |wanted[1..]|
      ensures Has(lru, wanted[1..][i].key, w)
    {
      assert wanted[1..][i] == wanted[i + 1];
    }
  }

  lemma HasAllKept(lru: seq<Entry>, n: seq<Entry>, wanted: seq<Wanted>, w: int)
    requires HasAll(lru, wanted, w) && forall k :: Has(lru, k, w) ==> Has(n, k, w)
    ensures HasAll(n, wanted, w)
  {
    hide Has;
  }

  lemma {:induction false} BumpAllAgrees(
      lru: seq<Entry>, e: Exact, wanted: seq<Wanted>, w: int, max: int, t: set<Digest>)
    requires Structure(lru, max) && Ordered(lru, w) && CurrentIn(lru, w, t) && CountsAgree(lru, e, w)
    requires HasAll(lru, wanted, w)
    ensures var n := BumpAll(lru, wanted);
      && Structure(n, max) && Ordered(n, w) && CurrentIn(n, w, t) && CountsAgree(n, ExactBumpAll(e, wanted, w), w)
    ensures ExactBumpAll(e, wanted, w).globals == e.globals
    decreases |wanted|
  {
    hide Structure, Ordered, CurrentIn, CountsAgree, HasAll, Has, Bump;
    if wanted != [] {
      var key := wanted[0].key;
      HasAllTail(lru, wanted, w);
      BumpAgrees(lru, e, key, w, max, t);
      var n := Bump(lru, key);
      var e' := e.(counts := e.counts[(key, w) := ExactCount(e, key, w) + 1]);
      HasAllKept(lru, n, wanted[1..], w);
      BumpAllAgrees(n, e', wanted[1..], w, max, t);
      assert BumpAll(lru, wanted) == BumpAll(n, wanted[1..]);
    }
  }

  lemma AdvanceWindow(p: Policy, s: State, e: Exact, w: int, t: set<Digest>, w': int)
    requires Agrees(p, s, e, w, t) && w <= w'
    ensures Agrees(p, s, e, w', if w' == w then t else {})
  {
  }

  lemma AdmitAgrees(lru: seq<Entry>, max: int, e: Exact, wanted: seq<Wanted>, w: int, t: set<Digest>)
    requires max >= 1 && |t + KeysOf(wanted)| <= max && TableAgrees(lru, max, e, w, t)
    requires TouchAll(lru, wanted, w, max).1
    ensures TableAgrees(BumpAll(TouchAll(lru, wanted, w, max).0, wanted), max, ExactBumpAll(e, wanted, w), w,
                        t + KeysOf(wanted))
    ensures ExactBumpAll(e, wanted, w).globals == e.globals
  {
    TouchAllSpec(lru, wanted, w, max, t);
    var n := TouchAll(lru, wanted, w, max).0;
    forall i | 0 <= i < |wanted|
      ensures Has(n, wanted[i].key, w)
    {
      TouchAllHas(lru, wanted, w, max, t, i);
    }
    BumpAllAgrees(n, e, wanted, w, max, t + KeysOf(wanted));
  }

  lemma LookupAgrees(lru: seq<Entry>, max: int, e: Exact, wanted: seq<Wanted>, w: int, t: set<Digest>)
    requires max >= 1 && |t + KeysOf(wanted)| <= max && TableAgrees(lru, max, e, w, t)
    ensures TouchAll(lru, wanted, w, max).1 == ExactOk(e, wanted, w)
    ensures TableAgrees(TouchAll(lru, wanted, w, max).0, max, e, w, t + KeysOf(wanted))
  {
    TouchAllSpec(lru, wanted, w, max, t);
  }

  lemma AdmitGlobals(s: State, s': State, e: Exact, e': Exact, w: int)
    requires GlobalsAgree(s, e, w) && s.globalStart == w == s'.globalStart && s'.globalCount == s.globalCount + 1
    requires e'.globals == e.globals[w := ExactGlobal(e, w) + 1]
    ensures GlobalsAgree(s', e', w)
  {
    assert GlobalCount(s, w) == ExactGlobal(e, w);
    assert forall v :: v != w ==> ExactGlobal(e', v) == ExactGlobal(e, v);
  }

  lemma ResetAgrees(p: Policy, s: State, e: Exact, w: int, t: set<Digest>)
    requires Agrees(p, s, e, w, t)
    ensures Agrees(p, ResetGlobal(s, w), e, w, t) && ResetGlobal(s, w).globalStart == w
  {
    assert GlobalCount(s, w) == ExactGlobal(e, w);
  }

  lemma GlobalsMeet(p: Policy, s: State, e: Exact, w: int, t: set<Digest>)
    requires Agrees(p, s, e, w, t) && s.globalStart == w
    ensures s.globalCount == ExactGlobal(e, w) && GlobalsAgree(s, e, w) && TableAgrees(s.lru, p.maxBuckets, e, w, t)
  {
    assert GlobalCount(s, w) == ExactGlobal(e, w);
  }

  lemma DenyAgrees(p: Policy, s: State, e: Exact, w: int, t: set<Digest>, more: set<Digest>)
    requires Agrees(p, s, e, w, t)
    ensures Agrees(p, s, e, w, t + more)
  {
    hide GlobalsAgree;
    TableWeaken(s.lru, p.maxBuckets, e, w, t, more);
    hide TableAgrees;
  }

  lemma RefuseAgrees(p: Policy, s: State, e: Exact, wanted: seq<Wanted>, w: int, t: set<Digest>)
    requires Usable(p) && Agrees(p, s, e, w, t) && |t + KeysOf(wanted)| <= p.maxBuckets
    ensures Agrees(p, s.(lru := TouchAll(s.lru, wanted, w, p.maxBuckets).0), e, w, t + KeysOf(wanted))
  {
    hide Structure, Ordered, CurrentIn, CountsAgree, TouchAll, ExactOk;
    LookupAgrees(s.lru, p.maxBuckets, e, wanted, w, t);
    SameGlobalsAgree(s, s.(lru := TouchAll(s.lru, wanted, w, p.maxBuckets).0), e, w);
  }

  lemma ServeUnfolds(p: Policy, s: State, e: Exact, wanted: seq<Wanted>, w: int, retry: int)
    requires Usable(p)
    ensures var touched := TouchAll(s.lru, wanted, w, p.maxBuckets);
      Serve(p, s, wanted, w, retry) ==
        if s.globalCount >= p.global then (s, Deny(retry))
        else if !touched.1 then (s.(lru := touched.0), Deny(retry))
        else (State(s.globalStart, s.globalCount + 1, BumpAll(touched.0, wanted)), Admit)
    ensures ExactServe(p, e, wanted, w, retry) ==
        if ExactGlobal(e, w) < p.global && ExactOk(e, wanted, w)
        then (ExactBumpAll(e.(globals := e.globals[w := ExactGlobal(e, w) + 1]), wanted, w), Admit)
        else (e, Deny(retry))
  {
    hide TouchAll, BumpAll, ExactBumpAll, ExactOk, ExactGlobal;
  }

  lemma ServeAgrees(p: Policy, s: State, e: Exact, wanted: seq<Wanted>, w: int, retry: int, t: set<Digest>)
    requires Usable(p) && Agrees(p, s, e, w, t) && s.globalStart == w
    requires |t + KeysOf(wanted)| <= p.maxBuckets
    ensures Serve(p, s, wanted, w, retry).1 == ExactServe(p, e, wanted, w, retry).1
    ensures Agrees(p, Serve(p, s, wanted, w, retry).0, ExactServe(p, e, wanted, w, retry).0, w, t + KeysOf(wanted))
  {
    assert p.maxBuckets >= 1;
    hide *;
    ServeUnfolds(p, s, e, wanted, w, retry);
    GlobalsMeet(p, s, e, w, t);
    LookupAgrees(s.lru, p.maxBuckets, e, wanted, w, t);
    if s.globalCount >= p.global {
      DenyAgrees(p, s, e, w, t, KeysOf(wanted));
    } else if !TouchAll(s.lru, wanted, w, p.maxBuckets).1 {
      RefuseAgrees(p, s, e, wanted, w, t);
    } else {
      AdmitBoth(p, s, e, wanted, w, t);
    }
  }

  lemma TableWeaken(lru: seq<Entry>, max: int, e: Exact, w: int, t: set<Digest>, more: set<Digest>)
    requires TableAgrees(lru, max, e, w, t)
    ensures TableAgrees(lru, max, e, w, t + more)
  {
  }

  lemma AdmitBoth(p: Policy, s: State, e: Exact, wanted: seq<Wanted>, w: int, t: set<Digest>)
    requires Usable(p) && Agrees(p, s, e, w, t) && s.globalStart == w
    requires |t + KeysOf(wanted)| <= p.maxBuckets && TouchAll(s.lru, wanted, w, p.maxBuckets).1
    ensures var n := State(w, s.globalCount + 1, BumpAll(TouchAll(s.lru, wanted, w, p.maxBuckets).0, wanted));
      Agrees(p, n, ExactBumpAll(e.(globals := e.globals[w := ExactGlobal(e, w) + 1]), wanted, w), w, t + KeysOf(wanted))
  {
    hide TableAgrees, GlobalsAgree, TouchAll, BumpAll, ExactBumpAll, ExactGlobal, KeysOf;
    var e1 := e.(globals := e.globals[w := ExactGlobal(e, w) + 1]);
    SameCountsAgree(s.lru, p.maxBuckets, e, e1, w, t);
    AdmitAgrees(s.lru, p.maxBuckets, e1, wanted, w, t);
    var n := State(w, s.globalCount + 1, BumpAll(TouchAll(s.lru, wanted, w, p.maxBuckets).0, wanted));
    AdmitGlobals(s, n, e, ExactBumpAll(e1, wanted, w), w);
  }

  lemma SameCountsAgree(lru: seq<Entry>, max: int, e: Exact, e': Exact, w: int, t: set<Digest>)
    requires TableAgrees(lru, max, e, w, t) && e'.counts == e.counts
    ensures TableAgrees(lru, max, e', w, t)
  {
    assert forall k, v :: ExactCount(e', k, v) == ExactCount(e, k, v);
  }

  lemma SameGlobalsAgree(s: State, s': State, e: Exact, w: int)
    requires GlobalsAgree(s, e, w) && s'.globalStart == s.globalStart && s'.globalCount == s.globalCount
    ensures GlobalsAgree(s', e, w)
  {
    assert forall v :: GlobalCount(s', v) == GlobalCount(s, v);
  }

  /** One request: same decision, and the two still agree. */
  lemma AllowAgrees(p: Policy, mac: LocalKey, s: State, e: Exact, r: Request, t: set<Digest>)
    requires Usable(p)
    requires Agrees(p, s, e, WindowOf(p, r), t)
    requires |t + KeysOf(Wants(p, mac, r))| <= p.maxBuckets
    ensures Allow(p, mac, s, r).1 == ExactAllow(p, mac, e, r).1
    ensures Agrees(p, Allow(p, mac, s, r).0, ExactAllow(p, mac, e, r).0, WindowOf(p, r), t + KeysOf(Wants(p, mac, r)))
  {
    var w := WindowOf(p, r);
    ResetAgrees(p, s, e, w, t);
    ServeAgrees(p, ResetGlobal(s, w), e, Wants(p, mac, r), w, RetryOf(p, r), t);
  }

  // ----- whole runs

  lemma {:induction false} RunAgrees(
      p: Policy, mac: LocalKey, s: State, e: Exact, rs: seq<Request>, w: int, t: set<Digest>)
    requires Usable(p) && InOrder(p, rs)
    requires rs != [] ==> w <= WindowOf(p, rs[0])
    requires Agrees(p, s, e, w, t)
    requires forall v :: |(if v == w then t else {}) + Presented(p, mac, rs, v)| <= p.maxBuckets
    ensures Decisions(p, mac, s, rs) == ExactDecisions(p, mac, e, rs)
    decreases |rs|
  {
    if rs != [] {
      var w' := WindowOf(p, rs[0]);
      var t' := if w' == w then t else {};
      var keys := KeysOf(Wants(p, mac, rs[0]));
      AdvanceWindow(p, s, e, w, t, w');
      SubsetSize(t' + keys, t' + Presented(p, mac, rs, w'));
      AllowAgrees(p, mac, s, e, rs[0], t');
      forall v
        ensures |(if v == w' then t' + keys else {}) + Presented(p, mac, rs[1..], v)| <= p.maxBuckets
      {
        SubsetSize((if v == w' then t' + keys else {}) + Presented(p, mac, rs[1..], v),
                   (if v == w then t else {}) + Presented(p, mac, rs, v));
      }
      assert forall i :: 0 <= i < |rs| - 1 ==> rs[1..][i] == rs[i + 1];
      RunAgrees(p, mac, Allow(p, mac, s, rs[0]).0, ExactAllow(p, mac, e, rs[0]).0, rs[1..], w', t' + keys);
    }
  }

  /**
   * The bounded LRU answers every request exactly as unbounded per-key counters would, provided
   * windows do not go back and no window presents more keys than the table holds.
   */
  lemma LruRefinesExact(p: Policy, mac: LocalKey, rs: seq<Request>)
    requires Usable(p) && InOrder(p, rs)
    requires forall w :: |Presented(p, mac, rs, w)| <= p.maxBuckets
    ensures Decisions(p, mac, Initial, rs) == ExactDecisions(p, mac, ExactInitial, rs)
  {
    var w := if rs == [] then 0 else WindowOf(p, rs[0]);
    assert forall v :: (if v == w then {} else {}) + Presented(p, mac, rs, v) == Presented(p, mac, rs, v);
    RunAgrees(p, mac, Initial, ExactInitial, rs, w, {});
  }
}
