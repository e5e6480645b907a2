/** The edge limiter as the program keeps it: bucket objects shared by a list and a map. */
module EdgeLimiter {
  import opened Common
  import opened EdgeModel

  class Bucket {
    const key: Digest
    var windowStart: int
    var count: int

    constructor (key: Digest, windowStart: int)
      ensures this.key == key && this.windowStart == windowStart && count == 0
    {
      this.key, this.windowStart, this.count := key, windowStart, 0;
    }

    function Value(): Entry
      reads this
    {
      Entry(key, windowStart, count)
    }

    method Reset(w: int)
      modifies this
      ensures Value() == ResetEntry(old(Value()), w)
    {
      if windowStart != w {
        windowStart, count := w, 0;
      }
    }
  }

  /** The buckets as values, front first. */
  function Values(bs: seq<Bucket>): (es: seq<Entry>)
    reads bs
    ensures |es| == |bs| && forall i :: 0 <= i < |bs| ==> es[i] == bs[i].Value()
  {
    seq(|bs|, i requires 0 <= i < |bs| reads bs => bs[i].Value())
  }

  lemma ValuesCons(b: Bucket, bs: seq<Bucket>)
    ensures Values([b] + bs) == [b.Value()] + Values(bs)
  {
  }

  // ----- list and map on the bucket references (keys never change, so no heap is read)

  ghost predicate KeysDiffer(lru: seq<Bucket>) {
    forall i, j :: 0 <= i < j < |lru| ==> lru[i].key != lru[j].key
  }

  ghost predicate Mapped(lru: seq<Bucket>, items: map<Digest, Bucket>) {
    forall i :: 0 <= i < |lru| ==> lru[i].key in items && items[lru[i].key] == lru[i]
  }

  ghost predicate Listed(lru: seq<Bucket>, items: map<Digest, Bucket>) {
    forall k :: k in items ==> items[k] in lru && items[k].key == k
  }

  ghost predicate Linked(lru: seq<Bucket>, items: map<Digest, Bucket>) {
    KeysDiffer(lru) && Mapped(lru, items) && Listed(lru, items)
  }

  function RemoveAt(bs: seq<Bucket>, i: nat): (r: seq<Bucket>)
    requires i < |bs|
    ensures |r| == |bs| - 1
    ensures forall j :: 0 <= j < i ==> r[j] == bs[j]
    ensures forall j :: i <= j < |r| ==> r[j] == bs[j + 1]
    ensures forall j :: 0 <= j < |bs| && j != i ==> bs[j] in r
  {
    var r := bs[..i] + bs[i + 1..];
    assert forall j :: 0 <= j < i ==> bs[j] == r[j];
    assert forall j :: i < j < |bs| ==> bs[j] == r[j - 1];
    r
  }

  lemma ValuesRemoved(bs: seq<Bucket>, i: nat)
    requires i < |bs|
    ensures Values(RemoveAt(bs, i)) == Without(Values(bs), i)
  {
  }

  lemma LinkedKeys(bs: seq<Bucket>, items: map<Digest, Bucket>, key: Digest)
    requires Linked(bs, items)
    ensures forall i, j :: 0 <= i < j < |bs| ==> Values(bs)[i].key != Values(bs)[j].key
    ensures key in items ==> items[key] in bs && items[key].key == key
    ensures key !in items ==> forall i :: 0 <= i < |bs| ==> bs[i].key != key
  {
  }

  lemma LinkedDistinct(bs: seq<Bucket>, items: map<Digest, Bucket>, i: nat)
    requires Linked(bs, items) && i < |bs|
    ensures bs[i] !in RemoveAt(bs, i)
  {
  }

  lemma RemovedKeysDiffer(bs: seq<Bucket>, i: nat)
    requires KeysDiffer(bs) && i < |bs|
    ensures KeysDiffer(RemoveAt(bs, i))
    ensures forall j :: 0 <= j < |bs| - 1 ==> RemoveAt(bs, i)[j].key != bs[i].key
  {
    var r := RemoveAt(bs, i);
    hide RemoveAt;
    assert forall j :: 0 <= j < |r| ==> r[j] == bs[if j < i then j else j + 1];
  }

  lemma RemovedMapped(bs: seq<Bucket>, items: map<Digest, Bucket>, i: nat)
    requires Mapped(bs, items) && i < |bs|
    ensures Mapped(RemoveAt(bs, i), items)
  {
    var r := RemoveAt(bs, i);
    hide RemoveAt;
    assert forall j :: 0 <= j < |r| ==> r[j] == bs[if j < i then j else j + 1];
  }

  lemma RemovedListed(bs: seq<Bucket>, items: map<Digest, Bucket>, i: nat, k: Digest)
    requires Listed(bs, items) && i < |bs| && k in items && items[k] != bs[i]
    ensures items[k] in RemoveAt(bs, i)
  {
    hide RemoveAt;
    var j :| 0 <= j < |bs| && bs[j] == items[k];
  }

  lemma FrontKeysDiffer(b: Bucket, bs: seq<Bucket>)
    requires KeysDiffer(bs) && forall j :: 0 <= j < |bs| ==> bs[j].key != b.key
    ensures KeysDiffer([b] + bs)
  {
    assert forall j :: 1 <= j < |bs| + 1 ==> ([b] + bs)[j] == bs[j - 1];
  }

  lemma FrontMapped(b: Bucket, bs: seq<Bucket>, items: map<Digest, Bucket>)
    requires Mapped(bs, items) && b.key in items && items[b.key] == b
    ensures Mapped([b] + bs, items)
  {
    assert forall j :: 1 <= j < |bs| + 1 ==> ([b] + bs)[j] == bs[j - 1];
  }

  lemma MovedListed(bs: seq<Bucket>, items: map<Digest, Bucket>, i: nat)
    requires Listed(bs, items) && i < |bs|
    ensures Listed([bs[i]] + RemoveAt(bs, i), items)
  {
    var n := [bs[i]] + RemoveAt(bs, i);
    forall k | k in items
      ensures items[k] in n
    {
      if items[k] == bs[i] { assert n[0] == items[k]; } else { RemovedListed(bs, items, i, k); }
    }
  }

  lemma LinkedMoved(bs: seq<Bucket>, items: map<Digest, Bucket>, i: nat)
    requires Linked(bs, items) && i < |bs|
    ensures Linked([bs[i]] + RemoveAt(bs, i), items)
  {
    hide KeysDiffer, Listed, RemoveAt;
    RemovedKeysDiffer(bs, i);
    FrontKeysDiffer(bs[i], RemoveAt(bs, i));
    RemovedMapped(bs, items, i);
    FrontMapped(bs[i], RemoveAt(bs, i), items);
    MovedListed(bs, items, i);
  }

  lemma LinkedEvicted(bs: seq<Bucket>, items: map<Digest, Bucket>, items': map<Digest, Bucket>)
    requires Linked(bs, items) && bs != []
    requires items' == items - {bs[|bs| - 1].key}
    ensures Linked(RemoveAt(bs, |bs| - 1), items')
  {
    var last := |bs| - 1;
    var r := RemoveAt(bs, last);
    RemovedKeysDiffer(bs, last);
    RemovedMapped(bs, items, last);
    forall k | k in items'
      ensures items'[k] in r
    {
      RemovedListed(bs, items, last, k);
    }
    hide RemoveAt;
    assert Mapped(r, items');
  }

  lemma LinkedPushed(bs: seq<Bucket>, items: map<Digest, Bucket>, b: Bucket)
    requires Linked(bs, items) && b.key !in items
    ensures Linked([b] + bs, items[b.key := b])
  {
    var n, items' := [b] + bs, items[b.key := b];
    FrontKeysDiffer(b, bs);
    FrontMapped(b, bs, items');
    hide KeysDiffer, Mapped;
    forall k | k in items'
      ensures items'[k] in n
    {
      if k == b.key { assert n[0] == b; } else { assert items[k] in bs; }
    }
  }

  class EdgeLimiter {
    const policy: Policy
    const mac: LocalKey
    const global: Bucket
    var lru: seq<Bucket>
    var items: map<Digest, Bucket>

    ghost predicate Valid()
      reads this
    {
      Usable(policy) && |lru| <= policy.maxBuckets && global !in lru && Linked(lru, items)
    }

    ghost function Cells(): set<object>
      reads this
    {
      set b | b in lru
    }

    function Model(): State
      reads this, global, lru
    {
      State(global.windowStart, global.count, Values(lru))
    }

    constructor (policy: Policy, mac: LocalKey)
      requires Usable(policy)
      ensures Valid() && Model() == Initial && this.policy == policy && this.mac == mac
      ensures fresh(this) && fresh(global)
    {
      this.policy, this.mac := policy, mac;
      this.global := new Bucket(seq(32, _ => 0), 0);
      this.lru, this.items := [], map[];
    }

    /** The list's move-to-front. */
    method MoveToFront(b: Bucket) returns (ghost at: nat)
      requires Valid() && b in lru
      modifies this`lru
      ensures Valid() && at < |old(lru)| && old(lru)[at] == b
      ensures lru == [b] + RemoveAt(old(lru), at)
    {
      var i :| 0 <= i < |lru| && lru[i] == b;
      LinkedMoved(lru, items, i);
      lru := [b] + RemoveAt(lru, i);
      at := i;
    }

    /** Drops the least recent bucket from the list and the map. */
    method EvictOldest()
      requires Valid() && lru != []
      modifies this
      ensures Valid() && lru == RemoveAt(old(lru), |old(lru)| - 1)
      ensures items == old(items) - {old(lru)[|old(lru)| - 1].key}
    {
      var oldest := lru[|lru| - 1];
      LinkedEvicted(lru, items, items - {oldest.key});
      items := items - {oldest.key};
      lru := RemoveAt(lru, |lru| - 1);
    }

    method PushFront(b: Bucket)
      requires Valid() && |lru| < policy.maxBuckets && b.key !in items && b != global
      modifies this
      ensures Valid() && lru == [b] + old(lru)
    {
      LinkedPushed(lru, items, b);
      lru := [b] + lru;
      items := items[b.key := b];
    }

    /** The bucket of a known key, moved to the front and reset to window w. */
    method FindKnown(key: Digest, w: int) returns (b: Bucket)
      requires Valid() && key in items
      modifies this`lru, items[key]
      ensures Valid() && lru != [] && lru[0] == b == items[key]
      ensures Values(lru) == Touch(old(Values(lru)), key, w, policy.maxBuckets)
      ensures exists at :: 0 <= at < |old(lru)| && old(lru)[at] == b && lru == [b] + RemoveAt(old(lru), at)
    {
      LinkedKeys(lru, items, key);
      hide Linked, Touch;
      ghost var was := lru;
      b := items[key];
      ghost var at := MoveToFront(b);
      ghost var rest := RemoveAt(was, at);
      LinkedDistinct(was, items, at);
      ValuesRemoved(was, at);
      TouchKnown(Values(was), key, w, policy.maxBuckets, at);
      label moved:
      b.Reset(w);
      assert Values(rest) == old@moved(Values(rest));
      ValuesCons(b, rest);
    }

    /** What the list keeps when a bucket must be added. */
    static function Kept(bs: seq<Bucket>, max: int): seq<Bucket>
      requires max >= 1
    {
      if |bs| >= max then RemoveAt(bs, |bs| - 1) else bs
    }

    method MakeRoom()
      requires Valid()
      modifies this
      ensures Valid() && |lru| < policy.maxBuckets && lru == Kept(old(lru), policy.maxBuckets)
      ensures items.Keys <= old(items).Keys
    {
      if |lru| >= policy.maxBuckets {
        EvictOldest();
      }
    }

    /** A new bucket at the front; the least recent one makes room for it. */
    method FindNew(key: Digest, w: int) returns (b: Bucket)
      requires Valid() && key !in items
      modifies this
      ensures Valid() && lru != [] && lru[0] == b && b.key == key && fresh(b)
      ensures Values(lru) == Touch(old(Values(lru)), key, w, policy.maxBuckets)
      ensures lru == [b] + Kept(old(lru), policy.maxBuckets)
    {
      LinkedKeys(lru, items, key);
      hide Linked, Touch;
      ghost var rest := Kept(lru, policy.maxBuckets);
      TouchIsKept(lru, key, w, policy.maxBuckets);
      MakeRoom();
      b := new Bucket(key, w);
      PushFront(b);
      assert Values(rest) == old(Values(rest));
      ValuesCons(b, rest);
    }

    /** The bucket of `key`, at the front and in window w. */
    method Find(key: Digest, w: int) returns (b: Bucket)
      requires Valid()
      modifies this, Cells()
      ensures Valid() && lru != [] && lru[0] == b && b.key == key
      ensures Values(lru) == Touch(old(Values(lru)), key, w, policy.maxBuckets)
      ensures forall c :: c in lru && c !in old(lru) ==> fresh(c)
      ensures old(lru) != [] ==> old(lru)[0] in lru || old(lru)[0].key !in items
    {
      if key in items {
        b := FindKnown(key, w);
      } else {
        b := FindNew(key, w);
        KeptFront(lru, old(lru), b, items, policy.maxBuckets);
      }
    }

    /** A bucket is either in the table or was evicted, and then its key is not in the table. */
    ghost predicate Held(b: Bucket)
      reads this
    {
      b != global && (b in lru || b.key !in items)
    }

    /** One more hit through a pointer that may have been evicted meanwhile. */
    method Hit(b: Bucket)
      requires Valid() && Held(b)
      modifies b
      ensures Values(lru) == Bump(old(Values(lru)), b.key)
      ensures unchanged(this) && unchanged(global)
    {
      ghost var before := Values(lru);
      ghost var at := HeldAt(lru, items, b);
      hide Linked;
      b.count := b.count + 1;
      if at < 0 {
        assert Values(lru) == before;
      } else {
        assert Values(lru) == before[at := before[at].(count := before[at].count + 1)];
      }
    }

    method HitAll(bs: seq<Bucket>, ghost wanted: seq<Wanted>)
      requires Valid() && |bs| == |wanted|
      requires forall i :: 0 <= i < |bs| ==> Held(bs[i]) && bs[i].key == wanted[i].key
      modifies bs
      ensures Values(lru) == BumpAll(old(Values(lru)), wanted)
      ensures unchanged(this) && unchanged(global)
    {
      var i := 0;
      while i < |bs|
        invariant 0 <= i <= |bs|
        invariant unchanged(this) && unchanged(global)
        invariant BumpAll(old(Values(lru)), wanted) == BumpAll(Values(lru), wanted[i..])
      {
        Hit(bs[i]);
        assert wanted[i..][1..] == wanted[i + 1..];
        i := i + 1;
      }
    }

    /** The pointers taken so far, each still held; the latest one leads the list. */
    ghost predicate Holding(buckets: seq<Bucket>, wanted: seq<Wanted>)
      reads this
    {
      && |buckets| <= |wanted|
      && (forall j :: 0 <= j < |buckets| ==> Held(buckets[j]) && buckets[j].key == wanted[j].key)
      && (|buckets| == 1 ==> lru != [] && lru[0] == buckets[0])
    }

    /** One lookup and its limit check. */
    method Check(want: Wanted, w: int) returns (ok: bool, b: Bucket)
      requires Valid()
      modifies this, Cells()
      ensures Valid() && lru != [] && lru[0] == b && b.key == want.key
      ensures Values(lru) == Touch(old(Values(lru)), want.key, w, policy.maxBuckets)
      ensures ok <==> Values(lru)[0].count < want.limit
      ensures forall c :: c in lru && c !in old(lru) ==> fresh(c)
      ensures old(lru) != [] ==> Held(old(lru)[0])
    {
      hide Linked, Touch;
      b := Find(want.key, w);
      ghost var found := Values(lru);
      assert b in lru && found[0] == b.Value();
      b.Reset(w);
      assert Values(lru) == found;
      ok := b.count < want.limit;
    }

    /** The lookup phase: the buckets of every wanted key, or a refusal at the first full one. */
    method Lookup(wanted: seq<Wanted>, w: int) returns (ok: bool, buckets: seq<Bucket>)
      requires Valid() && |wanted| <= 2
      modifies this, Cells()
      ensures Valid()
      ensures (Values(lru), ok) == TouchAll(old(Values(lru)), wanted, w, policy.maxBuckets)
      ensures ok ==> |buckets| == |wanted| && Holding(buckets, wanted)
      ensures forall b :: b in buckets ==> b in old(lru) || fresh(b)
    {
      hide Linked, Touch;
      buckets := [];
      ghost var goal := TouchAll(Values(lru), wanted, w, policy.maxBuckets);
      while |buckets| < |wanted|
        invariant Valid() && Holding(buckets, wanted)
        invariant forall b :: b in lru ==> b in old(lru) || fresh(b)
        invariant forall b :: b in buckets ==> b in old(lru) || fresh(b)
        invariant goal == TouchAll(Values(lru), wanted[|buckets|..], w, policy.maxBuckets)
      {
        TouchAllStep(Values(lru), wanted, |buckets|, w, policy.maxBuckets);
        var available, b := Check(wanted[|buckets|], w);
        if !available {
          return false, [];
        }
        buckets := buckets + [b];
      }
      ok := true;
    }

    /** One request against the global, origin and prefix limits. */
    method Allow(now: int, origin: string, prefix: string) returns (allowed: bool, retryAfter: int)
      requires Valid()
      modifies this, global, Cells()
      ensures Valid()
      ensures var (n, d) := EdgeModel.Allow(policy, mac, old(Model()), Request(now, origin, prefix));
        Model() == n && d == if allowed then Admit else Deny(retryAfter)
      ensures allowed ==> retryAfter == 0
    {
      hide Linked, Touch, TouchAll, BumpAll;
      ghost var request := Request(now, origin, prefix);
      var w := WindowStart(now, policy.windowSeconds);
      var wanted := [Wanted(mac("origin", origin), policy.origin)];
      if prefix != "" {
        wanted := wanted + [Wanted(mac("prefix", prefix), policy.prefix)];
      }
      assert wanted == Wants(policy, mac, request);
      ghost var before := old(Model());
      ghost var found := TouchAll(before.lru, wanted, w, policy.maxBuckets);
      global.Reset(w);
      assert Model() == ResetGlobal(before, w);
      if global.count >= policy.global {
        return false, RetrySeconds(now, w, policy.windowSeconds);
      }
      var ok, buckets := Lookup(wanted, w);
      if !ok {
        return false, RetrySeconds(now, w, policy.windowSeconds);
      }
      assert Values(lru) == found.0;
      global.count := global.count + 1;
      HitAll(buckets, wanted);
      assert Model() == State(w, ResetGlobal(before, w).globalCount + 1, BumpAll(found.0, wanted));
      return true, 0;
    }
  }

  /** Where the bump of a held bucket lands: its own position, or nowhere once evicted. */
  lemma HeldAt(bs: seq<Bucket>, items: map<Digest, Bucket>, b: Bucket) returns (at: int)
    requires Linked(bs, items) && (b in bs || b.key !in items)
    ensures at == IndexOf(Values(bs), b.key)
    ensures at < 0 ==> b !in bs
    ensures at >= 0 ==> at < |bs| && bs[at] == b && forall j :: 0 <= j < |bs| && j != at ==> bs[j] != b
  {
    if b in bs {
      at :| 0 <= at < |bs| && bs[at] == b;
      assert bs[IndexOf(Values(bs), b.key)].key == b.key;
    } else {
      at := -1;
    }
  }

  lemma TouchAllStep(es: seq<Entry>, wanted: seq<Wanted>, i: nat, w: int, max: int)
    requires max >= 1 && i < |wanted|
    ensures var n := Touch(es, wanted[i].key, w, max);
      TouchAll(es, wanted[i..], w, max)
      == if n[0].count < wanted[i].limit then TouchAll(n, wanted[i + 1..], w, max) else (n, false)
  {
    assert wanted[i..][0] == wanted[i] && wanted[i..][1..] == wanted[i + 1..];
  }

  lemma TouchIsKept(bs: seq<Bucket>, key: Digest, w: int, max: int)
    requires max >= 1 && forall i :: 0 <= i < |bs| ==> bs[i].key != key
    ensures Touch(Values(bs), key, w, max) == [Entry(key, w, 0)] + Values(EdgeLimiter.Kept(bs, max))
  {
    TouchUnknown(Values(bs), key, w, max);
    if |bs| >= max {
      ValuesRemoved(bs, |bs| - 1);
    }
  }

  lemma KeptFront(n: seq<Bucket>, bs: seq<Bucket>, b: Bucket, items: map<Digest, Bucket>, max: int)
    requires max >= 1 && n == [b] + EdgeLimiter.Kept(bs, max) && Linked(n, items)
    requires forall i :: 0 <= i < |bs| ==> bs[i].key != b.key
    ensures bs != [] ==> bs[0] in n || bs[0].key !in items
  {
    if |bs| >= max && |bs| == 1 {
      assert n == [b];
    } else if bs != [] {
      assert n[1] == bs[0];
    }
  }

  lemma TouchKnown(es: seq<Entry>, key: Digest, w: int, max: int, at: nat)
    requires max >= 1 && at < |es| && es[at].key == key
    requires forall i, j :: 0 <= i < j < |es| ==> es[i].key != es[j].key
    ensures Touch(es, key, w, max) == [ResetEntry(es[at], w)] + Without(es, at)
  {
    assert IndexOf(es, key) == at;
    hide IndexOf, Without, ResetEntry;
  }

  lemma TouchUnknown(es: seq<Entry>, key: Digest, w: int, max: int)
    requires max >= 1 && forall i :: 0 <= i < |es| ==> es[i].key != key
    ensures Touch(es, key, w, max) == [Entry(key, w, 0)] + (if |es| >= max then Without(es, |es| - 1) else es)
  {
  }
}
