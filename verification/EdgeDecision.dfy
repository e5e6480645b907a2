/**
 * The limiter's answer and its table read off the buckets themselves: what is decided about one request
 * from the entries it finds, and which keys any run leaves in the table.
 */
module EdgeDecision {
  import opened Common
  import opened Arith
  import opened EdgeModel
  import opened EdgeTheorems
  import opened EdgeConservation

  // ----- the decision

  /** The key has a bucket of window w below the limit, or none of that window and the limit allows a first hit. */
  ghost predicate HasRoom(lru: seq<Entry>, key: Digest, w: int, limit: int) {
    || (exists e :: e in lru && e.key == key && e.windowStart == w && e.count < limit)
    || (0 < limit && forall e :: e in lru ==> e.key != key || e.windowStart != w)
  }

  ghost predicate Known(lru: seq<Entry>, key: Digest) {
    exists e :: e in lru && e.key == key
  }

  lemma RoomIsCount(lru: seq<Entry>, max: int, key: Digest, w: int, limit: int)
    requires Structure(lru, max)
    ensures HasRoom(lru, key, w, limit) <==> Count(lru, key, w) < limit
  {
    var i := IndexOf(lru, key);
    if i >= 0 {
      assert lru[i] in lru;
      forall e | e in lru && e.key == key
        ensures e == lru[i]
      {
      }
    }
  }

  /** Looking up one key leaves every other bucket, but for the last one when a new bucket finds the table full. */
  lemma OthersAfterTouch(lru: seq<Entry>, a: Digest, w: int, max: int, b: Digest)
    requires Structure(lru, max) && max >= 1
    ensures var kept := if !Known(lru, a) && |lru| >= max then lru[..|lru| - 1] else lru;
      Structure(kept, max) && Count(Touch(lru, a, w, max), b, w) == Count(kept, b, w)
  {
    var n := Touch(lru, a, w, max);
    var full := !Known(lru, a) && |lru| >= max;
    var kept := if full then lru[..|lru| - 1] else lru;
    TouchStructure(lru, a, w, max);
    FrontCount(lru, a, w, max);
    if IndexOf(lru, a) >= 0 { assert lru[IndexOf(lru, a)] in lru; }
    if a != b {
      TouchShape(lru, a, w, max);
      if full {
        assert n[1..] == kept;
        forall i | 0 <= i < |kept|
          ensures kept[i] in n
        {
          assert n[1..][i] == kept[i];
        }
        SameEntriesSameCount(n, kept, max, b, w);
      } else {
        MovedOther(lru, n, Displaced(lru, a, max), max, b, w);
      }
    }
  }

  lemma TwoLookups(lru: seq<Entry>, a: Wanted, b: Wanted, w: int, max: int)
    requires max >= 1
    ensures TouchAll(lru, [a], w, max).1 <==> Touch(lru, a.key, w, max)[0].count < a.limit
    ensures TouchAll(lru, [a, b], w, max).1 <==>
      && Touch(lru, a.key, w, max)[0].count < a.limit
      && Touch(Touch(lru, a.key, w, max), b.key, w, max)[0].count < b.limit
  {
    hide Touch;
    var t := Touch(lru, a.key, w, max);
    assert [a][1..] == [] && [a, b][1..] == [b] && [b][1..] == [];
    assert TouchAll(t, [], w, max) == (t, true);
    assert TouchAll(lru, [a], w, max) == if t[0].count < a.limit then TouchAll(t, [a][1..], w, max) else (t, false);
    assert TouchAll(lru, [a, b], w, max)
        == if t[0].count < a.limit then TouchAll(t, [a, b][1..], w, max) else (t, false);
    var u := Touch(t, b.key, w, max);
    assert TouchAll(t, [b], w, max) == if u[0].count < b.limit then TouchAll(u, [b][1..], w, max) else (u, false);
  }

  lemma LookupsDecide(p: Policy, mac: LocalKey, lru: seq<Entry>, r: Request, w: int)
    requires Usable(p) && Structure(lru, p.maxBuckets)
    ensures var a, b := mac("origin", r.origin), mac("prefix", r.prefix);
      var kept := if !Known(lru, a) && |lru| >= p.maxBuckets then lru[..|lru| - 1] else lru;
      TouchAll(lru, Wants(p, mac, r), w, p.maxBuckets).1 <==>
        HasRoom(lru, a, w, p.origin) && (r.prefix != "" ==> HasRoom(kept, b, w, p.prefix))
  {
    hide HasRoom, Known, Structure, Count, Touch, TouchAll;
    var a, b := Wanted(mac("origin", r.origin), p.origin), Wanted(mac("prefix", r.prefix), p.prefix);
    var kept := if !Known(lru, a.key) && |lru| >= p.maxBuckets then lru[..|lru| - 1] else lru;
    var t := Touch(lru, a.key, w, p.maxBuckets);
    assert Wants(p, mac, r) == if r.prefix != "" then [a, b] else [a];
    TwoLookups(lru, a, b, w, p.maxBuckets);
    OthersAfterTouch(lru, a.key, w, p.maxBuckets, b.key);
    TouchStructure(lru, a.key, w, p.maxBuckets);
    FrontCount(lru, a.key, w, p.maxBuckets);
    FrontCount(t, b.key, w, p.maxBuckets);
    RoomIsCount(lru, p.maxBuckets, a.key, w, p.origin);
    RoomIsCount(kept, p.maxBuckets, b.key, w, p.prefix);
  }

  /**
   * A request is admitted exactly when the global counter of its window, the origin's bucket and, for a
   * non-empty prefix, the prefix's bucket all have room; the origin's own lookup comes first and, when it
   * needs a new bucket in a full table, costs the prefix the last one. Otherwise the caller is told to come
   * back at the window's end.
   */
  lemma AllowDecides(p: Policy, mac: LocalKey, s: State, r: Request)
    requires Usable(p) && Structure(s.lru, p.maxBuckets)
    ensures var size := p.windowSeconds;
      var w := if r.now >= 0 then r.now / size * size else -((-r.now) / size) * size;
      var a, b := mac("origin", r.origin), mac("prefix", r.prefix);
      var kept := if !Known(s.lru, a) && |s.lru| >= p.maxBuckets then s.lru[..|s.lru| - 1] else s.lru;
      var admitted :=
        && (if s.globalStart == w then s.globalCount < p.global else 0 < p.global)
        && HasRoom(s.lru, a, w, p.origin)
        && (r.prefix != "" ==> HasRoom(kept, b, w, p.prefix));
      Allow(p, mac, s, r).1 == if admitted then Admit else Deny(if w + size - r.now < 1 then 1 else w + size - r.now)
  {
    hide HasRoom, Known, Structure, TouchAll, BumpAll;
    LookupsDecide(p, mac, s.lru, r, WindowOf(p, r));
  }

  lemma ExactBumps(e: Exact, a: Wanted, b: Wanted, w: int)
    ensures var e1 := e.(counts := e.counts[(a.key, w) := ExactCount(e, a.key, w) + 1]);
      && ExactBumpAll(e, [a], w) == e1
      && ExactBumpAll(e, [a, b], w) == e1.(counts := e1.counts[(b.key, w) := ExactCount(e1, b.key, w) + 1])
  {
    var e1 := e.(counts := e.counts[(a.key, w) := ExactCount(e, a.key, w) + 1]);
    var e2 := e1.(counts := e1.counts[(b.key, w) := ExactCount(e1, b.key, w) + 1]);
    hide ExactCount;
    assert [a][1..] == [] && [a, b][1..] == [b] && [b][1..] == [];
    assert ExactBumpAll(e1, [], w) == e1 && ExactBumpAll(e2, [], w) == e2;
    assert ExactBumpAll(e, [a], w) == ExactBumpAll(e1, [a][1..], w);
    assert ExactBumpAll(e, [a, b], w) == ExactBumpAll(e1, [a, b][1..], w);
    assert ExactBumpAll(e1, [b], w) == ExactBumpAll(e2, [b][1..], w);
  }

  /** The same for the unbounded counters, with the counters an admission leaves. */
  lemma ExactDecides(p: Policy, mac: LocalKey, e: Exact, r: Request)
    requires Usable(p)
    ensures var size := p.windowSeconds;
      var w := if r.now >= 0 then r.now / size * size else -((-r.now) / size) * size;
      var a, b := mac("origin", r.origin), mac("prefix", r.prefix);
      var globals := if w in e.globals then e.globals[w] else 0;
      var origins := if (a, w) in e.counts then e.counts[(a, w)] else 0;
      var prefixes := if (b, w) in e.counts then e.counts[(b, w)] else 0;
      var (n, d) := ExactAllow(p, mac, e, r);
      if globals < p.global && origins < p.origin && (r.prefix != "" ==> prefixes < p.prefix) then
        && d == Admit
        && n.globals == e.globals[w := globals + 1]
        && (r.prefix == "" ==> n.counts == e.counts[(a, w) := origins + 1])
        && (r.prefix != "" && a != b ==> n.counts == e.counts[(a, w) := origins + 1][(b, w) := prefixes + 1])
        && (r.prefix != "" && a == b ==> n.counts == e.counts[(a, w) := origins + 2])
      else
        n == e && d == Deny(if w + size - r.now < 1 then 1 else w + size - r.now)
  {
    hide ExactBumpAll;
    var w := WindowOf(p, r);
    var a, b := Wanted(mac("origin", r.origin), p.origin), Wanted(mac("prefix", r.prefix), p.prefix);
    var wanted := Wants(p, mac, r);
    assert wanted == if r.prefix == "" then [a] else [a, b];
    assert wanted[0] == a && (r.prefix != "" ==> wanted[1] == b);
    ExactBumps(e.(globals := e.globals[w := ExactGlobal(e, w) + 1]), a, b, w);
    if a.key == b.key {
      var once := e.counts[(a.key, w) := ExactCount(e, a.key, w) + 1];
      assert once[(a.key, w) := ExactCount(e, a.key, w) + 2] == e.counts[(a.key, w) := ExactCount(e, a.key, w) + 2];
    }
  }

  lemma {:induction false} LookupsLeave(lru: seq<Entry>, wanted: seq<Wanted>, w: int, max: int)
    requires max >= 1
    ensures forall e :: e in TouchAll(lru, wanted, w, max).0 ==> e in lru || e.key in KeysOf(wanted)
    decreases |wanted|
  {
    if wanted != [] {
      var key := wanted[0].key;
      var n := Touch(lru, key, w, max);
      KeysOfHead(wanted);
      TouchShape(lru, key, w, max);
      MovedFrom(lru, n, Displaced(lru, key, max));
      hide Touch, KeysOf;
      LookupsLeave(n, wanted[1..], w, max);
    }
  }

  lemma {:induction false} HitsLeave(lru: seq<Entry>, wanted: seq<Wanted>)
    ensures forall e :: e in BumpAll(lru, wanted) ==> e in lru || e.key in KeysOf(wanted)
    decreases |wanted|
  {
    if wanted != [] {
      KeysOfHead(wanted);
      var n := Bump(lru, wanted[0].key);
      assert forall e :: e in n ==> e in lru || e.key == wanted[0].key;
      hide Bump, KeysOf;
      HitsLeave(n, wanted[1..]);
    }
  }

  /** Whatever the answer, a bucket in the table afterwards is the origin's, the prefix's or an untouched one. */
  lemma AllowTouchesOnly(p: Policy, mac: LocalKey, s: State, r: Request)
    requires Usable(p)
    ensures forall e :: e in Allow(p, mac, s, r).0.lru ==>
      || e in s.lru || e.key == mac("origin", r.origin)
      || (r.prefix != "" && e.key == mac("prefix", r.prefix))
  {
    var wanted := Wants(p, mac, r);
    var w := WindowOf(p, r);
    LookupsLeave(s.lru, wanted, w, p.maxBuckets);
    HitsLeave(TouchAll(s.lru, wanted, w, p.maxBuckets).0, wanted);
    hide TouchAll, BumpAll;
  }

  // ----- which buckets the table holds

  function Keys(lru: seq<Entry>): seq<Digest> {
    seq(|lru|, i requires 0 <= i < |lru| => lru[i].key)
  }

  /** The keys one request looks up, in order. */
  ghost function AskedBy(p: Policy, mac: LocalKey, s: State, r: Request): seq<Digest>
    requires Usable(p)
  {
    var w := WindowOf(p, r);
    var a, b := mac("origin", r.origin), mac("prefix", r.prefix);
    if (if s.globalStart == w then s.globalCount else 0) >= p.global then []
    else if r.prefix == "" || !HasRoom(s.lru, a, w, p.origin) then [a]
    else [a, b]
  }

  ghost function Asked(p: Policy, mac: LocalKey, s: State, rs: seq<Request>): seq<Digest>
    requires Usable(p)
    decreases |rs|
  {
    if rs == [] then [] else AskedBy(p, mac, s, rs[0]) + Asked(p, mac, Allow(p, mac, s, rs[0]).0, rs[1..])
  }

  /** The distinct keys asked for, latest first, other than those in `seen`. */
  ghost function Recent(asked: seq<Digest>, seen: set<Digest>): (r: seq<Digest>)
    ensures forall k :: k in r ==> k !in seen
    decreases |asked|
  {
    if asked == [] then []
    else
      var k := asked[|asked| - 1];
      var before := asked[..|asked| - 1];
      if k in seen then Recent(before, seen) else [k] + Recent(before, seen + {k})
  }

  ghost function Take(s: seq<Digest>, n: int): seq<Digest>
    requires n >= 0
  {
    if |s| <= n then s else s[..n]
  }

  ghost function Minus(s: seq<Digest>, k: Digest): seq<Digest> {
    if s == [] then [] else if s[0] == k then s[1..] else [s[0]] + Minus(s[1..], k)
  }

  /** Counting one more key as seen takes just that key from the list. */
  lemma {:induction false} RecentMinus(asked: seq<Digest>, seen: set<Digest>, k: Digest)
    requires k !in seen
    ensures Recent(asked, seen + {k}) == Minus(Recent(asked, seen), k)
    decreases |asked|
  {
    if asked != [] {
      var last := asked[|asked| - 1];
      var before := asked[..|asked| - 1];
      if last in seen {
        RecentMinus(before, seen, k);
      } else if last != k {
        RecentMinus(before, seen + {last}, k);
        assert seen + {k} + {last} == seen + {last} + {k};
      }
    }
  }

  /** A list with its front, cut. */
  lemma TakeCons(x: Digest, s: seq<Digest>, n: nat)
    requires n >= 1
    ensures Take([x] + s, n) == [x] + Take(s, n - 1)
  {
  }

  /** Cutting a list and taking a key out commute, for a key within the cut. */
  lemma {:induction false} TakeMinusIn(s: seq<Digest>, k: Digest, max: nat)
    requires max >= 1 && k in Take(s, max)
    ensures Take(Minus(s, k), max - 1) == Minus(Take(s, max), k)
  {
    var x, rest := s[0], s[1..];
    assert s == [x] + rest;
    TakeCons(x, rest, max);
    if x != k {
      assert k in Take(rest, max - 1);
      assert max >= 2;
      TakeMinusIn(rest, k, max - 1);
      TakeCons(x, Minus(rest, k), max - 1);
      hide Take;
      assert Minus(Take(s, max), k) == [x] + Minus(Take(rest, max - 1), k);
    }
  }

  /** Taking out a key beyond the cut leaves what comes before. */
  lemma {:induction false} TakeMinusOut(s: seq<Digest>, k: Digest, max: nat)
    requires max >= 1 && k !in Take(s, max)
    ensures Take(Minus(s, k), max - 1) == Take(s, max - 1)
  {
    if s != [] && max >= 2 {
      var x, rest := s[0], s[1..];
      assert s == [x] + rest;
      TakeCons(x, rest, max);
      TakeCons(x, rest, max - 1);
      assert x in Take(s, max) && x != k;
      assert k !in Take(rest, max - 1);
      TakeMinusOut(rest, k, max - 1);
      TakeCons(x, Minus(rest, k), max - 1);
    }
  }

  /** The keys of a table are the latest ones asked for, as many as it has room for. */
  ghost predicate HoldsRecent(lru: seq<Entry>, asked: seq<Digest>, max: int) {
    max >= 1 && Keys(lru) == Take(Recent(asked, {}), max)
  }

  lemma KeysCons(e: Entry, rest: seq<Entry>)
    ensures Keys([e] + rest) == [e.key] + Keys(rest)
  {
  }

  lemma {:induction false} MinusAt(lru: seq<Entry>, i: nat)
    requires i < |lru| && IndexOf(lru, lru[i].key) == i
    ensures Minus(Keys(lru), lru[i].key) == Keys(Without(lru, i))
  {
    var first, rest := lru[0], lru[1..];
    assert lru == [first] + rest;
    KeysCons(first, rest);
    if i == 0 {
      assert Without(lru, 0) == rest;
    } else {
      MinusAt(rest, i - 1);
      assert Without(lru, i) == [first] + Without(rest, i - 1);
      KeysCons(first, Without(rest, i - 1));
      hide Keys, Without;
      assert first.key != lru[i].key;
      assert ([first.key] + Keys(rest))[1..] == Keys(rest);
    }
  }

  lemma TouchKeys(lru: seq<Entry>, key: Digest, w: int, max: int)
    requires max >= 1 && |lru| <= max
    ensures Keys(Touch(lru, key, w, max))
         == [key] + (if key in Keys(lru) then Minus(Keys(lru), key) else Take(Keys(lru), max - 1))
  {
    hide Minus;
    var i := IndexOf(lru, key);
    var n := Touch(lru, key, w, max);
    if i >= 0 {
      assert Keys(lru)[i] == key;
      MinusAt(lru, i);
      FrontKeys(n, Without(lru, i));
    } else {
      assert key !in Keys(lru);
      var rest := if |lru| >= max then Without(lru, |lru| - 1) else lru;
      FrontKeys(n, rest);
      assert Keys(rest) == Take(Keys(lru), max - 1);
    }
  }

  lemma FrontKeys(n: seq<Entry>, rest: seq<Entry>)
    requires n != [] && n == [n[0]] + rest
    ensures Keys(n) == [n[0].key] + Keys(rest)
  {
  }

  lemma TouchHoldsRecent(lru: seq<Entry>, asked: seq<Digest>, key: Digest, w: int, max: int)
    requires HoldsRecent(lru, asked, max)
    ensures HoldsRecent(Touch(lru, key, w, max), asked + [key], max)
  {
    hide Touch, Minus;
    var r := Recent(asked, {});
    assert |Keys(lru)| == |lru|;
    TouchKeys(lru, key, w, max);
    RecentMinus(asked, {}, key);
    if key in Take(r, max) { TakeMinusIn(r, key, max); } else { TakeMinusOut(r, key, max); }
    assert {} + {key} == {key};
    assert (asked + [key])[..|asked|] == asked;
    assert Recent(asked + [key], {}) == [key] + Minus(r, key);
    assert Take([key] + Minus(r, key), max) == [key] + Take(Minus(r, key), max - 1);
    assert Take(Take(r, max), max - 1) == Take(r, max - 1);
  }

  lemma {:induction false} BumpAllKeys(lru: seq<Entry>, wanted: seq<Wanted>)
    ensures Keys(BumpAll(lru, wanted)) == Keys(lru)
    decreases |wanted|
  {
    if wanted != [] {
      assert Keys(Bump(lru, wanted[0].key)) == Keys(lru);
      BumpAllKeys(Bump(lru, wanted[0].key), wanted[1..]);
    }
  }

  /** One lookup after another. */
  function LookedUp(lru: seq<Entry>, keys: seq<Digest>, w: int, max: int): seq<Entry>
    requires max >= 1
    decreases |keys|
  {
    if keys == [] then lru else LookedUp(Touch(lru, keys[0], w, max), keys[1..], w, max)
  }

  lemma LookedUpTwo(lru: seq<Entry>, a: Digest, b: Digest, w: int, max: int)
    requires max >= 1
    ensures LookedUp(lru, [], w, max) == lru
    ensures LookedUp(lru, [a], w, max) == Touch(lru, a, w, max)
    ensures LookedUp(lru, [a, b], w, max) == Touch(Touch(lru, a, w, max), b, w, max)
  {
    hide Touch;
    var t := Touch(lru, a, w, max);
    assert [a][1..] == [] && [a, b][1..] == [b] && [b][1..] == [];
    assert LookedUp(t, [b], w, max) == LookedUp(Touch(t, b, w, max), [b][1..], w, max);
    assert LookedUp(lru, [a], w, max) == LookedUp(t, [a][1..], w, max);
    assert LookedUp(lru, [a, b], w, max) == LookedUp(t, [a, b][1..], w, max);
  }

  /** The keys after a request are those after its lookups; the hits move none. */
  lemma AllowAsks(p: Policy, mac: LocalKey, s: State, r: Request)
    requires Usable(p) && Structure(s.lru, p.maxBuckets)
    ensures Keys(Allow(p, mac, s, r).0.lru)
         == Keys(LookedUp(s.lru, AskedBy(p, mac, s, r), WindowOf(p, r), p.maxBuckets))
  {
    hide HasRoom, Structure, Touch, Bump, BumpAll, LookedUp;
    var w := WindowOf(p, r);
    var max := p.maxBuckets;
    var a, b := Wanted(mac("origin", r.origin), p.origin), Wanted(mac("prefix", r.prefix), p.prefix);
    var wanted := Wants(p, mac, r);
    assert wanted == if r.prefix != "" then [a, b] else [a];
    LookedUpTwo(s.lru, a.key, b.key, w, max);
    RoomIsCount(s.lru, max, a.key, w, p.origin);
    FrontCount(s.lru, a.key, w, max);
    LookupsEnd(s.lru, a, b, w, max);
    BumpAllKeys(TouchAll(s.lru, wanted, w, max).0, wanted);
  }

  lemma LookupsEnd(lru: seq<Entry>, a: Wanted, b: Wanted, w: int, max: int)
    requires max >= 1
    ensures var t := Touch(lru, a.key, w, max);
      && TouchAll(lru, [a], w, max).0 == t
      && TouchAll(lru, [a, b], w, max).0 == if t[0].count < a.limit then Touch(t, b.key, w, max) else t
  {
    hide Touch;
    var t := Touch(lru, a.key, w, max);
    assert [a][1..] == [] && [a, b][1..] == [b] && [b][1..] == [];
    assert TouchAll(lru, [a], w, max) == if t[0].count < a.limit then TouchAll(t, [a][1..], w, max) else (t, false);
    assert TouchAll(lru, [a, b], w, max)
        == if t[0].count < a.limit then TouchAll(t, [a, b][1..], w, max) else (t, false);
    var u := Touch(t, b.key, w, max);
    assert TouchAll(t, [b], w, max) == if u[0].count < b.limit then TouchAll(u, [b][1..], w, max) else (u, false);
  }

  lemma {:induction false} RunHoldsRecent(
      p: Policy, mac: LocalKey, s: State, rs: seq<Request>, before: seq<Digest>)
    requires Usable(p) && Structure(s.lru, p.maxBuckets) && HoldsRecent(s.lru, before, p.maxBuckets)
    ensures HoldsRecent(After(p, mac, s, rs).lru, before + Asked(p, mac, s, rs), p.maxBuckets)
    decreases |rs|
  {
    hide Structure, HoldsRecent, Allow, AskedBy, Touch;
    if rs == [] {
      assert before + Asked(p, mac, s, rs) == before;
    } else {
      var n := Allow(p, mac, s, rs[0]).0;
      var asked := AskedBy(p, mac, s, rs[0]);
      StepHoldsRecent(p, mac, s, rs[0], before);
      TableStaysBounded(p, mac, s, [rs[0]]);
      AfterOne(p, mac, s, rs[0]);
      RunHoldsRecent(p, mac, n, rs[1..], before + asked);
      assert before + asked + Asked(p, mac, n, rs[1..]) == before + Asked(p, mac, s, rs);
    }
  }

  lemma AfterOne(p: Policy, mac: LocalKey, s: State, r: Request)
    requires Usable(p)
    ensures After(p, mac, s, [r]) == Allow(p, mac, s, r).0
  {
    hide Allow;
    assert [r][1..] == [];
    assert After(p, mac, s, [r]) == After(p, mac, Allow(p, mac, s, r).0, [r][1..]);
  }

  lemma SameKeysHold(lru: seq<Entry>, n: seq<Entry>, asked: seq<Digest>, max: int)
    requires HoldsRecent(lru, asked, max) && Keys(n) == Keys(lru)
    ensures HoldsRecent(n, asked, max)
  {
  }

  lemma {:induction false} LookedUpHolds(lru: seq<Entry>, before: seq<Digest>, keys: seq<Digest>, w: int, max: int)
    requires HoldsRecent(lru, before, max) && max >= 1
    ensures HoldsRecent(LookedUp(lru, keys, w, max), before + keys, max)
    decreases |keys|
  {
    hide HoldsRecent, Touch;
    if keys == [] {
      assert before + keys == before;
    } else {
      TouchHoldsRecent(lru, before, keys[0], w, max);
      LookedUpHolds(Touch(lru, keys[0], w, max), before + [keys[0]], keys[1..], w, max);
      assert before + [keys[0]] + keys[1..] == before + keys;
    }
  }

  lemma StepHoldsRecent(p: Policy, mac: LocalKey, s: State, r: Request, before: seq<Digest>)
    requires Usable(p) && Structure(s.lru, p.maxBuckets) && HoldsRecent(s.lru, before, p.maxBuckets)
    ensures HoldsRecent(Allow(p, mac, s, r).0.lru, before + AskedBy(p, mac, s, r), p.maxBuckets)
  {
    assert p.maxBuckets >= 1;
    hide *;
    var asked := AskedBy(p, mac, s, r);
    AllowAsks(p, mac, s, r);
    LookedUpHolds(s.lru, before, asked, WindowOf(p, r), p.maxBuckets);
    SameKeysHold(LookedUp(s.lru, asked, WindowOf(p, r), p.maxBuckets), Allow(p, mac, s, r).0.lru, before + asked,
                 p.maxBuckets);
  }

  /** The keys asked for after the i-th one. */
  ghost function Since(asked: seq<Digest>, i: nat): set<Digest>
    requires i < |asked|
  {
    var later := asked[i + 1..];
    set k | k in later
  }

  /** The key was asked for, and fewer than m keys outside `seen` since. */
  ghost predicate Lately(asked: seq<Digest>, seen: set<Digest>, m: nat, k: Digest) {
    exists i :: 0 <= i < |asked| && asked[i] == k && |Since(asked, i) - seen| < m
  }

  lemma SinceStep(before: seq<Digest>, last: Digest, seen: set<Digest>, i: nat)
    requires i < |before|
    ensures var more := Since(before + [last], i) - seen;
      if last in seen then more == Since(before, i) - seen
      else |more| == |Since(before, i) - (seen + {last})| + 1
  {
    assert (before + [last])[i + 1..] == before[i + 1..] + [last];
    assert Since(before + [last], i) == Since(before, i) + {last};
    if last !in seen {
      assert Since(before + [last], i) - seen == (Since(before, i) - (seen + {last})) + {last};
    }
  }

  lemma LatelyStep(before: seq<Digest>, last: Digest, seen: set<Digest>, m: nat, k: Digest)
    requires k !in seen && k != last
    ensures last in seen ==> (Lately(before + [last], seen, m, k) <==> Lately(before, seen, m, k))
    ensures last !in seen ==>
      (Lately(before + [last], seen, m, k) <==> m > 0 && Lately(before, seen + {last}, m - 1, k))
  {
    hide Since;
    var asked := before + [last];
    forall i | 0 <= i < |before|
      ensures asked[i] == before[i]
      ensures last in seen ==> Since(asked, i) - seen == Since(before, i) - seen
      ensures last !in seen ==> |Since(asked, i) - seen| == |Since(before, i) - (seen + {last})| + 1
    {
      SinceStep(before, last, seen, i);
    }
  }

  lemma LastIsLatest(before: seq<Digest>, last: Digest, seen: set<Digest>, m: nat)
    ensures Lately(before + [last], seen, m, last) <==> m > 0
  {
    var asked := before + [last];
    assert asked[|before|] == last && asked[|before| + 1..] == [];
    assert Since(asked, |before|) - seen == {};
  }

  lemma {:induction false} AmongRecent(asked: seq<Digest>, seen: set<Digest>, m: nat, k: Digest)
    requires k !in seen
    ensures k in Take(Recent(asked, seen), m) <==> Lately(asked, seen, m, k)
    decreases |asked|
  {
    hide Lately;
    if asked == [] {
      assert !Lately(asked, seen, m, k) by { NeverAsked(seen, m, k); }
    } else {
      var last := asked[|asked| - 1];
      var before := asked[..|asked| - 1];
      assert asked == before + [last];
      if last == k {
        LastIsLatest(before, last, seen, m);
        assert m > 0 ==> Take(Recent(asked, seen), m)[0] == k;
      } else {
        LatelyStep(before, last, seen, m, k);
        if last in seen {
          AmongRecent(before, seen, m, k);
        } else if m > 0 {
          AmongRecent(before, seen + {last}, m - 1, k);
          assert Take(Recent(asked, seen), m) == [last] + Take(Recent(before, seen + {last}), m - 1);
        }
      }
    }
  }

  lemma NeverAsked(seen: set<Digest>, m: nat, k: Digest)
    ensures !Lately([], seen, m, k)
  {
  }

  lemma KnownKeys(lru: seq<Entry>, k: Digest)
    ensures Known(lru, k) <==> k in Keys(lru)
  {
    if Known(lru, k) {
      var e :| e in lru && e.key == k;
      var i :| 0 <= i < |lru| && lru[i] == e;
      assert Keys(lru)[i] == k;
    }
  }

  lemma LatelyUnseen(asked: seq<Digest>, m: nat, k: Digest)
    ensures Lately(asked, {}, m, k) <==>
      exists i :: 0 <= i < |asked| && asked[i] == k && |Since(asked, i)| < m
  {
    hide Since;
    forall i | 0 <= i < |asked|
      ensures Since(asked, i) - {} == Since(asked, i)
    {
    }
  }

  /**
   * After any run from the start, whatever the clock does, the table holds the bucket of a key exactly when
   * that key was asked for and fewer than MaxBuckets other keys have been asked for since.
   */
  lemma TableHoldsLatest(p: Policy, mac: LocalKey, rs: seq<Request>, k: Digest)
    requires Usable(p)
    ensures var asked := Asked(p, mac, Initial, rs);
      Known(After(p, mac, Initial, rs).lru, k) <==>
        exists i :: 0 <= i < |asked| && asked[i] == k && |Since(asked, i)| < p.maxBuckets
  {
    var asked := Asked(p, mac, Initial, rs);
    assert Keys(Initial.lru) == Take(Recent([], {}), p.maxBuckets);
    RunHoldsRecent(p, mac, Initial, rs, []);
    assert [] + asked == asked;
    hide Known, After, Asked, Recent, Take, Lately, Keys;
    KnownKeys(After(p, mac, Initial, rs).lru, k);
    AmongRecent(asked, {}, p.maxBuckets, k);
    LatelyUnseen(asked, p.maxBuckets, k);
  }
}
