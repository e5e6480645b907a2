/** How many keys a window may present before the bounded table answers differently from unbounded counters. */
module EdgeCapacity {
  import opened Common
  import opened Arith
  import opened EdgeModel
  import opened EdgeTheorems
  import opened EdgeConservation
  import opened EdgeSchedules

  /** On every run in window order that presents at most n keys in a window, both limiters decide alike. */
  ghost predicate ExactUpTo(p: Policy, mac: LocalKey, n: int)
    requires Usable(p)
  {
    forall rs: seq<Request> :: InOrder(p, rs) && (forall w :: |Presented(p, mac, rs, w)| <= n) ==>
      Decisions(p, mac, Initial, rs) == ExactDecisions(p, mac, ExactInitial, rs)
  }

  // ----- the run that shows the difference, all at one instant

  function Ask(name: nat -> string, i: nat): Request {
    Request(0, name(i), "")
  }

  /** Origin 0 asks c times, then each of the origins 1 to i once. */
  function Filling(name: nat -> string, c: nat, i: nat): seq<Request>
    decreases c + i
  {
    if i > 0 then Filling(name, c, i - 1) + [Ask(name, i)]
    else if c > 0 then Filling(name, c - 1, 0) + [Ask(name, 0)]
    else []
  }

  ghost predicate DistinctOrigins(mac: LocalKey, name: nat -> string, n: nat) {
    forall a: nat, b: nat :: a < b <= n ==> Key(mac, name, a) != Key(mac, name, b)
  }

  lemma InstantZero(p: Policy, name: nat -> string, i: nat)
    requires Usable(p)
    ensures WindowOf(p, Ask(name, i)) == 0
  {
    DivUnique(0, 0, 0, p.windowSeconds);
  }

  lemma {:induction false} AfterAppend(p: Policy, mac: LocalKey, s: State, rs: seq<Request>, r: Request)
    requires Usable(p)
    ensures After(p, mac, s, rs + [r]) == Allow(p, mac, After(p, mac, s, rs), r).0
    ensures Decisions(p, mac, s, rs + [r]) == Decisions(p, mac, s, rs) + [Allow(p, mac, After(p, mac, s, rs), r).1]
    decreases |rs|
  {
    hide Allow;
    if rs == [] {
      assert [] + [r] == [r] && [r][1..] == [];
    } else {
      assert (rs + [r])[0] == rs[0] && (rs + [r])[1..] == rs[1..] + [r];
      AfterAppend(p, mac, Allow(p, mac, s, rs[0]).0, rs[1..], r);
    }
  }

  function ExactAfter(p: Policy, mac: LocalKey, e: Exact, rs: seq<Request>): Exact
    requires Usable(p)
    decreases |rs|
  {
    if rs == [] then e else ExactAfter(p, mac, ExactAllow(p, mac, e, rs[0]).0, rs[1..])
  }

  lemma {:induction false} ExactAppend(p: Policy, mac: LocalKey, e: Exact, rs: seq<Request>, r: Request)
    requires Usable(p)
    ensures ExactAfter(p, mac, e, rs + [r]) == ExactAllow(p, mac, ExactAfter(p, mac, e, rs), r).0
    ensures ExactDecisions(p, mac, e, rs + [r])
         == ExactDecisions(p, mac, e, rs) + [ExactAllow(p, mac, ExactAfter(p, mac, e, rs), r).1]
    decreases |rs|
  {
    hide ExactAllow;
    if rs == [] {
      assert [] + [r] == [r] && [r][1..] == [];
    } else {
      assert (rs + [r])[0] == rs[0] && (rs + [r])[1..] == rs[1..] + [r];
      ExactAppend(p, mac, ExactAllow(p, mac, e, rs[0]).0, rs[1..], r);
    }
  }

  // ----- the bounded table on it

  /** One more request of the only origin so far. */
  lemma FirstAgain(p: Policy, mac: LocalKey, s: State, name: nat -> string)
    requires Usable(p) && s.globalStart == 0 && Twins(s, Key(mac, name, 0))
    requires 0 <= s.globalCount < p.origin && s.globalCount < p.global
    ensures var n := Allow(p, mac, s, Ask(name, 0)).0;
      n.globalStart == 0 && n.globalCount == s.globalCount + 1 && n.lru == [Entry(Key(mac, name, 0), 0, n.globalCount)]
  {
    InstantZero(p, name, 0);
    assert ResetGlobal(s, 0) == s;
    hide WindowOf, Touch, ResetGlobal;
    var k := Key(mac, name, 0);
    TwinsTouch(p, s, k, 0);
    hide Twins;
    OneBucketStep(p, mac, s, Ask(name, 0), k, [Entry(k, 0, s.globalCount)]);
    hide Allow;
  }

  /** Origin 0's bucket alone, with c hits. */
  lemma {:induction false} FillsFirst(p: Policy, mac: LocalKey, name: nat -> string, c: nat)
    requires Usable(p) && c <= p.origin && c < p.global
    ensures var s := After(p, mac, Initial, Filling(name, c, 0));
      && s.globalStart == 0 && s.globalCount == c
      && s.lru == if c == 0 then [] else [Entry(Key(mac, name, 0), 0, c)]
  {
    hide Allow;
    if c > 0 {
      var rs := Filling(name, c - 1, 0);
      FillsFirst(p, mac, name, c - 1);
      AfterAppend(p, mac, Initial, rs, Ask(name, 0));
      hide After;
      FirstAgain(p, mac, After(p, mac, Initial, rs), name);
    }
  }

  /** The table after i others: the latest in front, origin 0 last until the table is full. */
  ghost predicate Queue(mac: LocalKey, name: nat -> string, lru: seq<Entry>, i: nat, max: int) {
    && |lru| == Min(i + 1, max)
    && (forall j :: 0 <= j < |lru| && j < i ==> lru[j].key == Key(mac, name, i - j))
    && (i < |lru| ==> lru[i].key == Key(mac, name, 0))
  }

  /** A key that is not in the table goes to the front; the rest moves up, and the last one out of a full table. */
  lemma PushedShape(lru: seq<Entry>, k: Digest, w: int, max: int)
    requires max >= 1 && |lru| <= max && forall j :: 0 <= j < |lru| ==> lru[j].key != k
    ensures var n := Touch(lru, k, w, max);
      && n[0] == Entry(k, w, 0) && |n| == Min(|lru| + 1, max)
      && (forall j :: 1 <= j < |n| ==> n[j] == lru[j - 1])
  {
    TouchShape(lru, k, w, max);
    hide Touch;
    assert IndexOf(lru, k) < 0;
    hide IndexOf;
  }

  lemma NotQueued(mac: LocalKey, name: nat -> string, lru: seq<Entry>, i: nat, max: int, other: nat)
    requires max >= 1 && i <= max && other <= max && Queue(mac, name, lru, i, max) && DistinctOrigins(mac, name, max)
    requires other == i + 1 || (other == 0 && i == max)
    ensures forall j :: 0 <= j < |lru| ==> lru[j].key != Key(mac, name, other)
  {
    forall j | 0 <= j < |lru|
      ensures lru[j].key != Key(mac, name, other)
    {
      assert lru[j].key == Key(mac, name, i - j);
    }
  }

  lemma QueueStep(mac: LocalKey, name: nat -> string, lru: seq<Entry>, i: nat, max: int)
    requires max >= 1 && i < max && Queue(mac, name, lru, i, max) && DistinctOrigins(mac, name, max)
    ensures var n := Touch(lru, Key(mac, name, i + 1), 0, max);
      && n[0] == Entry(Key(mac, name, i + 1), 0, 0)
      && Queue(mac, name, n[0 := n[0].(count := 1)], i + 1, max)
  {
    NotQueued(mac, name, lru, i, max, i + 1);
    PushedShape(lru, Key(mac, name, i + 1), 0, max);
    hide Touch, DistinctOrigins, Key;
  }

  lemma {:induction false} FillsTable(p: Policy, mac: LocalKey, name: nat -> string, i: nat)
    requires Usable(p) && p.origin >= 1 && p.global > p.origin + p.maxBuckets && i <= p.maxBuckets
    requires DistinctOrigins(mac, name, p.maxBuckets)
    ensures var s := After(p, mac, Initial, Filling(name, p.origin, i));
      s.globalStart == 0 && s.globalCount == p.origin + i && Queue(mac, name, s.lru, i, p.maxBuckets)
  {
    if i == 0 {
      FillsFirst(p, mac, name, p.origin);
    } else {
      InstantZero(p, name, i);
      hide WindowOf, Queue, DistinctOrigins;
      var rs := Filling(name, p.origin, i - 1);
      var s := After(p, mac, Initial, rs);
      FillsTable(p, mac, name, i - 1);
      AfterAppend(p, mac, Initial, rs, Ask(name, i));
      QueueStep(mac, name, s.lru, i - 1, p.maxBuckets);
      OneBucketStep(p, mac, s, Ask(name, i), Key(mac, name, i), Touch(s.lru, Key(mac, name, i), 0, p.maxBuckets));
    }
  }

  /** Once as many others have asked as there are buckets, origin 0 is forgotten and admitted again. */
  lemma TableForgets(p: Policy, mac: LocalKey, name: nat -> string)
    requires Usable(p) && p.origin >= 1 && p.global > p.origin + p.maxBuckets
    requires DistinctOrigins(mac, name, p.maxBuckets)
    ensures Allow(p, mac, After(p, mac, Initial, Filling(name, p.origin, p.maxBuckets)), Ask(name, 0)).1 == Admit
  {
    var s := After(p, mac, Initial, Filling(name, p.origin, p.maxBuckets));
    var k := Key(mac, name, 0);
    FillsTable(p, mac, name, p.maxBuckets);
    InstantZero(p, name, 0);
    NotQueued(mac, name, s.lru, p.maxBuckets, p.maxBuckets, 0);
    assert |s.lru| <= p.maxBuckets;
    hide Touch, WindowOf, Queue, DistinctOrigins, After, Filling;
    PushedShape(s.lru, k, 0, p.maxBuckets);
    OneBucketStep(p, mac, s, Ask(name, 0), k, Touch(s.lru, k, 0, p.maxBuckets));
  }

  // ----- the unbounded counters on it

  lemma ExactSingle(p: Policy, mac: LocalKey, e: Exact, r: Request, k: Digest)
    requires Usable(p) && r.prefix == "" && k == mac("origin", r.origin)
    ensures var w := WindowOf(p, r);
      var (n, d) := ExactAllow(p, mac, e, r);
      if ExactGlobal(e, w) < p.global && ExactCount(e, k, w) < p.origin
      then d == Admit && n == Exact(e.globals[w := ExactGlobal(e, w) + 1], e.counts[(k, w) := ExactCount(e, k, w) + 1])
      else d == Deny(RetryOf(p, r)) && n == e
  {
    var wanted := Wants(p, mac, r);
    assert wanted == [Wanted(k, p.origin)] && wanted[1..] == [] && wanted[0] == Wanted(k, p.origin);
    var w := WindowOf(p, r);
    assert ExactOk(e, wanted, w) <==> ExactCount(e, k, w) < p.origin;
    var g := e.(globals := e.globals[w := ExactGlobal(e, w) + 1]);
    var c := g.(counts := g.counts[(k, w) := ExactCount(g, k, w) + 1]);
    assert ExactBumpAll(g, wanted, w) == ExactBumpAll(c, wanted[1..], w);
  }

  lemma {:induction false} ExactFillsFirst(p: Policy, mac: LocalKey, name: nat -> string, c: nat)
    requires Usable(p) && c <= p.origin && c < p.global
    ensures var e := ExactAfter(p, mac, ExactInitial, Filling(name, c, 0));
      ExactGlobal(e, 0) == c && ExactCount(e, Key(mac, name, 0), 0) == c
  {
    if c > 0 {
      InstantZero(p, name, 0);
      var rs := Filling(name, c - 1, 0);
      ExactFillsFirst(p, mac, name, c - 1);
      ExactAppend(p, mac, ExactInitial, rs, Ask(name, 0));
      ExactSingle(p, mac, ExactAfter(p, mac, ExactInitial, rs), Ask(name, 0), Key(mac, name, 0));
      hide ExactAllow, WindowOf, ExactAfter;
    }
  }

  /** The counter of origin 0 stays at its limit while others ask. */
  lemma {:induction false} ExactRemembers(p: Policy, mac: LocalKey, name: nat -> string, i: nat)
    requires Usable(p) && 0 <= p.origin < p.global && DistinctOrigins(mac, name, i)
    ensures ExactCount(ExactAfter(p, mac, ExactInitial, Filling(name, p.origin, i)), Key(mac, name, 0), 0) == p.origin
  {
    if i == 0 {
      ExactFillsFirst(p, mac, name, p.origin);
    } else {
      InstantZero(p, name, i);
      var rs := Filling(name, p.origin, i - 1);
      ExactRemembers(p, mac, name, i - 1);
      ExactAppend(p, mac, ExactInitial, rs, Ask(name, i));
      ExactSingle(p, mac, ExactAfter(p, mac, ExactInitial, rs), Ask(name, i), Key(mac, name, i));
      hide ExactAllow, WindowOf, ExactAfter;
      assert Key(mac, name, 0) != Key(mac, name, i);
    }
  }

  lemma ExactDenies(p: Policy, mac: LocalKey, name: nat -> string)
    requires Usable(p) && 0 <= p.origin < p.global && DistinctOrigins(mac, name, p.maxBuckets)
    ensures var e := ExactAfter(p, mac, ExactInitial, Filling(name, p.origin, p.maxBuckets));
      ExactAllow(p, mac, e, Ask(name, 0)).1.Deny?
  {
    InstantZero(p, name, 0);
    ExactRemembers(p, mac, name, p.maxBuckets);
    ExactSingle(p, mac, ExactAfter(p, mac, ExactInitial, Filling(name, p.origin, p.maxBuckets)), Ask(name, 0),
                Key(mac, name, 0));
    hide ExactAllow, WindowOf, ExactAfter;
  }

  // ----- how many keys it presents

  function Keys(mac: LocalKey, name: nat -> string, n: nat): (ks: set<Digest>)
    ensures |ks| <= n && forall i: nat :: i < n ==> Key(mac, name, i) in ks
  {
    if n == 0 then {} else Keys(mac, name, n - 1) + {Key(mac, name, n - 1)}
  }

  lemma {:induction false} PresentedAppend(p: Policy, mac: LocalKey, rs: seq<Request>, r: Request, w: int)
    requires Usable(p)
    ensures Presented(p, mac, rs + [r], w)
         == Presented(p, mac, rs, w) + if WindowOf(p, r) == w then KeysOf(Wants(p, mac, r)) else {}
  {
    hide WindowOf, KeysOf, Wants;
    if rs == [] {
      assert [] + [r] == [r] && [r][1..] == [];
    } else {
      assert (rs + [r])[0] == rs[0] && (rs + [r])[1..] == rs[1..] + [r];
      PresentedAppend(p, mac, rs[1..], r, w);
    }
  }

  lemma AskedKey(p: Policy, mac: LocalKey, name: nat -> string, i: nat)
    ensures KeysOf(Wants(p, mac, Ask(name, i))) == {Key(mac, name, i)}
  {
    var wanted := Wants(p, mac, Ask(name, i));
    assert wanted == [Wanted(Key(mac, name, i), p.origin)];
    assert wanted[0].key in KeysOf(wanted);
  }

  lemma {:induction false} FillingPresents(
      p: Policy, mac: LocalKey, name: nat -> string, c: nat, i: nat, n: nat, w: int)
    requires Usable(p) && i < n
    ensures Presented(p, mac, Filling(name, c, i), w) <= Keys(mac, name, n)
    ensures forall j :: 0 <= j < |Filling(name, c, i)| ==> Filling(name, c, i)[j].now == 0
    decreases c + i
  {
    hide WindowOf, KeysOf, Wants;
    if i > 0 {
      FillingPresents(p, mac, name, c, i - 1, n, w);
      PresentedAppend(p, mac, Filling(name, c, i - 1), Ask(name, i), w);
      AskedKey(p, mac, name, i);
    } else if c > 0 {
      FillingPresents(p, mac, name, c - 1, 0, n, w);
      PresentedAppend(p, mac, Filling(name, c - 1, 0), Ask(name, 0), w);
      AskedKey(p, mac, name, 0);
    }
  }

  lemma WitnessPresents(p: Policy, mac: LocalKey, name: nat -> string, n: int)
    requires Usable(p) && p.origin >= 1 && n > p.maxBuckets
    ensures var rs := Filling(name, p.origin, p.maxBuckets) + [Ask(name, 0)];
      InOrder(p, rs) && forall w :: |Presented(p, mac, rs, w)| <= n
  {
    var front := Filling(name, p.origin, p.maxBuckets);
    var rs := front + [Ask(name, 0)];
    var m := p.maxBuckets + 1;
    forall w
      ensures |Presented(p, mac, rs, w)| <= n
    {
      FillingPresents(p, mac, name, p.origin, p.maxBuckets, m, w);
      PresentedAppend(p, mac, front, Ask(name, 0), w);
      AskedKey(p, mac, name, 0);
      hide WindowOf, KeysOf, Wants, Presented;
      SubsetSize(Presented(p, mac, rs, w), Keys(mac, name, m));
    }
    FillingPresents(p, mac, name, p.origin, p.maxBuckets, m, 0);
    forall i | 0 <= i < |rs|
      ensures rs[i].now == 0
    {
    }
  }

  lemma TooManyKeysDiffer(p: Policy, mac: LocalKey, name: nat -> string, n: int)
    requires Usable(p) && p.origin >= 1 && p.global > p.origin + p.maxBuckets && n > p.maxBuckets
    requires DistinctOrigins(mac, name, p.maxBuckets)
    ensures !ExactUpTo(p, mac, n)
  {
    hide Allow, ExactAllow, After, ExactAfter, Decisions, ExactDecisions, InOrder, Presented, Filling, DistinctOrigins;
    var front := Filling(name, p.origin, p.maxBuckets);
    var rs := front + [Ask(name, 0)];
    WitnessPresents(p, mac, name, n);
    TableForgets(p, mac, name);
    ExactDenies(p, mac, name);
    AfterAppend(p, mac, Initial, front, Ask(name, 0));
    ExactAppend(p, mac, ExactInitial, front, Ask(name, 0));
    var a, b := Decisions(p, mac, Initial, rs), ExactDecisions(p, mac, ExactInitial, rs);
    assert a[|a| - 1] == Admit && b[|b| - 1].Deny?;
  }

  /**
   * For every policy whose global limit leaves room for it, and origins with different keys: the bounded
   * table decides like unbounded counters on all runs presenting at most n keys in a window if and only
   * if n is at most MaxBuckets.
   */
  lemma CapacityIsTight(p: Policy, mac: LocalKey, name: nat -> string, n: int)
    requires Usable(p) && p.origin >= 1 && p.global > p.origin + p.maxBuckets
    requires DistinctOrigins(mac, name, p.maxBuckets)
    ensures ExactUpTo(p, mac, n) <==> n <= p.maxBuckets
  {
    if n <= p.maxBuckets {
      forall rs: seq<Request> | InOrder(p, rs) && forall w :: |Presented(p, mac, rs, w)| <= n
        ensures Decisions(p, mac, Initial, rs) == ExactDecisions(p, mac, ExactInitial, rs)
      {
        LruRefinesExact(p, mac, rs);
      }
    } else {
      TooManyKeysDiffer(p, mac, name, n);
    }
  }
}
