/** On which schedules of instants the global limit holds, whatever is requested at them. */
module EdgeSchedules {
  import opened Common
  import opened EdgeModel
  import opened EdgeTheorems
  import opened EdgeConservation

  // ----- schedules

  function Windows(p: Policy, nows: seq<int>): (ws: seq<int>)
    requires Usable(p)
    ensures |ws| == |nows| && forall i :: 0 <= i < |ws| ==> ws[i] == WindowStart(nows[i], p.windowSeconds)
  {
    if nows == [] then [] else [WindowStart(nows[0], p.windowSeconds)] + Windows(p, nows[1..])
  }

  /** The requests of window w are next to each other. */
  ghost predicate Consecutive(ws: seq<int>, w: int) {
    forall i, j, k :: 0 <= i < j < k < |ws| && ws[i] == w && ws[k] == w ==> ws[j] == w
  }

  function Occurrences(ws: seq<int>, w: int): nat {
    if ws == [] then 0 else (if ws[0] == w then 1 else 0) + Occurrences(ws[1..], w)
  }

  /** No window comes back, unless so few requests fall in it that the limit cannot be reached. */
  ghost predicate Contained(p: Policy, nows: seq<int>)
    requires Usable(p)
  {
    forall w :: Consecutive(Windows(p, nows), w) || Occurrences(Windows(p, nows), w) <= p.global
  }

  ghost predicate At(rs: seq<Request>, nows: seq<int>) {
    |rs| == |nows| && forall i :: 0 <= i < |rs| ==> rs[i].now == nows[i]
  }

  /** Whatever is requested at these instants, no window admits more than Global. */
  ghost predicate LimitHolds(p: Policy, mac: LocalKey, nows: seq<int>)
    requires Usable(p)
  {
    forall rs: seq<Request>, w :: At(rs, nows) ==> Admitted(p, mac, Initial, rs, w) <= p.global
  }

  // ----- contained schedules keep the limit

  lemma {:induction false} NoOccurrence(ws: seq<int>, w: int)
    ensures Occurrences(ws, w) == 0 <==> forall i :: 0 <= i < |ws| ==> ws[i] != w
  {
    if ws != [] {
      NoOccurrence(ws[1..], w);
      assert forall i :: 1 <= i < |ws| ==> ws[i] == ws[1..][i - 1];
    }
  }

  lemma {:induction false} AdmittedOccurs(p: Policy, mac: LocalKey, s: State, rs: seq<Request>, nows: seq<int>, w: int)
    requires Usable(p) && At(rs, nows)
    ensures Admitted(p, mac, s, rs, w) <= Occurrences(Windows(p, nows), w)
    decreases |rs|
  {
    hide Allow, WindowStart;
    if rs != [] {
      AdmittedOccurs(p, mac, Allow(p, mac, s, rs[0]).0, rs[1..], nows[1..], w);
      assert Windows(p, nows)[1..] == Windows(p, nows[1..]);
    }
  }

  /** A block of requests of one window: from its first one on, what is admitted and counted stays within Global. */
  lemma {:induction false} BlockBound(p: Policy, mac: LocalKey, s: State, rs: seq<Request>, nows: seq<int>, w: int)
    requires Usable(p) && At(rs, nows) && Consecutive(Windows(p, nows), w)
    requires GlobalCount(s, w) <= p.global
    requires GlobalCount(s, w) == 0 || rs == [] || Windows(p, nows)[0] == w || Occurrences(Windows(p, nows), w) == 0
    ensures Admitted(p, mac, s, rs, w) + GlobalCount(s, w) <= p.global
    decreases |rs|
  {
    if rs != [] {
      var ws, rest := Windows(p, nows), Windows(p, nows[1..]);
      var n := Allow(p, mac, s, rs[0]).0;
      AllowGlobal(p, mac, s, rs[0]);
      assert ws[1..] == rest && ws[0] == WindowOf(p, rs[0]);
      if Occurrences(ws, w) == 0 {
        AdmittedOccurs(p, mac, s, rs, nows, w);
      } else {
        RestOfBlock(ws, w);
        hide Allow, WindowStart, Occurrences, Consecutive;
        BlockBound(p, mac, n, rs[1..], nows[1..], w);
      }
    }
  }

  lemma RestOfBlock(ws: seq<int>, w: int)
    requires ws != [] && Consecutive(ws, w)
    ensures Consecutive(ws[1..], w)
    ensures ws[0] == w ==> ws[1..] == [] || ws[1] == w || Occurrences(ws[1..], w) == 0
  {
    assert forall i :: 0 <= i < |ws| - 1 ==> ws[1..][i] == ws[i + 1];
    NoOccurrence(ws[1..], w);
    if ws[0] == w && |ws| > 1 && ws[1] != w {
      forall i | 0 <= i < |ws[1..]|
        ensures ws[1..][i] != w
      {
        assert ws[1..][i] == ws[i + 1];
      }
    }
  }

  lemma ContainedKeepsLimit(p: Policy, mac: LocalKey, nows: seq<int>)
    requires Usable(p) && p.global >= 0 && Contained(p, nows)
    ensures LimitHolds(p, mac, nows)
  {
    hide Consecutive, Admitted, Occurrences;
    forall rs: seq<Request>, w | At(rs, nows)
      ensures Admitted(p, mac, Initial, rs, w) <= p.global
    {
      if Consecutive(Windows(p, nows), w) {
        BlockBound(p, mac, Initial, rs, nows, w);
      } else {
        AdmittedOccurs(p, mac, Initial, rs, nows, w);
      }
    }
  }

  // ----- other schedules break it: origins that are never held back by their own limit

  /** Origins name(i), name(i + 1), ... asking at these instants. */
  function Asking(name: nat -> string, i: nat, nows: seq<int>): (rs: seq<Request>)
    ensures At(rs, nows) && forall j :: 0 <= j < |rs| ==> rs[j] == Request(nows[j], name(i + j), "")
    decreases |nows|
  {
    if nows == [] then [] else [Request(nows[0], name(i), "")] + Asking(name, i + 1, nows[1..])
  }

  /** The one bucket, if there is one, counts what the global counter counts. */
  ghost predicate Twins(s: State, k: Digest) {
    if s.lru == [] then s.globalCount == 0 else s.lru == [Entry(k, s.globalStart, s.globalCount)]
  }

  function Key(mac: LocalKey, name: nat -> string, i: nat): Digest {
    mac("origin", name(i))
  }

  /** The keys of the origins i to n - 1 differ, and none of them is in the table. */
  ghost predicate Newcomers(mac: LocalKey, s: State, name: nat -> string, i: nat, n: nat) {
    && (forall a: nat, b: nat :: i <= a < b < n ==> Key(mac, name, a) != Key(mac, name, b))
    && (forall a: nat, j :: i <= a < n && 0 <= j < |s.lru| ==> s.lru[j].key != Key(mac, name, a))
  }

  /** Either one origin asks all the time and may use the whole global limit, or a new one asks each time. */
  ghost predicate Unhindered(p: Policy, mac: LocalKey, s: State, name: nat -> string, i: nat, n: nat) {
    || (p.global <= p.origin && Twins(s, Key(mac, name, i)) && forall j: nat :: Key(mac, name, j) == Key(mac, name, i))
    || (1 <= p.origin && Newcomers(mac, s, name, i, n))
  }

  lemma TwinsTouch(p: Policy, s: State, k: Digest, w: int)
    requires Usable(p) && Twins(s, k)
    ensures Touch(ResetGlobal(s, w).lru, k, w, p.maxBuckets) == [Entry(k, w, GlobalCount(s, w))]
  {
    if s.lru != [] {
      assert s.lru[0].key == k;
      assert Without(s.lru, 0) == [];
    }
  }

  /** A request that wants one bucket, whose count after the lookup is below its limit. */
  lemma OneBucketStep(p: Policy, mac: LocalKey, s: State, r: Request, k: Digest, lru: seq<Entry>)
    requires Usable(p) && r.prefix == "" && k == mac("origin", r.origin)
    requires lru == Touch(s.lru, k, WindowOf(p, r), p.maxBuckets)
    requires GlobalCount(s, WindowOf(p, r)) < p.global ==> lru[0].count < p.origin
    ensures var w := WindowOf(p, r);
      var (n, d) := Allow(p, mac, s, r);
      && (d == Admit <==> GlobalCount(s, w) < p.global)
      && n.globalStart == w && n.globalCount == GlobalCount(s, w) + (if d == Admit then 1 else 0)
      && n.lru == if d == Admit then lru[0 := lru[0].(count := lru[0].count + 1)] else s.lru
  {
    var w := WindowOf(p, r);
    var wanted := Wants(p, mac, r);
    assert wanted == [Wanted(k, p.origin)];
    if GlobalCount(s, w) < p.global {
      assert wanted[1..] == [];
      assert TouchAll(lru, wanted[1..], w, p.maxBuckets) == (lru, true);
      assert TouchAll(s.lru, wanted, w, p.maxBuckets) == (lru, true);
      assert Bump(lru, k) == lru[0 := lru[0].(count := lru[0].count + 1)];
      assert BumpAll(lru, wanted) == BumpAll(Bump(lru, k), wanted[1..]);
    }
  }

  /** Such an origin is admitted exactly while the global count allows, and the next one is unhindered too. */
  lemma UnhinderedStep(p: Policy, mac: LocalKey, s: State, name: nat -> string, i: nat, n: nat, now: int)
    requires Usable(p) && p.global >= 1 && i < n && Unhindered(p, mac, s, name, i, n)
    ensures var r := Request(now, name(i), "");
      var w := WindowOf(p, r);
      var (t, d) := Allow(p, mac, s, r);
      && (d == Admit <==> GlobalCount(s, w) < p.global) && Unhindered(p, mac, t, name, i + 1, n)
      && t.globalStart == w && t.globalCount == GlobalCount(s, w) + if d == Admit then 1 else 0
  {
    var r := Request(now, name(i), "");
    var w := WindowOf(p, r);
    var k := Key(mac, name, i);
    var lru := Touch(s.lru, k, w, p.maxBuckets);
    if p.global <= p.origin && Twins(s, k) && forall j: nat :: Key(mac, name, j) == k {
      TwinsTouch(p, s, k, w);
      OneBucketStep(p, mac, s, r, k, lru);
      hide Allow, Touch, WindowOf;
      assert Twins(Allow(p, mac, s, r).0, k);
      assert Key(mac, name, i + 1) == k;
    } else {
      NewcomerTouch(mac, s, name, i, n, w, p.maxBuckets);
      OneBucketStep(p, mac, s, r, k, lru);
      hide Allow, Touch, WindowOf;
    }
  }

  /** The lookup of a newcomer puts an empty bucket in front, and only its key is new in the table. */
  lemma NewcomerTouch(mac: LocalKey, s: State, name: nat -> string, i: nat, n: nat, w: int, max: int)
    requires max >= 1 && i < n && Newcomers(mac, s, name, i, n)
    ensures var lru := Touch(s.lru, Key(mac, name, i), w, max);
      && lru[0] == Entry(Key(mac, name, i), w, 0)
      && Newcomers(mac, State(w, 0, lru), name, i + 1, n) && Newcomers(mac, s, name, i + 1, n)
  {
    var k := Key(mac, name, i);
    var lru := Touch(s.lru, k, w, max);
    TouchShape(s.lru, k, w, max);
    MovedFrom(s.lru, lru, Displaced(s.lru, k, max));
    hide Touch, Moved;
    forall a: nat, j | i + 1 <= a < n && 0 <= j < |lru|
      ensures lru[j].key != Key(mac, name, a)
    {
      assert lru[j] in lru;
    }
  }

  lemma Unfold(p: Policy, mac: LocalKey, s: State, name: nat -> string, i: nat, n: nat, nows: seq<int>, w: int)
      returns (t: State, hit: nat, admitted: nat)
    requires Usable(p) && p.global >= 1 && i + |nows| <= n && Unhindered(p, mac, s, name, i, n) && nows != []
    ensures Unhindered(p, mac, t, name, i + 1, n)
    ensures GlobalCount(t, w) == if hit == 1 then GlobalCount(s, w) + admitted else 0
    ensures hit <= 1 && admitted == if hit == 1 && GlobalCount(s, w) < p.global then 1 else 0
    ensures Occurrences(Windows(p, nows), w) == hit + Occurrences(Windows(p, nows[1..]), w)
    ensures Admitted(p, mac, s, Asking(name, i, nows), w)
         == admitted + Admitted(p, mac, t, Asking(name, i + 1, nows[1..]), w)
    ensures After(p, mac, s, Asking(name, i, nows)) == After(p, mac, t, Asking(name, i + 1, nows[1..]))
    ensures t.globalStart == Windows(p, nows)[0]
  {
    var rs := Asking(name, i, nows);
    UnhinderedStep(p, mac, s, name, i, n, nows[0]);
    t := Allow(p, mac, s, rs[0]).0;
    hit := if WindowOf(p, rs[0]) == w then 1 else 0;
    admitted := if hit == 1 && GlobalCount(s, w) < p.global then 1 else 0;
    hide Allow, Unhindered, WindowStart;
    assert rs[1..] == Asking(name, i + 1, nows[1..]) && Windows(p, nows)[1..] == Windows(p, nows[1..]);
  }

  lemma NoneAsking(p: Policy, mac: LocalKey, s: State, name: nat -> string, i: nat, w: int)
    requires Usable(p)
    ensures Admitted(p, mac, s, Asking(name, i, []), w) == 0 && Occurrences(Windows(p, []), w) == 0
    ensures After(p, mac, s, Asking(name, i, [])) == s
    ensures forall g: int, c: int :: Min(g, c) <= c
  {
  }

  /** The count after one more request, hit or not, still reaches the smaller of limit and demand. */
  lemma OneMore(limit: int, count: int, demand: nat, granted: nat, hit: nat, admitted: nat)
    requires 0 <= count <= limit && hit <= 1 && admitted == if hit == 1 && count < limit then 1 else 0
    requires var c := if hit == 1 then count + admitted else 0; granted + c >= Min(limit, demand + c)
    ensures admitted + granted + count >= Min(limit, hit + demand + count)
  {
  }

  /** Any stretch is admitted until the limit is reached. */
  lemma {:induction false} StretchReaches(
      p: Policy, mac: LocalKey, s: State, name: nat -> string, i: nat, n: nat, nows: seq<int>, w: int)
    requires Usable(p) && p.global >= 1 && i + |nows| <= n && Unhindered(p, mac, s, name, i, n)
    requires 0 <= GlobalCount(s, w) <= p.global
    ensures Admitted(p, mac, s, Asking(name, i, nows), w) + GlobalCount(s, w)
         >= Min(p.global, Occurrences(Windows(p, nows), w) + GlobalCount(s, w))
    decreases |nows|
  {
    hide *;
    if nows == [] {
      NoneAsking(p, mac, s, name, i, w);
    } else {
      var t, hit, admitted := Unfold(p, mac, s, name, i, n, nows, w);
      StretchReaches(p, mac, t, name, i + 1, n, nows[1..], w);
      OneMore(p.global, GlobalCount(s, w), Occurrences(Windows(p, nows[1..]), w),
              Admitted(p, mac, t, Asking(name, i + 1, nows[1..]), w), hit, admitted);
    }
  }

  lemma {:induction false} AdmittedSplits(p: Policy, mac: LocalKey, s: State, a: seq<Request>, b: seq<Request>, w: int)
    requires Usable(p)
    ensures Admitted(p, mac, s, a + b, w) == Admitted(p, mac, s, a, w) + Admitted(p, mac, After(p, mac, s, a), b, w)
    decreases |a|
  {
    hide Allow, WindowStart;
    if a == [] {
      assert a + b == b;
    } else {
      assert (a + b)[0] == a[0] && (a + b)[1..] == a[1..] + b;
      AdmittedSplits(p, mac, Allow(p, mac, s, a[0]).0, a[1..], b, w);
    }
  }

  lemma {:induction false} StretchAfter(
      p: Policy, mac: LocalKey, s: State, name: nat -> string, i: nat, n: nat, nows: seq<int>)
    requires Usable(p) && p.global >= 1 && i + |nows| <= n && Unhindered(p, mac, s, name, i, n)
    ensures var t := After(p, mac, s, Asking(name, i, nows));
      && Unhindered(p, mac, t, name, i + |nows|, n)
      && (nows != [] ==> t.globalStart == Windows(p, nows)[|nows| - 1])
    decreases |nows|
  {
    hide Unhindered, Allow, Admitted, Occurrences, GlobalCount, At;
    if nows == [] {
      NoneAsking(p, mac, s, name, i, 0);
    } else {
      var t, hit, admitted := Unfold(p, mac, s, name, i, n, nows, 0);
      StretchAfter(p, mac, t, name, i + 1, n, nows[1..]);
      if |nows| == 1 { NoneAsking(p, mac, t, name, i + 1, 0); }
      hide After;
      assert |nows| > 1 ==> Windows(p, nows)[|nows| - 1] == Windows(p, nows[1..])[|nows| - 2];
    }
  }

  lemma {:induction false} OccurrencesSplit(a: seq<int>, b: seq<int>, w: int)
    ensures Occurrences(a + b, w) == Occurrences(a, w) + Occurrences(b, w)
  {
    if a == [] {
      assert a + b == b;
    } else {
      assert (a + b)[1..] == a[1..] + b;
      OccurrencesSplit(a[1..], b, w);
    }
  }

  lemma OccursOnce(ws: seq<int>, w: int, i: nat)
    requires i < |ws| && ws[i] == w
    ensures Occurrences(ws, w) >= 1
  {
    NoOccurrence(ws, w);
  }

  lemma {:induction false} WindowsSplit(p: Policy, a: seq<int>, b: seq<int>)
    requires Usable(p)
    ensures Windows(p, a + b) == Windows(p, a) + Windows(p, b)
  {
    hide WindowStart;
  }

  lemma AskingSplit(name: nat -> string, a: seq<int>, b: seq<int>)
    ensures Asking(name, 0, a + b) == Asking(name, 0, a) + Asking(name, |a|, b)
  {
    var all, first, rest := Asking(name, 0, a + b), Asking(name, 0, a), Asking(name, |a|, b);
    hide Asking;
    forall j | 0 <= j < |all|
      ensures all[j] == (first + rest)[j]
    {
      if j < |a| {
        assert (a + b)[j] == a[j];
      } else {
        assert (a + b)[j] == b[j - |a|];
      }
    }
  }

  /** Two stretches with another window between them are each admitted up to the limit. */
  lemma TwoStretches(p: Policy, mac: LocalKey, name: nat -> string, a: seq<int>, b: seq<int>, w: int)
    requires Usable(p) && p.global >= 1 && Unhindered(p, mac, Initial, name, 0, |a| + |b|)
    requires a != [] && Windows(p, a)[|a| - 1] != w
    ensures Admitted(p, mac, Initial, Asking(name, 0, a + b), w)
         >= Min(p.global, Occurrences(Windows(p, a), w)) + Min(p.global, Occurrences(Windows(p, b), w))
  {
    hide Admitted, Occurrences, Windows, Asking, After, At, Min, Unhindered, WindowStart, Allow;
    var rs, n := Asking(name, 0, a), |a| + |b|;
    AskingSplit(name, a, b);
    StretchAfter(p, mac, Initial, name, 0, n, a);
    AdmittedSplits(p, mac, Initial, rs, Asking(name, |a|, b), w);
    StretchReaches(p, mac, Initial, name, 0, n, a, w);
    StretchReaches(p, mac, After(p, mac, Initial, rs), name, |a|, n, b, w);
  }

  lemma MinSum(limit: int, a: int, b: int)
    requires limit >= 1 && a >= 1 && b >= 1 && a + b > limit
    ensures Min(limit, a) + Min(limit, b) > limit
  {
  }

  /** When a window comes back after another one, unhindered origins get more than Global into it. */
  lemma ReturnBreaksLimit(
      p: Policy, mac: LocalKey, name: nat -> string, nows: seq<int>, w: int, i: nat, j: nat, k: nat)
    requires Usable(p) && p.global >= 1 && Unhindered(p, mac, Initial, name, 0, |nows|)
    requires i < j < k < |nows|
    requires Windows(p, nows)[i] == w && Windows(p, nows)[j] != w && Windows(p, nows)[k] == w
    requires Occurrences(Windows(p, nows), w) > p.global
    ensures Admitted(p, mac, Initial, Asking(name, 0, nows), w) > p.global
  {
    hide *;
    var a, b := nows[..j + 1], nows[j + 1..];
    assert nows == a + b;
    WindowsSplit(p, a, b);
    OccurrencesSplit(Windows(p, a), Windows(p, b), w);
    OccursOnce(Windows(p, a), w, i);
    OccursOnce(Windows(p, b), w, k - j - 1);
    TwoStretches(p, mac, name, a, b, w);
    MinSum(p.global, Occurrences(Windows(p, a), w), Occurrences(Windows(p, b), w));
  }

  lemma ReturningWindow(p: Policy, nows: seq<int>) returns (w: int, i: nat, j: nat, k: nat)
    requires Usable(p) && !Contained(p, nows)
    ensures i < j < k < |nows| && Occurrences(Windows(p, nows), w) > p.global
    ensures Windows(p, nows)[i] == w && Windows(p, nows)[j] != w && Windows(p, nows)[k] == w
  {
    hide Occurrences, WindowStart;
    var ws := Windows(p, nows);
    w :| !Consecutive(ws, w) && Occurrences(ws, w) > p.global;
    hide Windows;
    i, j, k :| 0 <= i < j < k < |ws| && ws[i] == w && ws[k] == w && ws[j] != w;
  }

  lemma Exceeds(p: Policy, mac: LocalKey, nows: seq<int>, rs: seq<Request>, w: int)
    requires Usable(p) && At(rs, nows) && Admitted(p, mac, Initial, rs, w) > p.global
    ensures !LimitHolds(p, mac, nows)
  {
    hide At, Admitted;
  }

  lemma UnhinderedMakesExact(p: Policy, mac: LocalKey, name: nat -> string, nows: seq<int>)
    requires Usable(p) && p.global >= 1 && Unhindered(p, mac, Initial, name, 0, |nows|)
    ensures LimitHolds(p, mac, nows) <==> Contained(p, nows)
  {
    hide *;
    if Contained(p, nows) {
      ContainedKeepsLimit(p, mac, nows);
    } else {
      var w, i, j, k := ReturningWindow(p, nows);
      ReturnBreaksLimit(p, mac, name, nows, w, i, j, k);
      Exceeds(p, mac, nows, Asking(name, 0, nows), w);
    }
  }

  /**
   * For Global at least one and Origin at least Global, the limit holds for everything that may be
   * requested at these instants if and only if every window's requests are consecutive or at most Global.
   */
  lemma GlobalLimitExact(p: Policy, mac: LocalKey, nows: seq<int>)
    requires Usable(p) && 1 <= p.global <= p.origin
    ensures LimitHolds(p, mac, nows) <==> Contained(p, nows)
  {
    UnhinderedMakesExact(p, mac, (i: nat) => "", nows);
  }

  /** The same for every accepted Origin, if there are as many origins with different keys as requests. */
  lemma GlobalLimitExactForOrigins(p: Policy, mac: LocalKey, name: nat -> string, nows: seq<int>)
    requires Usable(p) && 1 <= p.global && 1 <= p.origin
    requires forall a: nat, b: nat :: a < b < |nows| ==> Key(mac, name, a) != Key(mac, name, b)
    ensures LimitHolds(p, mac, nows) <==> Contained(p, nows)
  {
    assert Newcomers(mac, Initial, name, 0, |nows|);
    hide LimitHolds, Contained, Newcomers;
    UnhinderedMakesExact(p, mac, name, nows);
  }

  /** A clock read in order has only contained schedules. */
  lemma OrderedIsContained(p: Policy, nows: seq<int>)
    requires Usable(p) && forall i, j :: 0 <= i < j < |nows| ==> nows[i] <= nows[j]
    ensures Contained(p, nows)
  {
    var ws := Windows(p, nows);
    forall i, j | 0 <= i < j < |nows|
      ensures ws[i] <= ws[j]
    {
      WindowMonotone(nows[i], nows[j], p.windowSeconds);
    }
  }
}
