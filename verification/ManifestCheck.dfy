/** Acceptance of a target image against its base and an allowlist of additions. */
module ManifestCheck {
  import opened Common
  import Arith
  import opened Text
  import opened ManifestText
  import opened ManifestFile

  type PathMap = map<string, Entry>

  /** The map of a list; a later entry replaces an earlier one with its path. */
  function Indexed(entries: seq<Entry>): PathMap {
    if entries == [] then map[]
    else Indexed(entries[..|entries| - 1])[entries[|entries| - 1].path := entries[|entries| - 1]]
  }

  method Index(entries: seq<Entry>) returns (result: PathMap)
    ensures result == Indexed(entries)
  {
    result := map[];
    var i := 0;
    while i < |entries|
      invariant 0 <= i <= |entries| && result == Indexed(entries[..i])
    {
      result := result[entries[i].path := entries[i]];
      i := i + 1;
      assert entries[..i][..i - 1] == entries[..i - 1];
    }
    assert entries[..i] == entries;
  }

  predicate MatchesAllowed(actual: Entry, allowed: Entry) {
    actual == if allowed.hash == "*" then allowed.(hash := actual.hash) else allowed
  }

  predicate Inherits(b: Entry, target: PathMap) {
    b.path in target && target[b.path] == b
  }

  predicate Adds(a: Entry, base: PathMap, target: PathMap) {
    a.path !in base && a.path in target && MatchesAllowed(target[a.path], a)
  }

  predicate Accepts(base: seq<Entry>, target: seq<Entry>, expected: seq<Entry>) {
    && (forall i :: 0 <= i < |base| ==> Inherits(base[i], Indexed(target)))
    && (forall i :: 0 <= i < |expected| ==> Adds(expected[i], Indexed(base), Indexed(target)))
    && |target| == |base| + |expected|
  }

  method VerifyEntries(base: seq<Entry>, target: seq<Entry>, expected: seq<Entry>) returns (ok: bool)
    ensures ok <==> Accepts(base, target, expected)
  {
    var targetByPath := Index(target);
    var baseByPath := Index(base);
    var i := 0;
    while i < |base|
      invariant 0 <= i <= |base| && forall k :: 0 <= k < i ==> Inherits(base[k], targetByPath)
    {
      if base[i].path !in targetByPath || targetByPath[base[i].path] != base[i] {
        assert !Inherits(base[i], targetByPath);
        return false;
      }
      i := i + 1;
    }
    i := 0;
    while i < |expected|
      invariant 0 <= i <= |expected| && forall k :: 0 <= k < i ==> Adds(expected[k], baseByPath, targetByPath)
    {
      var path := expected[i].path;
      if path in baseByPath || path !in targetByPath || !MatchesAllowed(targetByPath[path], expected[i]) {
        assert !Adds(expected[i], baseByPath, targetByPath);
        return false;
      }
      i := i + 1;
    }
    return |target| == |base| + |expected|;
  }

  // ----- what acceptance means

  /** The entry is the allowed one in every field, except that an allowed hash of `*` stands for any. */
  ghost predicate Fills(actual: Entry, allowed: Entry) {
    && actual.path == allowed.path && actual.kind == allowed.kind && actual.mode == allowed.mode
    && actual.uid == allowed.uid && actual.gid == allowed.gid && actual.link == allowed.link
    && (actual.hash == allowed.hash || allowed.hash == "*")
  }

  /**
   * The target holds the base's entries unchanged, one entry for each allowed addition, none of them at a
   * path of the base, and nothing else.
   */
  ghost predicate BaseWithAdditions(base: seq<Entry>, target: seq<Entry>, expected: seq<Entry>) {
    && (forall b :: b in base ==> b in target)
    && (forall a :: a in expected ==> exists t :: t in target && Fills(t, a))
    && (forall t :: t in target ==> t in base || exists a :: a in expected && Fills(t, a))
    && (forall a, b :: a in expected && b in base ==> a.path != b.path)
  }

  lemma {:induction false} IndexedHolds(entries: seq<Entry>)
    ensures forall p <- Indexed(entries) :: Indexed(entries)[p] in entries && Indexed(entries)[p].path == p
  {
    if entries != [] {
      var rest, last := entries[..|entries| - 1], entries[|entries| - 1];
      IndexedHolds(rest);
      assert entries == rest + [last];
    }
  }

  lemma IndexedAppend(rest: seq<Entry>, last: Entry)
    requires forall i :: 0 <= i < |rest| ==> rest[i].path != last.path
    requires |Indexed(rest)| == |rest| && forall i :: 0 <= i < |rest| ==> Inherits(rest[i], Indexed(rest))
    ensures var m := Indexed(rest)[last.path := last];
      |m| == |rest| + 1 && Inherits(last, m) && forall i :: 0 <= i < |rest| ==> Inherits(rest[i], m)
  {
    IndexedHolds(rest);
    hide Indexed;
    var m := Indexed(rest)[last.path := last];
    assert last.path !in Indexed(rest);
    assert m.Keys == Indexed(rest).Keys + {last.path};
  }

  lemma {:induction false} IndexedLooksUp(entries: seq<Entry>)
    requires UniquePaths(entries)
    ensures |Indexed(entries)| == |entries|
    ensures forall i :: 0 <= i < |entries| ==> Inherits(entries[i], Indexed(entries))
    ensures forall p <- Indexed(entries) :: Indexed(entries)[p] in entries && Indexed(entries)[p].path == p
  {
    IndexedHolds(entries);
    if entries != [] {
      var rest, last := entries[..|entries| - 1], entries[|entries| - 1];
      IndexedLooksUp(rest);
      IndexedAppend(rest, last);
      assert Indexed(entries) == Indexed(rest)[last.path := last];
      hide Indexed, Inherits;
      assert forall i :: 0 <= i < |rest| ==> entries[i] == rest[i];
    }
  }

  lemma UnionSize<T>(a: set<T>, b: set<T>)
    requires a !! b
    ensures |a + b| == |a| + |b|
  {
  }

  /** The three checks, read off the maps. */
  predicate MapsAccept(b: PathMap, t: PathMap, e: PathMap) {
    && (forall p <- b :: p in t && t[p] == b[p])
    && (forall p <- e :: p !in b && p in t && MatchesAllowed(t[p], e[p]))
    && |t| == |b| + |e|
  }

  lemma InheritedOnMaps(entries: seq<Entry>, t: PathMap)
    requires UniquePaths(entries)
    ensures (forall i :: 0 <= i < |entries| ==> Inherits(entries[i], t)) <==>
      forall p <- Indexed(entries) :: p in t && t[p] == Indexed(entries)[p]
  {
    IndexedLooksUp(entries);
    hide Indexed, UniquePaths;
    var m := Indexed(entries);
    if forall i :: 0 <= i < |entries| ==> Inherits(entries[i], t) {
      forall p | p in m
        ensures p in t && t[p] == m[p]
      {
        assert m[p] in entries;
      }
    }
    if forall p <- m :: p in t && t[p] == m[p] {
      forall i | 0 <= i < |entries|
        ensures Inherits(entries[i], t)
      {
        assert Inherits(entries[i], m);
      }
    }
  }

  lemma AddedOnMaps(entries: seq<Entry>, b: PathMap, t: PathMap)
    requires UniquePaths(entries)
    ensures (forall i :: 0 <= i < |entries| ==> Adds(entries[i], b, t)) <==>
      forall p <- Indexed(entries) :: p !in b && p in t && MatchesAllowed(t[p], Indexed(entries)[p])
  {
    IndexedLooksUp(entries);
    hide Indexed, UniquePaths, MatchesAllowed;
    var m := Indexed(entries);
    if forall i :: 0 <= i < |entries| ==> Adds(entries[i], b, t) {
      forall p | p in m
        ensures p !in b && p in t && MatchesAllowed(t[p], m[p])
      {
        assert m[p] in entries;
      }
    }
    if forall p <- m :: p !in b && p in t && MatchesAllowed(t[p], m[p]) {
      forall i | 0 <= i < |entries|
        ensures Adds(entries[i], b, t)
      {
        assert Inherits(entries[i], m);
      }
    }
  }

  lemma AcceptedOnMaps(base: seq<Entry>, target: seq<Entry>, expected: seq<Entry>)
    requires UniquePaths(base) && UniquePaths(target) && UniquePaths(expected)
    ensures Accepts(base, target, expected) <==> MapsAccept(Indexed(base), Indexed(target), Indexed(expected))
  {
    InheritedOnMaps(base, Indexed(target));
    AddedOnMaps(expected, Indexed(base), Indexed(target));
    IndexedLooksUp(base);
    IndexedLooksUp(target);
    IndexedLooksUp(expected);
    hide Indexed, UniquePaths, MatchesAllowed, Inherits, Adds;
  }

  /** Two disjoint sets of paths inside a third of their joint size fill it. */
  lemma PathsFill(b: PathMap, t: PathMap, e: PathMap)
    requires MapsAccept(b, t, e)
    ensures b.Keys !! e.Keys && t.Keys == b.Keys + e.Keys
  {
    hide MatchesAllowed;
    assert b.Keys !! e.Keys;
    UnionSize(b.Keys, e.Keys);
    Arith.SubsetSize(b.Keys + e.Keys, t.Keys);
  }

  /** Every listed entry is the one its path leads to, and nothing else is found by path. */
  lemma LooksUp(entries: seq<Entry>, e: Entry)
    requires UniquePaths(entries)
    ensures e in entries <==> e.path in Indexed(entries) && Indexed(entries)[e.path] == e
  {
    IndexedLooksUp(entries);
    hide Indexed, UniquePaths;
    if e in entries {
      var i :| 0 <= i < |entries| && entries[i] == e;
      assert Inherits(entries[i], Indexed(entries));
    }
  }

  lemma BaseKept(base: seq<Entry>, target: seq<Entry>, x: Entry)
    requires UniquePaths(base) && UniquePaths(target) && x in base
    requires forall p <- Indexed(base) :: p in Indexed(target) && Indexed(target)[p] == Indexed(base)[p]
    ensures x in target && x.path in Indexed(base)
  {
    LooksUp(base, x);
    LooksUp(target, x);
    hide Indexed, UniquePaths;
  }

  lemma AdditionKept(b: PathMap, target: seq<Entry>, expected: seq<Entry>, a: Entry)
    requires UniquePaths(expected) && a in expected
    requires forall p <- Indexed(expected) ::
      p !in b && p in Indexed(target) && MatchesAllowed(Indexed(target)[p], Indexed(expected)[p])
    ensures a.path !in b && exists x :: x in target && Fills(x, a)
  {
    LooksUp(expected, a);
    IndexedHolds(target);
    hide Indexed, UniquePaths, MatchesAllowed, Fills;
    FillsMatches(Indexed(target)[a.path], a);
  }

  lemma TargetKnown(base: seq<Entry>, target: seq<Entry>, expected: seq<Entry>, x: Entry)
    requires UniquePaths(target) && x in target
    requires MapsAccept(Indexed(base), Indexed(target), Indexed(expected))
    ensures x in base || exists a :: a in expected && Fills(x, a)
  {
    PathsFill(Indexed(base), Indexed(target), Indexed(expected));
    LooksUp(target, x);
    IndexedHolds(base);
    IndexedHolds(expected);
    hide Indexed, UniquePaths, MatchesAllowed, Fills;
    if x.path !in Indexed(base) {
      assert x.path in Indexed(target).Keys;
      FillsMatches(x, Indexed(expected)[x.path]);
    }
  }

  lemma MapsAcceptedHold(base: seq<Entry>, target: seq<Entry>, expected: seq<Entry>)
    requires UniquePaths(base) && UniquePaths(target) && UniquePaths(expected)
    requires MapsAccept(Indexed(base), Indexed(target), Indexed(expected))
    ensures BaseWithAdditions(base, target, expected)
  {
    hide Indexed, UniquePaths, Fills, MatchesAllowed;
    forall x | x in base
      ensures x in target && x.path in Indexed(base)
    {
      BaseKept(base, target, x);
    }
    forall a | a in expected
      ensures a.path !in Indexed(base) && exists x :: x in target && Fills(x, a)
    {
      AdditionKept(Indexed(base), target, expected, a);
    }
    forall x | x in target
      ensures x in base || exists a :: a in expected && Fills(x, a)
    {
      TargetKnown(base, target, expected, x);
    }
  }

  ghost predicate HeldAtPaths(b: PathMap, t: PathMap, e: PathMap) {
    && (forall p <- b :: p in t && t[p] == b[p])
    && (forall p <- e :: p !in b && p in t && MatchesAllowed(t[p], e[p]))
    && (forall p <- t :: p in b || p in e)
  }

  lemma HeldIsAccepted(b: PathMap, t: PathMap, e: PathMap)
    requires HeldAtPaths(b, t, e)
    ensures MapsAccept(b, t, e)
  {
    hide MatchesAllowed;
    assert t.Keys == b.Keys + e.Keys;
    UnionSize(b.Keys, e.Keys);
    assert |t| == |t.Keys| && |b| == |b.Keys| && |e| == |e.Keys|;
  }

  lemma FillsMatches(actual: Entry, allowed: Entry)
    ensures MatchesAllowed(actual, allowed) <==> Fills(actual, allowed)
  {
  }

  lemma BaseAtPath(base: seq<Entry>, target: seq<Entry>, p: string)
    requires UniquePaths(base) && UniquePaths(target) && p in Indexed(base)
    requires forall b :: b in base ==> b in target
    ensures p in Indexed(target) && Indexed(target)[p] == Indexed(base)[p]
  {
    IndexedHolds(base);
    LooksUp(target, Indexed(base)[p]);
  }

  lemma AdditionAtPath(base: seq<Entry>, target: seq<Entry>, expected: seq<Entry>, p: string)
    requires UniquePaths(target) && p in Indexed(expected)
    requires forall a :: a in expected ==> exists t :: t in target && Fills(t, a)
    requires forall a, b :: a in expected && b in base ==> a.path != b.path
    ensures p !in Indexed(base) && p in Indexed(target)
    ensures MatchesAllowed(Indexed(target)[p], Indexed(expected)[p])
  {
    IndexedHolds(base);
    IndexedHolds(expected);
    var a := Indexed(expected)[p];
    hide Indexed, UniquePaths;
    var x :| x in target && Fills(x, a);
    LooksUp(target, x);
    FillsMatches(x, a);
    if p in Indexed(base) {
      assert false;
    }
  }

  lemma TargetAtPath(base: seq<Entry>, target: seq<Entry>, expected: seq<Entry>, p: string)
    requires UniquePaths(base) && UniquePaths(expected) && p in Indexed(target)
    requires forall t :: t in target ==> t in base || exists a :: a in expected && Fills(t, a)
    ensures p in Indexed(base) || p in Indexed(expected)
  {
    IndexedHolds(target);
    var t := Indexed(target)[p];
    hide Indexed, UniquePaths;
    if t in base {
      LooksUp(base, t);
    } else {
      var a :| a in expected && Fills(t, a);
      LooksUp(expected, a);
    }
  }

  lemma HoldsOnMaps(base: seq<Entry>, target: seq<Entry>, expected: seq<Entry>)
    requires UniquePaths(base) && UniquePaths(target) && UniquePaths(expected)
    requires BaseWithAdditions(base, target, expected)
    ensures HeldAtPaths(Indexed(base), Indexed(target), Indexed(expected))
  {
    hide Indexed, UniquePaths, Fills, MatchesAllowed;
    forall p | p in Indexed(base)
      ensures p in Indexed(target) && Indexed(target)[p] == Indexed(base)[p]
    {
      BaseAtPath(base, target, p);
    }
    forall p | p in Indexed(expected)
      ensures p !in Indexed(base) && p in Indexed(target)
      ensures MatchesAllowed(Indexed(target)[p], Indexed(expected)[p])
    {
      AdditionAtPath(base, target, expected, p);
    }
    forall p | p in Indexed(target)
      ensures p in Indexed(base) || p in Indexed(expected)
    {
      TargetAtPath(base, target, expected, p);
    }
  }

  /** For lists without repeated paths, the three checks accept exactly the base with the allowed additions. */
  lemma AcceptanceIsExact(base: seq<Entry>, target: seq<Entry>, expected: seq<Entry>)
    requires UniquePaths(base) && UniquePaths(target) && UniquePaths(expected)
    ensures Accepts(base, target, expected) <==> BaseWithAdditions(base, target, expected)
  {
    AcceptedOnMaps(base, target, expected);
    hide Accepts, MapsAccept, HeldAtPaths, BaseWithAdditions, UniquePaths, Indexed;
    if MapsAccept(Indexed(base), Indexed(target), Indexed(expected)) { MapsAcceptedHold(base, target, expected); }
    if BaseWithAdditions(base, target, expected) {
      HoldsOnMaps(base, target, expected);
      HeldIsAccepted(Indexed(base), Indexed(target), Indexed(expected));
    }
  }

  /** The counting argument rests on unique paths: a repeated base entry lets an addition through. */
  lemma RepeatedPathsDeceive(x: Entry, y: Entry)
    requires x.path != y.path
    ensures Accepts([x, x], [x, y], []) && !BaseWithAdditions([x, x], [x, y], [])
  {
    assert [x, x][..1] == [x] && [x, y][..1] == [x] && [x][..0] == [];
    assert Indexed([x]) == map[x.path := x];
    assert Indexed([x, x]) == map[x.path := x];
    assert Indexed([x, y]) == map[x.path := x, y.path := y];
    assert [x, y][1] == y && y in [x, y] && y !in [x, x];
  }

  // ----- the three files

  lemma ListedIsUnique(entries: seq<Entry>, wildcard: bool)
    requires Listed(entries, wildcard)
    ensures UniquePaths(entries)
  {
    hide Fits;
    forall i, j | 0 <= i < j < |entries|
      ensures entries[i].path != entries[j].path
    {
      OrderedPaths(entries, wildcard, i, j);
      BeforeIrreflexive(entries[i].path);
    }
  }

  /** Parsing makes paths unique, so on files acceptance needs no further condition. */
  method VerifyFiles(baseText: string, targetText: string, expectedText: string) returns (ok: bool)
    ensures ok <==>
      && Parse(baseText, false).Ok? && Parse(targetText, false).Ok? && Parse(expectedText, true).Ok?
      && BaseWithAdditions(Parse(baseText, false).value, Parse(targetText, false).value,
                           Parse(expectedText, true).value)
  {
    hide Accepts, BaseWithAdditions, UniquePaths, Indexed, Listed, ParseFrom;
    var base := ParseManifest(baseText, false);
    if base.Err? {
      return false;
    }
    var target := ParseManifest(targetText, false);
    if target.Err? {
      return false;
    }
    var expected := ParseManifest(expectedText, true);
    if expected.Err? {
      return false;
    }
    ok := VerifyEntries(base.value, target.value, expected.value);
    ParsedIsUnique(baseText, false);
    ParsedIsUnique(targetText, false);
    ParsedIsUnique(expectedText, true);
    AcceptanceIsExact(base.value, target.value, expected.value);
  }

  lemma ParsedIsUnique(text: string, wildcard: bool)
    ensures Parse(text, wildcard).Ok? ==> UniquePaths(Parse(text, wildcard).value)
  {
    ParsedIsListed(text, "", [], wildcard);
    if Parse(text, wildcard).Ok? { ListedIsUnique(Parse(text, wildcard).value, wildcard); }
  }
}
