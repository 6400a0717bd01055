/** Nearest-site search over a caller-supplied candidate list (backend/utils/distance.js).
    The candidates are generic: `loc` says where each one lies. */
module Nearest {
  import opened Wrappers
  import opened Geo

  /** A candidate with its distance from the search point rounded to two
      decimals: the `{ ...camp, distance }` object the search returns. */
  datatype Ranked<T> = Ranked(item: T, distance: real)

  /** Position `k` holds a nearest candidate and no earlier candidate is as near. */
  predicate IsFirstNearest<T>(p: Coordinate, camps: seq<T>, loc: T -> Coordinate, dist: Distance, k: nat) {
    && k < |camps|
    && (forall j :: 0 <= j < |camps| ==> dist(p, loc(camps[k])) <= dist(p, loc(camps[j])))
    && (forall j :: 0 <= j < k ==> dist(p, loc(camps[k])) < dist(p, loc(camps[j])))
  }

  /** At most one position is the first nearest one. */
  lemma FirstNearestUnique<T>(p: Coordinate, camps: seq<T>, loc: T -> Coordinate, dist: Distance, k1: nat, k2: nat)
    requires IsFirstNearest(p, camps, loc, dist, k1)
    requires IsFirstNearest(p, camps, loc, dist, k2)
    ensures k1 == k2
  {
    var d1 := dist(p, loc(camps[k1]));
    var d2 := dist(p, loc(camps[k2]));
    assert d1 <= d2 && d2 <= d1;
    assert k1 < k2 ==> d2 < d1;
    assert k2 < k1 ==> d1 < d2;
  }

  /** Dropping a head that is strictly farther keeps the first nearest position, shifted. */
  lemma FirstNearestTail<T>(p: Coordinate, camps: seq<T>, loc: T -> Coordinate, dist: Distance, k: nat)
    requires 0 < k && IsFirstNearest(p, camps, loc, dist, k)
    ensures IsFirstNearest(p, camps[1..], loc, dist, k - 1)
    ensures dist(p, loc(camps[k])) < dist(p, loc(camps[0]))
  {
  }

  /** The arg-min the `forEach` of `findNearestCamp` computes: scanning left to
      right, a candidate replaces the current best only when strictly nearer. */
  function NearestIndex<T>(p: Coordinate, camps: seq<T>, loc: T -> Coordinate, dist: Distance): (k: nat)
    requires |camps| > 0
    ensures IsFirstNearest(p, camps, loc, dist, k)
    decreases |camps|
  {
    if |camps| == 1 then 0
    else
      var k := NearestIndex(p, camps[..|camps| - 1], loc, dist);
      if dist(p, loc(camps[|camps| - 1])) < dist(p, loc(camps[k])) then |camps| - 1 else k
  }

  /** `findNearestCamp`: `null` for no candidates, otherwise the first nearest
      candidate carrying its rounded distance. */
  function FindNearest<T>(p: Coordinate, camps: seq<T>, loc: T -> Coordinate, dist: Distance, round: Rounding)
    : (r: Option<Ranked<T>>)
    ensures r.None? <==> |camps| == 0
    ensures r.Some? ==> exists k: nat :: IsFirstNearest(p, camps, loc, dist, k) && r.value.item == camps[k]
    ensures r.Some? ==> r.value.distance == round(dist(p, loc(r.value.item)))
  {
    if |camps| == 0 then None
    else
      var k := NearestIndex(p, camps, loc, dist);
      Some(Ranked(camps[k], round(dist(p, loc(camps[k])))))
  }

  /** One more step of the scan. */
  lemma NearestIndexStep<T>(p: Coordinate, camps: seq<T>, loc: T -> Coordinate, dist: Distance, i: nat)
    requires 0 < i < |camps|
    ensures var k := NearestIndex(p, camps[..i], loc, dist);
            NearestIndex(p, camps[..i + 1], loc, dist) ==
              if dist(p, loc(camps[i])) < dist(p, loc(camps[k])) then i else k
  {
    assert camps[..i + 1][..i] == camps[..i];
  }

  /** `findNearestCamp` as the source writes it: a scan that keeps the least
      distance seen so far, starting from infinity (here: no distance yet). */
  method FindNearestCamp<T>(p: Coordinate, camps: seq<T>, loc: T -> Coordinate, dist: Distance, round: Rounding)
    returns (nearest: Option<Ranked<T>>)
    ensures nearest.None? <==> |camps| == 0
    ensures nearest.Some? ==> exists k: nat :: IsFirstNearest(p, camps, loc, dist, k) && nearest.value.item == camps[k]
    ensures nearest == FindNearest(p, camps, loc, dist, round)
  {
    if |camps| == 0 {
      return None;
    }
    nearest := None;
    var minDistance: Option<real> := None;
    ghost var best: nat := 0;
    var i := 0;
    while i < |camps|
      invariant 0 <= i <= |camps|
      invariant i == 0 <==> minDistance.None?
      invariant i == 0 ==> nearest.None?
      invariant i > 0 ==> best == NearestIndex(p, camps[..i], loc, dist)
      invariant i > 0 ==> minDistance == Some(dist(p, loc(camps[best])))
      invariant i > 0 ==> nearest == Some(Ranked(camps[best], round(dist(p, loc(camps[best])))))
    {
      var d := dist(p, loc(camps[i]));
      if i > 0 {
        NearestIndexStep(p, camps, loc, dist, i);
      }
      if minDistance.None? || d < minDistance.value {
        minDistance := Some(d);
        nearest := Some(Ranked(camps[i], round(d)));
        best := i;
      }
      i := i + 1;
    }
    assert camps[..|camps|] == camps;
    assert IsFirstNearest(p, camps, loc, dist, best);
  }

  /** `isWithinRadius`: the distance does not exceed the radius (inclusive). */
  function IsWithinRadius(a: Coordinate, b: Coordinate, radius: real, dist: Distance): (within: bool)
    ensures within <==> dist(a, b) <= radius
  {
    dist(a, b) <= radius
  }

  /** If any candidate lies within the radius, the nearest one does. */
  lemma NearestWithinRadius<T>(p: Coordinate, camps: seq<T>, loc: T -> Coordinate, dist: Distance,
                               round: Rounding, radius: real, j: nat)
    requires j < |camps| && IsWithinRadius(p, loc(camps[j]), radius, dist)
    ensures FindNearest(p, camps, loc, dist, round).Some?
    ensures IsWithinRadius(p, loc(FindNearest(p, camps, loc, dist, round).value.item), radius, dist)
  {
    var r := FindNearest(p, camps, loc, dist, round);
    var k: nat :| IsFirstNearest(p, camps, loc, dist, k) && r.value.item == camps[k];
    assert dist(p, loc(camps[k])) <= dist(p, loc(camps[j]));
  }

  // ---- findNearestCamps: annotate, stable sort by rounded distance, take a prefix

  /** `camps.map(camp => ({ ...camp, distance: round(distance) }))`. */
  function Annotate<T>(p: Coordinate, camps: seq<T>, loc: T -> Coordinate, dist: Distance, round: Rounding)
    : (r: seq<Ranked<T>>)
    ensures |r| == |camps|
    ensures forall i :: 0 <= i < |r| ==> r[i] == Ranked(camps[i], round(dist(p, loc(camps[i]))))
  {
    seq(|camps|, i requires 0 <= i < |camps| => Ranked(camps[i], round(dist(p, loc(camps[i])))))
  }

  predicate SortedByDistance<T>(s: seq<Ranked<T>>) {
    forall i, j :: 0 <= i < j < |s| ==> s[i].distance <= s[j].distance
  }

  /** The entries of `s` whose distance is exactly `d`, in their order in `s`. */
  function WithDistance<T>(s: seq<Ranked<T>>, d: real): seq<Ranked<T>> {
    if s == [] then [] else Tie(s[0], d) + WithDistance(s[1..], d)
  }

  function Tie<T>(e: Ranked<T>, d: real): seq<Ranked<T>> {
    if e.distance == d then [e] else []
  }

  lemma WithDistanceCons<T>(e: Ranked<T>, s: seq<Ranked<T>>, d: real)
    ensures WithDistance([e] + s, d) == Tie(e, d) + WithDistance(s, d)
  {
    assert ([e] + s)[1..] == s;
  }

  lemma {:induction false} WithDistanceConcat<T>(a: seq<Ranked<T>>, b: seq<Ranked<T>>, d: real)
    ensures WithDistance(a + b, d) == WithDistance(a, d) + WithDistance(b, d)
  {
    if a != [] {
      assert (a + b)[1..] == a[1..] + b;
      WithDistanceConcat(a[1..], b, d);
    } else {
      assert a + b == b;
    }
  }

  /** A sorted sequence stays sorted under a head no farther than any of its entries. */
  lemma SortedCons<T>(e: Ranked<T>, s: seq<Ranked<T>>)
    requires SortedByDistance(s)
    requires forall k :: 0 <= k < |s| ==> e.distance <= s[k].distance
    ensures SortedByDistance([e] + s)
  {
    var r := [e] + s;
    forall i, j | 0 <= i < j < |r| ensures r[i].distance <= r[j].distance {
      if i > 0 {
        assert r[i] == s[i - 1] && r[j] == s[j - 1];
      }
    }
  }

  /** Insertion that puts `x` before every entry at least as far: since `x`
      precedes the entries of `s` in the input, ties keep their input order. */
  function Insert<T>(x: Ranked<T>, s: seq<Ranked<T>>): (r: seq<Ranked<T>>)
    requires SortedByDistance(s)
    ensures |r| == |s| + 1
    ensures SortedByDistance(r)
    ensures multiset(r) == multiset([x] + s)
    ensures forall k :: 0 <= k < |r| ==> r[k] == x || r[k] in s
  {
    if s == [] || x.distance <= s[0].distance then
      SortedCons(x, s);
      [x] + s
    else
      var rest := Insert(x, s[1..]);
      assert forall k :: 0 <= k < |rest| ==> s[0].distance <= rest[k].distance by {
        forall k | 0 <= k < |rest| ensures s[0].distance <= rest[k].distance {
          if rest[k] != x {
            var j :| 0 <= j < |s[1..]| && s[1..][j] == rest[k];
            assert s[j + 1] == rest[k];
          }
        }
      }
      SortedCons(s[0], rest);
      InsertBagStep(x, s, rest);
      var r := [s[0]] + rest;
      assert forall k :: 0 < k < |r| ==> r[k] == rest[k - 1];
      r
  }

  lemma InsertBagStep<T>(x: Ranked<T>, s: seq<Ranked<T>>, rest: seq<Ranked<T>>)
    requires s != [] && multiset(rest) == multiset([x] + s[1..])
    ensures multiset([s[0]] + rest) == multiset([x] + s)
  {
    calc {
      multiset([s[0]] + rest);
      multiset([s[0]]) + multiset(rest);
      multiset([s[0]]) + multiset([x]) + multiset(s[1..]);
      multiset([x]) + (multiset([s[0]]) + multiset(s[1..]));
      { assert s == [s[0]] + s[1..]; }
      multiset([x]) + multiset(s);
      multiset([x] + s);
    }
  }

  lemma {:induction false} InsertKeepsTieOrder<T>(x: Ranked<T>, s: seq<Ranked<T>>, d: real)
    requires SortedByDistance(s)
    ensures WithDistance(Insert(x, s), d) == WithDistance([x] + s, d)
  {
    if s != [] && s[0].distance < x.distance {
      var rest := Insert(x, s[1..]);
      var tail := WithDistance(s[1..], d);
      calc {
        WithDistance(Insert(x, s), d);
        WithDistance([s[0]] + rest, d);
        { WithDistanceCons(s[0], rest, d); }
        Tie(s[0], d) + WithDistance(rest, d);
        { InsertKeepsTieOrder(x, s[1..], d); }
        Tie(s[0], d) + WithDistance([x] + s[1..], d);
        { WithDistanceCons(x, s[1..], d); }
        Tie(s[0], d) + (Tie(x, d) + tail);
        { TiesCommute(s[0], x, d, tail); }
        Tie(x, d) + (Tie(s[0], d) + tail);
        { WithDistanceCons(s[0], s[1..], d); assert [s[0]] + s[1..] == s; }
        Tie(x, d) + WithDistance(s, d);
        { WithDistanceCons(x, s, d); }
        WithDistance([x] + s, d);
      }
    }
  }

  /** Entries at different distances never both match one distance. */
  lemma TiesCommute<T>(a: Ranked<T>, b: Ranked<T>, d: real, tail: seq<Ranked<T>>)
    requires a.distance != b.distance
    ensures Tie(a, d) + (Tie(b, d) + tail) == Tie(b, d) + (Tie(a, d) + tail)
  {
    if a.distance == d {
      assert Tie(b, d) == [];
    } else {
      assert Tie(a, d) == [];
    }
  }

  /** The stable sort of `campsWithDistance.sort((a, b) => a.distance - b.distance)`. */
  function SortByDistance<T>(s: seq<Ranked<T>>): (r: seq<Ranked<T>>)
    ensures |r| == |s|
    ensures SortedByDistance(r)
    ensures multiset(r) == multiset(s)
  {
    if s == [] then []
    else
      assert s == [s[0]] + s[1..];
      Insert(s[0], SortByDistance(s[1..]))
  }

  /** Stability: entries with equal distance come out in their input order. */
  lemma {:induction false} SortKeepsTieOrder<T>(s: seq<Ranked<T>>, d: real)
    ensures WithDistance(SortByDistance(s), d) == WithDistance(s, d)
  {
    if s != [] {
      var sorted := SortByDistance(s[1..]);
      SortKeepsTieOrder(s[1..], d);
      InsertKeepsTieOrder(s[0], sorted, d);
      WithDistanceCons(s[0], sorted, d);
      WithDistanceCons(s[0], s[1..], d);
      assert s == [s[0]] + s[1..];
    }
  }

  /** The entries of a prefix with a given distance are a prefix of those of the whole. */
  lemma {:induction false} WithDistancePrefix<T>(s: seq<Ranked<T>>, n: nat, d: real)
    requires n <= |s|
    ensures WithDistance(s[..n], d) <= WithDistance(s, d)
  {
    assert s == s[..n] + s[n..];
    WithDistanceConcat(s[..n], s[n..], d);
  }

  /** Whatever a sorted permutation of `all` leaves beyond position `n` is at
      least as far as what it keeps. */
  lemma SortedSplit<T>(all: seq<Ranked<T>>, sorted: seq<Ranked<T>>, n: nat)
    requires SortedByDistance(sorted) && multiset(sorted) == multiset(all) && n <= |sorted|
    ensures multiset(sorted[..n]) <= multiset(all)
    ensures forall e, i :: e in all && e !in sorted[..n] && 0 <= i < n ==> sorted[i].distance <= e.distance
  {
    assert sorted == sorted[..n] + sorted[n..];
    forall e, i | e in all && e !in sorted[..n] && 0 <= i < n
      ensures sorted[i].distance <= e.distance
    {
      assert e in multiset(all);
      assert e in sorted;
      var j :| 0 <= j < |sorted| && sorted[j] == e;
      assert j >= n;
    }
  }

  /** `findNearestCamps`: the first `count` entries of the stable sort. */
  function FindNearestCamps<T>(p: Coordinate, camps: seq<T>, loc: T -> Coordinate, dist: Distance,
                               round: Rounding, count: nat): (r: seq<Ranked<T>>)
    ensures |r| == if count < |camps| then count else |camps|
    ensures SortedByDistance(r)
    ensures forall i :: 0 <= i < |r| ==> r[i].item in camps && r[i].distance == round(dist(p, loc(r[i].item)))
    ensures multiset(r) <= multiset(Annotate(p, camps, loc, dist, round))
    ensures forall e, i :: e in Annotate(p, camps, loc, dist, round) && e !in r && 0 <= i < |r|
              ==> r[i].distance <= e.distance
    ensures forall d :: WithDistance(r, d) <= WithDistance(Annotate(p, camps, loc, dist, round), d)
  {
    if |camps| == 0 then []
    else
      var n := if count < |camps| then count else |camps|;
      NearestPrefix(p, camps, loc, dist, round, n);
      SortByDistance(Annotate(p, camps, loc, dist, round))[..n]
  }

  /** What the first `n` entries of the stable sort of the annotated camps satisfy. */
  lemma NearestPrefix<T>(p: Coordinate, camps: seq<T>, loc: T -> Coordinate, dist: Distance,
                         round: Rounding, n: nat)
    requires n <= |camps|
    ensures var all := Annotate(p, camps, loc, dist, round);
            var r := SortByDistance(all)[..n];
            && SortedByDistance(r)
            && (forall i :: 0 <= i < |r| ==> r[i].item in camps && r[i].distance == round(dist(p, loc(r[i].item))))
            && multiset(r) <= multiset(all)
            && (forall e, i :: e in all && e !in r && 0 <= i < |r| ==> r[i].distance <= e.distance)
            && (forall d :: WithDistance(r, d) <= WithDistance(all, d))
  {
    var all := Annotate(p, camps, loc, dist, round);
    var sorted := SortByDistance(all);
    assert SortedByDistance(sorted[..n]);
    SortedSplit(all, sorted, n);
    AnnotatedEntries(p, camps, loc, dist, round, sorted[..n]);
    TiesOfPrefix(all, n);
  }

  lemma AnnotatedEntries<T>(p: Coordinate, camps: seq<T>, loc: T -> Coordinate, dist: Distance,
                            round: Rounding, r: seq<Ranked<T>>)
    requires multiset(r) <= multiset(Annotate(p, camps, loc, dist, round))
    ensures forall i :: 0 <= i < |r| ==> r[i].item in camps && r[i].distance == round(dist(p, loc(r[i].item)))
  {
    var all := Annotate(p, camps, loc, dist, round);
    forall i | 0 <= i < |r|
      ensures r[i].item in camps && r[i].distance == round(dist(p, loc(r[i].item)))
    {
      assert r[i] in multiset(r);
      assert r[i] in all;
      var j :| 0 <= j < |all| && all[j] == r[i];
    }
  }

  lemma TiesOfPrefix<T>(all: seq<Ranked<T>>, n: nat)
    requires n <= |all|
    ensures forall d :: WithDistance(SortByDistance(all)[..n], d) <= WithDistance(all, d)
  {
    forall d ensures WithDistance(SortByDistance(all)[..n], d) <= WithDistance(all, d) {
      WithDistancePrefix(SortByDistance(all), n, d);
      SortKeepsTieOrder(all, d);
    }
  }
}
