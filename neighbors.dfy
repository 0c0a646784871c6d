/**
 * getNearestNeighbors: brute-force k nearest stars. The squared distance from
 * the target to every other star is collected in index order, the list is
 * sorted in place by a stable sort on distance, and the first k are kept.
 */
module Neighbors {

  /** One entry of the distances list: a star and its squared distance to the target. */
  datatype Neighbor = Neighbor(id: nat, distSq: real)

  function Min(a: nat, b: nat): nat {
    if a <= b then a else b
  }

  /** Squared Euclidean distance between stars `t` and `i` of a flat x, y, z position buffer. */
  function DistSq(pos: seq<real>, t: nat, i: nat): real
    requires 3 * t + 2 < |pos| && 3 * i + 2 < |pos|
  {
    var dx, dy, dz := pos[3 * i] - pos[3 * t], pos[3 * i + 1] - pos[3 * t + 1], pos[3 * i + 2] - pos[3 * t + 2];
    dx * dx + dy * dy + dz * dz
  }

  /** A squared distance is never negative, is the same both ways, and is 0 from a star to itself. */
  lemma DistSqProperties(pos: seq<real>, t: nat, i: nat)
    requires 3 * t + 2 < |pos| && 3 * i + 2 < |pos|
    ensures DistSq(pos, t, i) >= 0.0
    ensures DistSq(pos, t, i) == DistSq(pos, i, t)
    ensures DistSq(pos, t, t) == 0.0
  {
    var dx, dy, dz := pos[3 * i] - pos[3 * t], pos[3 * i + 1] - pos[3 * t + 1], pos[3 * i + 2] - pos[3 * t + 2];
    assert dx * dx >= 0.0 && dy * dy >= 0.0 && dz * dz >= 0.0;
    assert (-dx) * (-dx) == dx * dx && (-dy) * (-dy) == dy * dy && (-dz) * (-dz) == dz * dz;
  }

  /** The star at position `p` of the distances list: the target's own index is skipped. */
  function OtherId(p: nat, t: nat): nat {
    if p < t then p else p + 1
  }

  /** The distances list after the collecting loop has looked at stars 0 .. i-1. */
  function DistancesUpTo(pos: seq<real>, n: nat, t: nat, i: nat): (d: seq<Neighbor>)
    requires |pos| == 3 * n && t < n && i <= n
    ensures |d| == if t < i then i - 1 else i
    ensures forall p :: 0 <= p < |d| ==> d[p] == Neighbor(OtherId(p, t), DistSq(pos, t, OtherId(p, t)))
  {
    if i == 0 then []
    else if i - 1 == t then DistancesUpTo(pos, n, t, i - 1)
    else DistancesUpTo(pos, n, t, i - 1) + [Neighbor(i - 1, DistSq(pos, t, i - 1))]
  }

  /** Every star other than the target, with its squared distance, in index order. */
  function Distances(pos: seq<real>, n: nat, t: nat): (d: seq<Neighbor>)
    requires |pos| == 3 * n && t < n
    ensures |d| == n - 1
  {
    DistancesUpTo(pos, n, t, n)
  }

  /** Star `j` (not the target) sits at a known position of the distances list. */
  lemma DistancesHas(pos: seq<real>, n: nat, t: nat, j: nat)
    requires |pos| == 3 * n && t < n
    requires j < n && j != t
    ensures |Distances(pos, n, t)| == n - 1
    ensures var p := if j < t then j else j - 1;
      p < n - 1 && Distances(pos, n, t)[p] == Neighbor(j, DistSq(pos, t, j))
  {
  }

  /** Strictly closer, or as close and of smaller index: the order a stable sort on distance leaves here. */
  predicate Before(a: Neighbor, b: Neighbor) {
    a.distSq < b.distSq || (a.distSq == b.distSq && a.id < b.id)
  }

  predicate StrictlySorted(s: seq<Neighbor>) {
    forall p, q :: 0 <= p < q < |s| ==> Before(s[p], s[q])
  }

  predicate IdsIncreasing(s: seq<Neighbor>) {
    forall p, q :: 0 <= p < q < |s| ==> s[p].id < s[q].id
  }

  /** Inserts `x` ahead of the first entry that is not strictly closer, so `x` stays ahead of its ties. */
  function Insert(x: Neighbor, s: seq<Neighbor>): (r: seq<Neighbor>)
    ensures multiset(r) == multiset(s) + multiset{x}
  {
    if s == [] || x.distSq <= s[0].distSq then [x] + s
    else
      assert s == [s[0]] + s[1..];
      [s[0]] + Insert(x, s[1..])
  }

  /** Stable insertion sort ascending by distance: the reference for Array.prototype.sort. */
  function SortByDist(s: seq<Neighbor>): (r: seq<Neighbor>)
    ensures multiset(r) == multiset(s)
  {
    if s == [] then []
    else
      assert s == [s[0]] + s[1..];
      Insert(s[0], SortByDist(s[1..]))
  }

  /** Every entry of `Insert(x, s)` is `x` or an entry of `s`. */
  lemma InsertFrom(x: Neighbor, s: seq<Neighbor>, y: Neighbor)
    requires y in Insert(x, s)
    ensures y == x || y in s
  {
    assert y in multiset(Insert(x, s));
  }

  /** In a strictly sorted list the head comes before every later entry. */
  lemma HeadBeforeTail(s: seq<Neighbor>, y: Neighbor)
    requires StrictlySorted(s) && s != [] && y in s[1..]
    ensures Before(s[0], y)
  {
    var m :| 0 <= m < |s[1..]| && s[1..][m] == y;
    assert s[m + 1] == y;
  }

  lemma {:induction false} InsertStrictlySorted(x: Neighbor, s: seq<Neighbor>)
    requires StrictlySorted(s)
    requires forall q :: 0 <= q < |s| ==> x.id < s[q].id
    ensures StrictlySorted(Insert(x, s))
  {
    if s == [] || x.distSq <= s[0].distSq {
      var r := [x] + s;
      forall p, q | 0 <= p < q < |r| ensures Before(r[p], r[q]) {
        if p == 0 {
          assert r[q] == s[q - 1];
          assert q - 1 > 0 ==> Before(s[0], s[q - 1]);
        }
      }
    } else {
      var tail := Insert(x, s[1..]);
      InsertStrictlySorted(x, s[1..]);
      var r := [s[0]] + tail;
      forall q | 0 <= q < |tail| ensures Before(s[0], tail[q]) {
        InsertFrom(x, s[1..], tail[q]);
        if tail[q] != x {
          HeadBeforeTail(s, tail[q]);
        }
      }
      forall p, q | 0 <= p < q < |r| ensures Before(r[p], r[q]) {
        if p == 0 {
          assert r[q] == tail[q - 1];
        } else {
          assert r[p] == tail[p - 1] && r[q] == tail[q - 1];
        }
      }
    }
  }

  /** A list in increasing index order sorts to a strictly ordered list: ties stay in index order. */
  lemma {:induction false} SortByDistStrictlySorted(s: seq<Neighbor>)
    requires IdsIncreasing(s)
    ensures StrictlySorted(SortByDist(s))
  {
    if s != [] {
      var sorted := SortByDist(s[1..]);
      SortByDistStrictlySorted(s[1..]);
      forall q | 0 <= q < |sorted| ensures s[0].id < sorted[q].id {
        assert sorted[q] in multiset(sorted);
        assert sorted[q] in s[1..];
        var m :| 0 <= m < |s[1..]| && s[1..][m] == sorted[q];
        assert s[m + 1] == sorted[q];
      }
      InsertStrictlySorted(s[0], sorted);
    }
  }

  /** The head of a strictly ordered list comes before every other entry of it. */
  lemma HeadFirst(a: seq<Neighbor>, x: Neighbor)
    requires StrictlySorted(a) && x in multiset(a)
    ensures x == a[0] || Before(a[0], x)
  {
    var m :| 0 <= m < |a| && a[m] == x;
  }

  lemma TailMultiset(a: seq<Neighbor>)
    requires a != []
    ensures multiset(a[1..]) == multiset(a) - multiset{a[0]}
  {
    assert a == [a[0]] + a[1..];
  }

  /** Two strictly ordered lists with the same entries are equal. */
  lemma {:induction false} StrictlySortedUnique(a: seq<Neighbor>, b: seq<Neighbor>)
    requires StrictlySorted(a) && StrictlySorted(b)
    requires multiset(a) == multiset(b)
    ensures a == b
  {
    assert |a| == |multiset(a)| == |multiset(b)| == |b|;
    if a != [] {
      assert a[0] in multiset(b) && b[0] in multiset(a);
      HeadFirst(b, a[0]);
      HeadFirst(a, b[0]);
      assert a[0] == b[0];
      TailMultiset(a);
      TailMultiset(b);
      StrictlySortedUnique(a[1..], b[1..]);
    }
  }

  /** The stable sort of the distances, cut to the first k: what getNearestNeighbors returns. */
  function Nearest(pos: seq<real>, n: nat, t: nat, k: nat): (r: seq<Neighbor>)
    requires |pos| == 3 * n && t < n
    ensures |r| <= k
  {
    var s := SortByDist(Distances(pos, n, t));
    s[..Min(k, |s|)]
  }

  /** Every entry of the sorted list is another star with its true squared distance. */
  lemma SortedEntries(pos: seq<real>, n: nat, t: nat)
    requires |pos| == 3 * n && t < n
    ensures |SortByDist(Distances(pos, n, t))| == n - 1
    ensures var s := SortByDist(Distances(pos, n, t));
      forall m :: 0 <= m < |s| ==> s[m].id < n && s[m].id != t && s[m].distSq == DistSq(pos, t, s[m].id)
  {
    var d := Distances(pos, n, t);
    var s := SortByDist(d);
    assert |s| == |multiset(s)| == |multiset(d)| == |d|;
    forall m | 0 <= m < |s|
      ensures s[m].id < n && s[m].id != t && s[m].distSq == DistSq(pos, t, s[m].id)
    {
      assert s[m] in multiset(d);
      DistanceEntry(pos, n, t, s[m]);
    }
  }

  /** Any entry of the distances list is another star with its true squared distance. */
  lemma DistanceEntry(pos: seq<real>, n: nat, t: nat, x: Neighbor)
    requires |pos| == 3 * n && t < n
    requires x in Distances(pos, n, t)
    ensures x.id < n && x.id != t && x.distSq == DistSq(pos, t, x.id)
  {
    var d := Distances(pos, n, t);
    var p :| 0 <= p < |d| && d[p] == x;
  }

  /** The result's entries: min(k, n-1) of them, each another star with its true squared distance. */
  lemma NearestEntries(pos: seq<real>, n: nat, t: nat, k: nat)
    requires |pos| == 3 * n && t < n
    ensures var r := Nearest(pos, n, t, k);
      && |r| == Min(k, n - 1)
      && (forall p :: 0 <= p < |r| ==> r[p].id < n && r[p].id != t && r[p].distSq == DistSq(pos, t, r[p].id))
  {
    var s := SortByDist(Distances(pos, n, t));
    var r := Nearest(pos, n, t, k);
    SortedEntries(pos, n, t);
    assert forall p :: 0 <= p < |r| ==> r[p] == s[p];
  }

  /** The result is in stable-sort order: closest first, ties by index. */
  lemma NearestSorted(pos: seq<real>, n: nat, t: nat, k: nat)
    requires |pos| == 3 * n && t < n
    ensures StrictlySorted(Nearest(pos, n, t, k))
  {
    var d := Distances(pos, n, t);
    var s := SortByDist(d);
    var r := Nearest(pos, n, t, k);
    SortByDistStrictlySorted(d);
    assert forall p :: 0 <= p < |r| ==> r[p] == s[p];
  }

  /**
   * The k nearest: min(k, n-1) other stars, each once, closest first (ties by
   * index), and no star left out is closer than any star kept.
   */
  lemma NearestProperties(pos: seq<real>, n: nat, t: nat, k: nat)
    requires |pos| == 3 * n && t < n
    ensures var r := Nearest(pos, n, t, k);
      && |r| == Min(k, n - 1)
      && (forall p :: 0 <= p < |r| ==> r[p].id < n && r[p].id != t && r[p].distSq == DistSq(pos, t, r[p].id))
      && StrictlySorted(r)
      && (forall p, q :: 0 <= p < q < |r| ==> r[p].id != r[q].id && r[p].distSq <= r[q].distSq)
  {
    NearestEntries(pos, n, t, k);
    NearestSorted(pos, n, t, k);
  }

  /** Every other star has a place in the sorted list, with its true squared distance. */
  lemma SortedPosition(pos: seq<real>, n: nat, t: nat, j: nat) returns (m: nat)
    requires |pos| == 3 * n && t < n
    requires j < n && j != t
    ensures m < |SortByDist(Distances(pos, n, t))| == n - 1
    ensures SortByDist(Distances(pos, n, t))[m] == Neighbor(j, DistSq(pos, t, j))
  {
    var d := Distances(pos, n, t);
    var s := SortByDist(d);
    SortedEntries(pos, n, t);
    DistancesHas(pos, n, t, j);
    var pj := if j < t then j else j - 1;
    assert d[pj] in multiset(s);
    m :| 0 <= m < |s| && s[m] == d[pj];
  }

  /** A star missing from the result is at least as far as every star in it; with k >= n-1 none is missing. */
  lemma NearestOmitted(pos: seq<real>, n: nat, t: nat, k: nat, j: nat)
    requires |pos| == 3 * n && t < n
    requires j < n && j != t
    ensures var r := Nearest(pos, n, t, k);
      (forall q :: 0 <= q < |r| ==> r[q].id != j) ==>
        k < n - 1 && forall p :: 0 <= p < |r| ==> r[p].distSq <= DistSq(pos, t, j)
  {
    var d := Distances(pos, n, t);
    var s := SortByDist(d);
    var r := Nearest(pos, n, t, k);
    var m := SortedPosition(pos, n, t, j);
    if m < |r| {
      assert r[m].id == j;
    } else {
      SortByDistStrictlySorted(d);
      forall p | 0 <= p < |r| ensures r[p].distSq <= DistSq(pos, t, j) {
        assert Before(s[p], s[m]);
      }
    }
  }

  /** Exchanges a[j - 1] and a[j]. */
  method SwapDown(a: array<Neighbor>, j: nat)
    requires 0 < j < a.Length
    modifies a
    ensures a[j - 1] == old(a[j]) && a[j] == old(a[j - 1])
    ensures forall m :: 0 <= m < a.Length && m != j - 1 && m != j ==> a[m] == old(a[m])
    ensures multiset(a[..]) == old(multiset(a[..]))
  {
    a[j - 1], a[j] := a[j], a[j - 1];
  }

  /**
   * Inserts a[i] into the ordered prefix a[..i] by swapping it left past
   * strictly farther entries; a[i] has the largest index of the prefix.
   */
  method InsertAt(a: array<Neighbor>, i: nat)
    requires i < a.Length
    requires StrictlySorted(a[..i])
    requires forall p, q :: 0 <= p <= i < q < a.Length ==> a[p].id < a[q].id
    requires forall p :: 0 <= p < i ==> a[p].id < a[i].id
    modifies a
    ensures StrictlySorted(a[..i + 1])
    ensures a[i + 1..] == old(a[i + 1..])
    ensures multiset(a[..]) == old(multiset(a[..]))
    ensures forall p, q :: 0 <= p <= i < q < a.Length ==> a[p].id < a[q].id
  {
    var j := i;
    while j > 0 && a[j - 1].distSq > a[j].distSq
      invariant 0 <= j <= i
      invariant forall p, q :: 0 <= p < q <= i && p != j && q != j ==> Before(a[p], a[q])
      invariant forall q :: j < q <= i ==> Before(a[j], a[q])
      invariant forall p :: 0 <= p <= i && p != j ==> a[p].id < a[j].id
      invariant forall p, q :: 0 <= p <= i < q < a.Length ==> a[p].id < a[q].id
      invariant a[i + 1..] == old(a[i + 1..])
      invariant multiset(a[..]) == old(multiset(a[..]))
    {
      SwapDown(a, j);
      j := j - 1;
    }
    forall p | 0 <= p < j ensures Before(a[p], a[j]) {
      if p < j - 1 {
        assert Before(a[p], a[j - 1]);
      }
    }
  }

  /** The in-place stable sort of the distances array; it computes SortByDist. */
  method SortStable(a: array<Neighbor>)
    requires IdsIncreasing(a[..])
    modifies a
    ensures a[..] == SortByDist(old(a[..]))
  {
    var i := 0;
    while i < a.Length
      invariant 0 <= i <= a.Length
      invariant StrictlySorted(a[..i])
      invariant a[i..] == old(a[i..])
      invariant multiset(a[..]) == old(multiset(a[..]))
      invariant forall p, q :: 0 <= p < i <= q < a.Length ==> a[p].id < a[q].id
    {
      forall p, q | 0 <= p <= i < q < a.Length ensures a[p].id < a[q].id {
        if p == i {
          assert a[p] == old(a[p]) && a[q] == old(a[q]);
        }
      }
      InsertAt(a, i);
      i := i + 1;
    }
    assert a[..] == a[..a.Length];
    SortByDistStrictlySorted(old(a[..]));
    StrictlySortedUnique(a[..], SortByDist(old(a[..])));
  }

  /** The collecting loop of getNearestNeighbors: every other star with its squared distance. */
  method CollectDistances(pos: seq<real>, n: nat, t: nat) returns (distances: seq<Neighbor>)
    requires |pos| == 3 * n && t < n
    ensures distances == Distances(pos, n, t)
  {
    distances := [];
    for i := 0 to n
      invariant distances == DistancesUpTo(pos, n, t, i)
    {
      if i == t {
        continue;
      }
      var distSq := SquaredDistance(pos, t, i);
      distances := distances + [Neighbor(i, distSq)];
    }
  }

  /** The loop body's dx * dx + dy * dy + dz * dz. */
  method SquaredDistance(pos: seq<real>, t: nat, i: nat) returns (distSq: real)
    requires 3 * t + 2 < |pos| && 3 * i + 2 < |pos|
    ensures distSq == DistSq(pos, t, i)
  {
    var dx := pos[3 * i] - pos[3 * t];
    var dy := pos[3 * i + 1] - pos[3 * t + 1];
    var dz := pos[3 * i + 2] - pos[3 * t + 2];
    distSq := dx * dx + dy * dy + dz * dz;
  }

  /** getNearestNeighbors(targetIdx, k) over `n` stars. */
  method NearestNeighbors(pos: seq<real>, n: nat, t: nat, k: nat) returns (r: seq<Neighbor>)
    requires |pos| == 3 * n && t < n
    ensures r == Nearest(pos, n, t, k)
    ensures |r| == Min(k, n - 1) && StrictlySorted(r)
  {
    var distances := CollectDistances(pos, n, t);
    var a := new Neighbor[|distances|](j requires 0 <= j < |distances| => distances[j]);
    assert a[..] == distances;
    SortStable(a);
    r := a[..Min(k, a.Length)];
    NearestProperties(pos, n, t, k);
  }
}
