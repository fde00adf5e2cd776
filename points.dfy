/** The data model shared by every stage of the one-dimensional DBSCAN engine,
    and the density rules every stage is measured against.

    A point is an index into `locs`, the list of input locations. The mutable
    per-point fields of the source's point record (category, colour, distance
    list, adjacency list) are side tables indexed by point. */
module Points {

  /** DBSCAN categories; every point starts Uncategorized. */
  datatype Category = Uncategorized | Core | Border | Noise

  /** Traversal colours. White means unvisited, Grey visited. */
  datatype Color = White | Grey

  /** One entry of a distance list: a distance and the point it was measured to. */
  datatype Entry = Entry(dist: nat, point: nat)

  function Abs(x: int): (r: nat)
    ensures r == x || r == -x
  {
    if x < 0 then -x else x
  }

  /** Absolute difference of two locations. */
  function Dist(locs: seq<int>, i: nat, j: nat): (r: nat)
    requires i < |locs| && j < |locs|
  {
    Abs(locs[j] - locs[i])
  }

  lemma DistSymmetric(locs: seq<int>, i: nat, j: nat)
    requires i < |locs| && j < |locs|
    ensures Dist(locs, i, j) == Dist(locs, j, i)
    ensures Dist(locs, i, i) == 0
    ensures Dist(locs, i, j) == 0 <==> locs[i] == locs[j]
  {
  }

  /** The eps-neighbourhood of point i, itself included. */
  ghost function Neighbourhood(locs: seq<int>, i: nat, eps: int): (r: set<nat>)
    requires i < |locs|
  {
    set j: nat | j < |locs| && Dist(locs, i, j) <= eps
  }

  /** A point is core when at least nhoodSize points (itself included) lie within eps of it. */
  ghost predicate IsCore(locs: seq<int>, eps: int, nhoodSize: int, i: nat)
    requires i < |locs|
  {
    |Neighbourhood(locs, i, eps)| >= nhoodSize
  }

  /** Some core point lies within eps of point i. */
  ghost predicate HasCoreNeighbour(locs: seq<int>, eps: int, nhoodSize: int, i: nat)
    requires i < |locs|
  {
    exists j: nat :: j < |locs| && IsCore(locs, eps, nhoodSize, j) && Dist(locs, i, j) <= eps
  }

  /** The category DBSCAN assigns: core first, then border, all else noise. */
  ghost function Classification(locs: seq<int>, eps: int, nhoodSize: int, i: nat): Category
    requires i < |locs|
  {
    if IsCore(locs, eps, nhoodSize, i) then Core
    else if HasCoreNeighbour(locs, eps, nhoodSize, i) then Border
    else Noise
  }

  lemma SubsetCardinality(a: set<nat>, b: set<nat>)
    requires a <= b
    ensures |a| <= |b|
  {
    if a != {} {
      var x :| x in a;
      SubsetCardinality(a - {x}, b - {x});
    }
  }

  /** Widening eps never turns a core point into a non-core one. */
  lemma {:induction false} CoreMonotone(locs: seq<int>, eps1: int, eps2: int, nhoodSize: int, i: nat)
    requires i < |locs| && eps1 <= eps2
    requires IsCore(locs, eps1, nhoodSize, i)
    ensures IsCore(locs, eps2, nhoodSize, i)
  {
    SubsetCardinality(Neighbourhood(locs, i, eps1), Neighbourhood(locs, i, eps2));
  }

  /** Widening eps never turns a clustered (core or border) point into noise. */
  lemma {:induction false} ClusteredMonotone(locs: seq<int>, eps1: int, eps2: int, nhoodSize: int, i: nat)
    requires i < |locs| && eps1 <= eps2
    requires Classification(locs, eps1, nhoodSize, i) != Noise
    ensures Classification(locs, eps2, nhoodSize, i) != Noise
    ensures Classification(locs, eps1, nhoodSize, i) == Core ==> Classification(locs, eps2, nhoodSize, i) == Core
  {
    if IsCore(locs, eps1, nhoodSize, i) {
      CoreMonotone(locs, eps1, eps2, nhoodSize, i);
    } else {
      var j: nat :| j < |locs| && IsCore(locs, eps1, nhoodSize, j) && Dist(locs, i, j) <= eps1;
      CoreMonotone(locs, eps1, eps2, nhoodSize, j);
      assert IsCore(locs, eps2, nhoodSize, j) && Dist(locs, i, j) <= eps2;
    }
  }

  /** With nhoodSize at most 1 every point is core: its neighbourhood holds itself. */
  lemma {:induction false} SmallNeighbourhoodIsCore(locs: seq<int>, eps: int, nhoodSize: int, i: nat)
    requires i < |locs| && eps >= 0 && nhoodSize <= 1
    ensures Classification(locs, eps, nhoodSize, i) == Core
  {
    assert i in Neighbourhood(locs, i, eps);
    SubsetCardinality({i}, Neighbourhood(locs, i, eps));
  }

  /** Two points farther apart than eps, with nhoodSize 2, are both noise. */
  lemma {:induction false} IsolatedPairIsNoise(locs: seq<int>, eps: int)
    requires |locs| == 2 && eps >= 0 && Dist(locs, 0, 1) > eps
    ensures Classification(locs, eps, 2, 0) == Noise
    ensures Classification(locs, eps, 2, 1) == Noise
  {
    assert Neighbourhood(locs, 0, eps) == {0};
    assert Neighbourhood(locs, 1, eps) == {1};
  }

  ghost predicate Distinct<T>(s: seq<T>)
  {
    forall k, l :: 0 <= k < l < |s| ==> s[k] != s[l]
  }

  lemma DistinctAppend<T>(s: seq<T>, x: T)
    requires Distinct(s) && x !in s
    ensures Distinct(s + [x])
  {
  }

  /** The unsorted distance list of point i: one entry per point, in index order. */
  function Row(locs: seq<int>, i: nat): (r: seq<Entry>)
    requires i < |locs|
    ensures |r| == |locs|
    ensures forall j :: 0 <= j < |r| ==> r[j] == Entry(Dist(locs, i, j), j)
  {
    seq(|locs|, j requires 0 <= j < |locs| => Entry(Dist(locs, i, j), j))
  }

  ghost predicate SortedByDist(s: seq<Entry>)
  {
    forall k, l :: 0 <= k < l < |s| ==> s[k].dist <= s[l].dist
  }

  /** A distance list of point i: the entries of Row(locs, i), sorted by distance. */
  ghost predicate IsDistanceList(locs: seq<int>, i: nat, s: seq<Entry>)
    requires i < |locs|
  {
    multiset(s) == multiset(Row(locs, i)) && SortedByDist(s)
  }

  lemma {:induction false} MultiplicityAtMostOne<T>(s: seq<T>, e: T)
    requires Distinct(s)
    ensures multiset(s)[e] <= 1
  {
    if s != [] {
      assert s == [s[0]] + s[1..];
      assert Distinct(s[1..]);
      MultiplicityAtMostOne(s[1..], e);
      if e == s[0] {
        assert e !in s[1..];
      }
    }
  }

  lemma TwoOccurrences<T>(s: seq<T>, k: nat, l: nat)
    requires k < l < |s| && s[k] == s[l]
    ensures multiset(s)[s[k]] >= 2
  {
    assert s == s[..l] + s[l..];
    assert s[k] in s[..l];
    assert s[l] in s[l..];
  }

  /** A distance list holds exactly one entry per input point, each carrying that
      point's true distance, and starts with a zero-distance entry (the point itself
      or a point at the same location). */
  lemma DistanceListFacts(locs: seq<int>, i: nat, s: seq<Entry>)
    requires i < |locs| && IsDistanceList(locs, i, s)
    ensures |s| == |locs|
    ensures forall k :: 0 <= k < |s| ==> s[k].point < |locs| && s[k].dist == Dist(locs, i, s[k].point)
    ensures forall k, l :: 0 <= k < l < |s| ==> s[k].point != s[l].point
    ensures forall j :: 0 <= j < |locs| ==> Entry(Dist(locs, i, j), j) in s
    ensures Entry(0, i) in s && s[0].dist == 0
  {
    var row := Row(locs, i);
    assert |s| == |multiset(s)| == |multiset(row)| == |row|;
    forall k | 0 <= k < |s|
      ensures s[k].point < |locs| && s[k].dist == Dist(locs, i, s[k].point)
    {
      assert s[k] in multiset(row);
    }
    forall j | 0 <= j < |locs|
      ensures Entry(Dist(locs, i, j), j) in s
    {
      assert row[j] in multiset(s);
    }
    assert Distinct(row) by {
      forall k, l | 0 <= k < l < |row| ensures row[k] != row[l] {
        assert row[k].point == k;
      }
    }
    forall k, l | 0 <= k < l < |s|
      ensures s[k].point != s[l].point
    {
      if s[k].point == s[l].point {
        TwoOccurrences(s, k, l);
        MultiplicityAtMostOne(row, s[k]);
      }
    }
    assert row[i] == Entry(0, i);
    assert Entry(0, i) in s;
  }
}
