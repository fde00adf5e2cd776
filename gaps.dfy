/** Stage 7: reduce each cluster to the interval (smallest, largest) of its members'
    locations. The running largest value starts at 0 and the running smallest at a
    large sentinel, so the bounds are clamped to those starting values. */
module Gaps {
  import opened Points

  /** Starting value of the running smallest location. */
  const Sentinel: int := 999999999999

  /** lo is min(Sentinel, smallest location in s) and hi is max(0, largest location in s). */
  ghost predicate IsBounds(s: set<nat>, locs: seq<int>, lo: int, hi: int)
    requires forall x :: x in s ==> x < |locs|
  {
    && lo <= Sentinel && (forall x :: x in s ==> lo <= locs[x])
    && (lo == Sentinel || exists x :: x in s && locs[x] == lo)
    && hi >= 0 && (forall x :: x in s ==> locs[x] <= hi)
    && (hi == 0 || exists x :: x in s && locs[x] == hi)
  }

  /** The pass over one set: visit its members in some order, keeping the running
      largest and smallest location. */
  method SetBounds(s: set<nat>, locs: seq<int>) returns (smallest: int, largest: int)
    requires forall x :: x in s ==> x < |locs|
    ensures IsBounds(s, locs, smallest, largest)
  {
    largest := 0;
    smallest := Sentinel;
    var rest := s;
    while rest != {}
      invariant rest <= s
      invariant IsBounds(s - rest, locs, smallest, largest)
      decreases rest
    {
      var dp :| dp in rest;
      var value := locs[dp];
      if value > largest {
        largest := value;
      }
      if value < smallest {
        smallest := value;
      }
      rest := rest - {dp};
    }
    assert s - rest == s;
  }

  /** The output pass: one (smallest, largest) pair per set, in list order. */
  method GapIntervals(setList: seq<set<nat>>, locs: seq<int>) returns (clusterList: seq<(int, int)>)
    requires forall k, x :: 0 <= k < |setList| && x in setList[k] ==> x < |locs|
    ensures |clusterList| == |setList|
    ensures forall k :: 0 <= k < |setList| ==> IsBounds(setList[k], locs, clusterList[k].0, clusterList[k].1)
  {
    clusterList := [];
    for k := 0 to |setList|
      invariant |clusterList| == k
      invariant forall j :: 0 <= j < k ==> IsBounds(setList[j], locs, clusterList[j].0, clusterList[j].1)
    {
      var smallest, largest := SetBounds(setList[k], locs);
      clusterList := clusterList + [(smallest, largest)];
    }
  }

  /** The bounds of a set are determined by it: no two different pairs satisfy IsBounds. */
  lemma BoundsUnique(s: set<nat>, locs: seq<int>, lo1: int, hi1: int, lo2: int, hi2: int)
    requires forall x :: x in s ==> x < |locs|
    requires IsBounds(s, locs, lo1, hi1) && IsBounds(s, locs, lo2, hi2)
    ensures lo1 == lo2 && hi1 == hi2
  {
  }

  /** For a non-empty set whose locations lie in [0, Sentinel], the bounds are the
      true smallest and largest locations: both are attained by members. */
  lemma BoundsAreRange(s: set<nat>, locs: seq<int>, lo: int, hi: int)
    requires forall x :: x in s ==> x < |locs| && 0 <= locs[x] <= Sentinel
    requires s != {} && IsBounds(s, locs, lo, hi)
    ensures exists x :: x in s && locs[x] == lo
    ensures exists x :: x in s && locs[x] == hi
    ensures lo <= hi
  {
  }

  /** A cluster whose locations are all negative still reports 0 as its largest value. */
  lemma NegativeClusterReportsZero(locs: seq<int>, lo: int, hi: int)
    requires locs == [-5, -3] && IsBounds({0, 1}, locs, lo, hi)
    ensures lo == -5 && hi == 0
  {
  }
}
