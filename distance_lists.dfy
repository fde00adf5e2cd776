/** Stage 1: every point records its distance to every point, itself included,
    and sorts that list by distance. */
module DistanceLists {
  import opened Points

  /** Inserting e at position p, after every entry no farther than e and before
      every entry farther than e, keeps a list sorted. */
  lemma InsertKeepsSorted(r: seq<Entry>, p: nat, e: Entry)
    requires SortedByDist(r) && p <= |r|
    requires p > 0 ==> r[p - 1].dist <= e.dist
    requires forall m :: p <= m < |r| ==> r[m].dist > e.dist
    ensures SortedByDist(r[..p] + [e] + r[p..])
  {
  }

  /** Inserting e anywhere adds exactly e to the contents. */
  lemma InsertAddsEntry(r: seq<Entry>, p: nat, e: Entry)
    requires p <= |r|
    ensures multiset(r[..p] + [e] + r[p..]) == multiset(r) + multiset{e}
  {
    assert r == r[..p] + r[p..];
  }

  /** Sorts a distance list by distance, standing in for the source's list sort.
      Entries at equal distance stay in their input order; the source leaves
      their order to the comparison of point objects. */
  method SortByDistance(s: seq<Entry>) returns (r: seq<Entry>)
    ensures SortedByDist(r)
    ensures multiset(r) == multiset(s)
  {
    r := [];
    for k := 0 to |s|
      invariant SortedByDist(r)
      invariant multiset(r) == multiset(s[..k])
    {
      var e := s[k];
      var p := |r|;
      while p > 0 && r[p - 1].dist > e.dist
        invariant 0 <= p <= |r|
        invariant forall m :: p <= m < |r| ==> r[m].dist > e.dist
      {
        p := p - 1;
      }
      InsertKeepsSorted(r, p, e);
      InsertAddsEntry(r, p, e);
      assert s[..k + 1] == s[..k] + [e];
      r := r[..p] + [e] + r[p..];
    }
    assert s[..|s|] == s;
  }

  /** Builds the distance list of every point. */
  method BuildDistanceLists(locs: seq<int>) returns (distanceList: array<seq<Entry>>)
    ensures fresh(distanceList) && distanceList.Length == |locs|
    ensures forall i :: 0 <= i < |locs| ==> IsDistanceList(locs, i, distanceList[i])
  {
    distanceList := new seq<Entry>[|locs|](_ => []);
    for i := 0 to |locs|
      invariant forall k :: 0 <= k < i ==> IsDistanceList(locs, k, distanceList[k])
      invariant forall k :: i <= k < |locs| ==> distanceList[k] == []
    {
      for j := 0 to |locs|
        invariant distanceList[i] == Row(locs, i)[..j]
        invariant forall k :: 0 <= k < i ==> IsDistanceList(locs, k, distanceList[k])
        invariant forall k :: i < k < |locs| ==> distanceList[k] == []
      {
        distanceList[i] := distanceList[i] + [Entry(Dist(locs, i, j), j)];
      }
      assert Row(locs, i)[..|locs|] == Row(locs, i);
      distanceList[i] := SortByDistance(distanceList[i]);
    }
  }
}
