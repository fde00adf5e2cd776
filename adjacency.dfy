/** Stage 4: link every CORE point to the other CORE points within eps. */
module Adjacency {
  import opened Points

  /** An entry of point i's distance list that the linking stage turns into an edge. */
  predicate Links(e: Entry, i: nat, category: seq<Category>, eps: int)
  {
    e.point != i && e.dist <= eps && e.point < |category| && category[e.point] == Core
  }

  /** The points the linking stage appends for the first `pos` entries of `row`, in order. */
  function CoreLinks(row: seq<Entry>, pos: nat, i: nat, category: seq<Category>, eps: int): (r: seq<nat>)
    requires pos <= |row|
  {
    if pos == 0 then []
    else CoreLinks(row, pos - 1, i, category, eps)
         + (if Links(row[pos - 1], i, category, eps) then [row[pos - 1].point] else [])
  }

  /** What the adjacency list of CORE point i must be: exactly the other CORE points
      within eps, each once. */
  ghost predicate IsAdjacencyOf(locs: seq<int>, category: seq<Category>, eps: int, i: nat, adj: seq<nat>)
    requires i < |locs| == |category|
  {
    && (forall y: nat :: y in adj <==> y < |locs| && y != i && category[y] == Core && Dist(locs, i, y) <= eps)
    && Distinct(adj)
  }

  /** The appended points of a prefix are the points of its linking entries, each once. */
  lemma {:induction false} CoreLinksPrefix(locs: seq<int>, i: nat, row: seq<Entry>, pos: nat,
                                           category: seq<Category>, eps: int)
    requires i < |locs| == |category| && IsDistanceList(locs, i, row) && pos <= |row|
    ensures forall y :: y in CoreLinks(row, pos, i, category, eps) <==>
      exists m :: 0 <= m < pos && row[m].point == y && Links(row[m], i, category, eps)
    ensures Distinct(CoreLinks(row, pos, i, category, eps))
  {
    if pos > 0 {
      CoreLinksPrefix(locs, i, row, pos - 1, category, eps);
      DistanceListFacts(locs, i, row);
      var prev := CoreLinks(row, pos - 1, i, category, eps);
      forall y | y in prev ensures y != row[pos - 1].point {
        var m :| 0 <= m < pos - 1 && row[m].point == y && Links(row[m], i, category, eps);
      }
      if Links(row[pos - 1], i, category, eps) {
        DistinctAppend(prev, row[pos - 1].point);
      }
    }
  }

  /** The full list appended for a CORE point is its adjacency. */
  lemma {:induction false} CoreLinksComplete(locs: seq<int>, i: nat, row: seq<Entry>,
                                             category: seq<Category>, eps: int)
    requires i < |locs| == |category| && IsDistanceList(locs, i, row)
    ensures IsAdjacencyOf(locs, category, eps, i, CoreLinks(row, |row|, i, category, eps))
  {
    CoreLinksPrefix(locs, i, row, |row|, category, eps);
    DistanceListFacts(locs, i, row);
    forall y: nat | y < |locs| && y != i && category[y] == Core && Dist(locs, i, y) <= eps
      ensures y in CoreLinks(row, |row|, i, category, eps)
    {
      var m :| 0 <= m < |row| && row[m] == Entry(Dist(locs, i, y), y);
      assert Links(row[m], i, category, eps);
    }
  }

  /** The scan of one CORE point's distance list: skip its own entry and append every
      CORE point within eps, in distance-list order. */
  method LinkOne(locs: seq<int>, dp: nat, row: seq<Entry>, category: array<Category>, eps: int,
                 adjacency: array<seq<nat>>)
    requires dp < |locs| == category.Length == adjacency.Length && IsDistanceList(locs, dp, row)
    modifies adjacency
    ensures adjacency[dp] == old(adjacency[dp]) + CoreLinks(row, |row|, dp, category[..], eps)
    ensures forall x :: 0 <= x < adjacency.Length && x != dp ==> adjacency[x] == old(adjacency[x])
  {
    DistanceListFacts(locs, dp, row);
    for pos := 0 to |row|
      invariant adjacency[dp] == old(adjacency[dp]) + CoreLinks(row, pos, dp, category[..], eps)
      invariant forall x :: 0 <= x < adjacency.Length && x != dp ==> adjacency[x] == old(adjacency[x])
    {
      if row[pos].point == dp {
        continue;
      }
      if row[pos].dist <= eps && category[row[pos].point] == Core {
        adjacency[dp] := adjacency[dp] + [row[pos].point];
      }
    }
  }

  /** The linking stage. Each CORE point of the working list gets the CORE points
      within eps appended to its adjacency list, in distance-list order; BORDER points
      are skipped; a NOISE point cannot occur once noise has been removed. */
  method LinkCore(locs: seq<int>, dpList: seq<nat>, distanceList: array<seq<Entry>>,
                  category: array<Category>, eps: int, adjacency: array<seq<nat>>)
    requires distanceList.Length == category.Length == adjacency.Length == |locs|
    requires forall i :: 0 <= i < |locs| ==> IsDistanceList(locs, i, distanceList[i])
    requires forall k :: 0 <= k < |dpList| ==> dpList[k] < |locs| && category[dpList[k]] != Noise
    requires Distinct(dpList)
    modifies adjacency
    ensures forall x :: 0 <= x < |locs| ==>
      adjacency[x] == if x in dpList && category[x] == Core
                      then old(adjacency[x]) + CoreLinks(distanceList[x], |distanceList[x]|, x, category[..], eps)
                      else old(adjacency[x])
  {
    for t := 0 to |dpList|
      invariant forall x :: 0 <= x < |locs| ==>
        adjacency[x] == if x in dpList[..t] && category[x] == Core
                        then old(adjacency[x]) + CoreLinks(distanceList[x], |distanceList[x]|, x, category[..], eps)
                        else old(adjacency[x])
    {
      var dp := dpList[t];
      assert dpList[..t + 1] == dpList[..t] + [dp];
      assert dp !in dpList[..t];
      if category[dp] == Core {
        LinkOne(locs, dp, distanceList[dp], category, eps, adjacency);
      } else if category[dp] == Noise {
        assert false;
      } else {
        continue;
      }
    }
    assert dpList[..|dpList|] == dpList;
  }
}
