/** Stage 2: label every point CORE, then BORDER, then NOISE. */
module Classify {
  import opened Points

  /** The points of the first `pos` entries of `row` that lie within eps. */
  ghost function WithinSet(row: seq<Entry>, pos: nat, eps: int): (r: set<nat>)
    requires pos <= |row|
  {
    set k | 0 <= k < pos && row[k].dist <= eps :: row[k].point
  }

  /** Scanning one more entry adds that entry's point exactly when it lies within eps. */
  lemma WithinStep(row: seq<Entry>, pos: nat, eps: int)
    requires pos < |row|
    ensures WithinSet(row, pos + 1, eps)
         == WithinSet(row, pos, eps) + (if row[pos].dist <= eps then {row[pos].point} else {})
  {
  }

  /** In a distance list the next entry's point has not been counted yet, and
      everything counted lies in the neighbourhood. */
  lemma {:induction false} WithinFresh(locs: seq<int>, i: nat, row: seq<Entry>, pos: nat, eps: int)
    requires i < |locs| && IsDistanceList(locs, i, row) && pos < |row|
    ensures row[pos].point !in WithinSet(row, pos, eps)
    ensures WithinSet(row, pos + 1, eps) <= Neighbourhood(locs, i, eps)
  {
    DistanceListFacts(locs, i, row);
    forall y | y in WithinSet(row, pos, eps) ensures y != row[pos].point {
      var k :| 0 <= k < pos && row[k].dist <= eps && row[k].point == y;
      assert row[k].point != row[pos].point;
    }
    forall y | y in WithinSet(row, pos + 1, eps) ensures y in Neighbourhood(locs, i, eps) {
      var k :| 0 <= k < pos + 1 && row[k].dist <= eps && row[k].point == y;
    }
  }

  /** A whole distance list sees exactly the eps-neighbourhood. */
  lemma {:induction false} WithinAll(locs: seq<int>, i: nat, row: seq<Entry>, eps: int)
    requires i < |locs| && IsDistanceList(locs, i, row)
    ensures WithinSet(row, |row|, eps) == Neighbourhood(locs, i, eps)
  {
    DistanceListFacts(locs, i, row);
    forall j | j in Neighbourhood(locs, i, eps) ensures j in WithinSet(row, |row|, eps) {
      var k :| 0 <= k < |row| && row[k] == Entry(Dist(locs, i, j), j);
    }
    forall j | j in WithinSet(row, |row|, eps) ensures j in Neighbourhood(locs, i, eps) {
      var k :| 0 <= k < |row| && row[k].dist <= eps && row[k].point == j;
    }
  }

  /** The scan of one point's distance list during core labelling: count the
      entries within eps and stop as soon as the count reaches nhoodSize. The
      answer is the density rule itself; stopping early does not change it. */
  method ScanCore(locs: seq<int>, i: nat, row: seq<Entry>, eps: int, nhoodSize: int)
    returns (core: bool)
    requires i < |locs| && IsDistanceList(locs, i, row)
    ensures core == IsCore(locs, eps, nhoodSize, i)
  {
    DistanceListFacts(locs, i, row);
    WithinAll(locs, i, row, eps);
    var count := 0;
    var pos := 0;
    while pos < |row|
      invariant 0 <= pos <= |row|
      invariant count == |WithinSet(row, pos, eps)|
      invariant pos > 0 ==> count < nhoodSize
    {
      WithinStep(row, pos, eps);
      WithinFresh(locs, i, row, pos, eps);
      if row[pos].dist <= eps {
        count := count + 1;
      }
      if count >= nhoodSize {
        SubsetCardinality(WithinSet(row, pos + 1, eps), Neighbourhood(locs, i, eps));
        return true;
      }
      pos := pos + 1;
    }
    return false;
  }

  /** Core labelling: every point whose scan reaches nhoodSize becomes CORE;
      other points keep their label. */
  method LabelCore(locs: seq<int>, distanceList: array<seq<Entry>>, eps: int, nhoodSize: int,
                   category: array<Category>)
    requires distanceList.Length == category.Length == |locs|
    requires forall i :: 0 <= i < |locs| ==> IsDistanceList(locs, i, distanceList[i])
    modifies category
    ensures forall i :: 0 <= i < |locs| ==>
      category[i] == if IsCore(locs, eps, nhoodSize, i) then Core else old(category[i])
  {
    for i := 0 to |locs|
      invariant forall k :: 0 <= k < i ==>
        category[k] == if IsCore(locs, eps, nhoodSize, k) then Core else old(category[k])
      invariant forall k :: i <= k < |locs| ==> category[k] == old(category[k])
    {
      var core := ScanCore(locs, i, distanceList[i], eps, nhoodSize);
      if core {
        category[i] := Core;
      }
    }
  }

  /** Some point labelled CORE in `category` lies within eps of point i. */
  ghost predicate NearCore(locs: seq<int>, category: seq<Category>, eps: int, i: nat)
    requires i < |locs|
  {
    exists j: nat :: j < |locs| && j < |category| && category[j] == Core && Dist(locs, i, j) <= eps
  }

  /** The scan of one point's distance list during border labelling: look for an
      entry within eps whose point is labelled CORE, and stop at the first one. */
  method ScanBorder(locs: seq<int>, i: nat, row: seq<Entry>, eps: int, category: seq<Category>)
    returns (border: bool)
    requires i < |locs| == |category| && IsDistanceList(locs, i, row)
    ensures border == NearCore(locs, category, eps, i)
  {
    DistanceListFacts(locs, i, row);
    var pos := 0;
    while pos < |row|
      invariant 0 <= pos <= |row|
      invariant forall m :: 0 <= m < pos ==> !(row[m].dist <= eps && category[row[m].point] == Core)
    {
      if row[pos].dist <= eps && category[row[pos].point] == Core {
        return true;
      }
      pos := pos + 1;
    }
    forall j: nat | j < |locs| && category[j] == Core ensures Dist(locs, i, j) > eps {
      var m :| 0 <= m < |row| && row[m] == Entry(Dist(locs, i, j), j);
    }
    return false;
  }

  /** Border labelling: a point not already CORE becomes BORDER when its scan finds
      a CORE point within eps. */
  method LabelBorder(locs: seq<int>, distanceList: array<seq<Entry>>, eps: int, category: array<Category>)
    requires distanceList.Length == category.Length == |locs|
    requires forall i :: 0 <= i < |locs| ==> IsDistanceList(locs, i, distanceList[i])
    modifies category
    ensures forall i :: 0 <= i < |locs| ==>
      category[i] == if old(category[i]) == Core then Core
                     else if NearCore(locs, old(category[..]), eps, i) then Border
                     else old(category[i])
  {
    ghost var before := category[..];
    for i := 0 to |locs|
      invariant forall k :: 0 <= k < i ==>
        category[k] == if before[k] == Core then Core
                       else if NearCore(locs, before, eps, k) then Border
                       else before[k]
      invariant forall k :: i <= k < |locs| ==> category[k] == before[k]
      invariant forall k :: 0 <= k < |locs| ==> (category[k] == Core <==> before[k] == Core)
    {
      if category[i] == Core {
        continue;
      }
      assert forall j: nat :: j < |locs| ==> (category[..][j] == Core <==> before[j] == Core);
      var border := ScanBorder(locs, i, distanceList[i], eps, category[..]);
      assert NearCore(locs, category[..], eps, i) == NearCore(locs, before, eps, i);
      if border {
        category[i] := Border;
      }
    }
  }

  /** Noise labelling: every point still UNCATEGORIZED becomes NOISE. */
  method LabelNoise(category: array<Category>)
    modifies category
    ensures forall i :: 0 <= i < category.Length ==>
      category[i] == if old(category[i]) == Uncategorized then Noise else old(category[i])
    ensures forall i :: 0 <= i < category.Length ==> category[i] != Uncategorized
  {
    for i := 0 to category.Length
      invariant forall k :: 0 <= k < i ==>
        category[k] == if old(category[k]) == Uncategorized then Noise else old(category[k])
      invariant forall k :: i <= k < category.Length ==> category[k] == old(category[k])
    {
      if category[i] == Uncategorized {
        category[i] := Noise;
      }
    }
  }
}
