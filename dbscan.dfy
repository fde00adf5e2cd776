/** The whole one-dimensional DBSCAN pipeline: distance lists, labelling, noise
    removal, linking, component search, border attachment and interval output. */
module Dbscan {
  import opened Points
  import opened DistanceLists
  import opened Classify
  import opened NoiseRemoval
  import opened Adjacency
  import opened Graph
  import opened Components
  import opened Borders
  import opened Gaps

  /** The category of every point, as the density rules define it. */
  ghost function Categories(locs: seq<int>, eps: int, nhoodSize: int): (r: seq<Category>)
    ensures |r| == |locs|
    ensures forall i :: 0 <= i < |locs| ==> r[i] == Classification(locs, eps, nhoodSize, i)
  {
    seq(|locs|, i requires 0 <= i < |locs| => Classification(locs, eps, nhoodSize, i))
  }

  /** The graph the component search runs on: every CORE point is linked to exactly
      the other CORE points within eps, and every other point has no links. */
  ghost predicate IsCoreGraphOf(locs: seq<int>, category: seq<Category>, eps: int, adj: seq<seq<nat>>)
  {
    && |adj| == |locs| == |category|
    && (forall i :: 0 <= i < |locs| && category[i] == Core ==> IsAdjacencyOf(locs, category, eps, i, adj[i]))
    && (forall i :: 0 <= i < |locs| && category[i] != Core ==> adj[i] == [])
  }

  /** Set s holds a CORE point. */
  ghost predicate HasCorePoint(s: set<nat>, category: seq<Category>)
  {
    exists x :: x in s && x < |category| && category[x] == Core
  }

  /** What the pipeline's list of sets is: non-empty, pairwise disjoint sets that
      together hold exactly the CORE and BORDER points; the CORE points of a set form
      one connected component of the CORE graph; and each BORDER point sits in the
      first set that holds a CORE point within eps of it. */
  ghost predicate IsClustering(locs: seq<int>, category: seq<Category>, eps: int,
                               adj: seq<seq<nat>>, sets: seq<set<nat>>)
    requires |category| == |locs|
  {
    && (forall k :: 0 <= k < |sets| ==> HasCorePoint(sets[k], category))
    && (forall k, l :: 0 <= k < l < |sets| ==> sets[k] !! sets[l])
    && (forall k, x {:trigger x in sets[k]} :: 0 <= k < |sets| && x in sets[k] ==> x < |locs| && category[x] != Noise)
    && (forall x :: 0 <= x < |locs| && category[x] != Noise ==> exists k :: 0 <= k < |sets| && x in sets[k])
    && (forall k, x, y ::
          (0 <= k < |sets| && x in sets[k] && 0 <= x < |locs| && category[x] == Core &&
           0 <= y < |locs| && category[y] == Core) ==> (y in sets[k] <==> Reachable(adj, x, y)))
    && (forall k, x :: 0 <= k < |sets| && x in sets[k] && x < |locs| && category[x] == Border ==>
          FirstHost(sets, x, locs, category, eps) == k)
  }

  /** With core labels fixed, "some CORE-labelled point within eps" is "some core
      point within eps". */
  lemma NearCoreIsCoreNeighbour(locs: seq<int>, eps: int, nhoodSize: int, category: seq<Category>, i: nat)
    requires i < |locs| == |category|
    requires forall j :: 0 <= j < |locs| ==> (category[j] == Core <==> IsCore(locs, eps, nhoodSize, j))
    ensures NearCore(locs, category, eps, i) <==> HasCoreNeighbour(locs, eps, nhoodSize, i)
  {
  }

  /** Core, border and noise labelling in turn; afterwards every point carries the
      category the density rules give it. */
  method LabelPoints(locs: seq<int>, distanceList: array<seq<Entry>>, eps: int, nhoodSize: int)
    returns (category: array<Category>)
    requires distanceList.Length == |locs|
    requires forall i :: 0 <= i < |locs| ==> IsDistanceList(locs, i, distanceList[i])
    ensures fresh(category) && category.Length == |locs|
    ensures category[..] == Categories(locs, eps, nhoodSize)
  {
    category := new Category[|locs|](_ => Uncategorized);
    LabelCore(locs, distanceList, eps, nhoodSize, category);
    ghost var labelled := category[..];
    LabelBorder(locs, distanceList, eps, category);
    LabelNoise(category);
    forall i | 0 <= i < |locs| ensures category[i] == Classification(locs, eps, nhoodSize, i) {
      NearCoreIsCoreNeighbour(locs, eps, nhoodSize, labelled, i);
    }
  }

  /** The linking stage run on fresh, empty adjacency lists yields the CORE graph. */
  method BuildGraph(locs: seq<int>, dpList: seq<nat>, distanceList: array<seq<Entry>>,
                    category: array<Category>, eps: int)
    returns (adjacency: array<seq<nat>>)
    requires distanceList.Length == category.Length == |locs|
    requires forall i :: 0 <= i < |locs| ==> IsDistanceList(locs, i, distanceList[i])
    requires forall k :: 0 <= k < |dpList| ==> dpList[k] < |locs|
    requires forall x :: x in dpList <==> 0 <= x < |locs| && category[x] != Noise
    requires Distinct(dpList)
    ensures fresh(adjacency)
    ensures IsCoreGraphOf(locs, category[..], eps, adjacency[..])
    ensures CoreGraph(adjacency[..], category[..])
  {
    adjacency := new seq<nat>[|locs|](_ => []);
    LinkCore(locs, dpList, distanceList, category, eps, adjacency);
    forall i | 0 <= i < |locs| && category[i] == Core
      ensures IsAdjacencyOf(locs, category[..], eps, i, adjacency[i])
    {
      CoreLinksComplete(locs, i, distanceList[i], category[..], eps);
    }
    CoreGraphOf(locs, category[..], eps, adjacency[..]);
  }

  /** The CORE graph is symmetric and links only distinct CORE points. */
  lemma CoreGraphOf(locs: seq<int>, category: seq<Category>, eps: int, adj: seq<seq<nat>>)
    requires IsCoreGraphOf(locs, category, eps, adj)
    ensures CoreGraph(adj, category)
  {
  }

  /** Two lists of sets that agree on their CORE members have the same first host. */
  lemma FirstHostCoreOnly(s1: seq<set<nat>>, s2: seq<set<nat>>, b: nat,
                          locs: seq<int>, category: seq<Category>, eps: int)
    requires b < |locs| == |category| && |s1| == |s2|
    requires forall k, x :: 0 <= k < |s1| && 0 <= x < |category| && category[x] == Core ==>
      (x in s1[k] <==> x in s2[k])
    ensures FirstHost(s1, b, locs, category, eps) == FirstHost(s2, b, locs, category, eps)
  {
  }

  /** After the border loop has handled the points of `done`: every set is its
      component plus the BORDER points of `done` whose first hosting component it is. */
  ghost predicate AttachedUpTo(comps: seq<set<nat>>, sets: seq<set<nat>>, done: seq<nat>,
                               locs: seq<int>, category: seq<Category>, eps: int)
    requires |category| == |locs|
  {
    && |sets| == |comps|
    && (forall k, x {:trigger x in sets[k]} {:trigger x in comps[k]} :: 0 <= k < |sets| ==>
          (x in sets[k] <==>
             (x in comps[k] ||
              (x in done && 0 <= x < |locs| && category[x] == Border && FirstHost(comps, x, locs, category, eps) == k))))
  }

  /** Handing one more working-list point to the border loop keeps AttachedUpTo. */
  lemma AttachStep(comps: seq<set<nat>>, sets: seq<set<nat>>, done: seq<nat>, dp: nat,
                   locs: seq<int>, category: seq<Category>, eps: int)
    requires |category| == |locs| && dp < |locs|
    requires AttachedUpTo(comps, sets, done, locs, category, eps)
    requires category[dp] == Border ==> FirstHost(comps, dp, locs, category, eps) < |comps|
    ensures category[dp] != Border ==> AttachedUpTo(comps, sets, done + [dp], locs, category, eps)
    ensures category[dp] == Border ==>
      var h := FirstHost(comps, dp, locs, category, eps);
      AttachedUpTo(comps, sets[h := sets[h] + {dp}], done + [dp], locs, category, eps)
  {
  }

  /** The loop over the working list that hands every BORDER point to add_border.
      Each set ends up as its component plus the BORDER points whose first hosting
      component it is, and every BORDER point has such a component. */
  method AttachBorders(dpList: seq<nat>, comps: seq<set<nat>>, locs: seq<int>, category: seq<Category>, eps: int)
    returns (setList: seq<set<nat>>)
    requires |category| == |locs|
    requires forall k :: 0 <= k < |dpList| ==> dpList[k] < |locs|
    requires forall x :: 0 <= x < |locs| && category[x] == Core ==> exists k :: 0 <= k < |comps| && x in comps[k]
    requires forall k, x {:trigger x in comps[k]} :: 0 <= k < |comps| && x in comps[k] ==> x < |locs| && category[x] == Core
    requires forall x :: 0 <= x < |locs| && category[x] == Border ==> NearCore(locs, category, eps, x)
    ensures forall x :: x in dpList && category[x] == Border ==> FirstHost(comps, x, locs, category, eps) < |comps|
    ensures AttachedUpTo(comps, setList, dpList, locs, category, eps)
  {
    setList := comps;
    for t := 0 to |dpList|
      invariant AttachedUpTo(comps, setList, dpList[..t], locs, category, eps)
    {
      var dp := dpList[t];
      assert dpList[..t + 1] == dpList[..t] + [dp];
      if category[dp] == Border {
        var c: nat :| c < |locs| && category[c] == Core && Dist(locs, dp, c) <= eps;
        BorderFindsHost(comps, dp, locs, category, eps, c);
        FirstHostCoreOnly(setList, comps, dp, locs, category, eps);
        AttachStep(comps, setList, dpList[..t], dp, locs, category, eps);
        setList := AddBorder(dp, setList, locs, category, eps);
      } else {
        AttachStep(comps, setList, dpList[..t], dp, locs, category, eps);
      }
    }
    assert dpList[..|dpList|] == dpList;
    forall x | x in dpList && category[x] == Border ensures FirstHost(comps, x, locs, category, eps) < |comps| {
      var c: nat :| c < |locs| && category[c] == Core && Dist(locs, x, c) <= eps;
      BorderFindsHost(comps, x, locs, category, eps, c);
    }
  }

  /** The facts about the stages' results that the clustering follows from. */
  ghost predicate StagesAgree(locs: seq<int>, category: seq<Category>, eps: int, adj: seq<seq<nat>>,
                              dpList: seq<nat>, comps: seq<set<nat>>, sets: seq<set<nat>>)
  {
    && |category| == |locs| == |adj|
    && (forall x :: 0 <= x < |locs| ==> category[x] != Uncategorized)
    && (forall x :: x in dpList <==> 0 <= x < |locs| && category[x] != Noise)
    && IsComponentList(adj, category, comps)
    && (forall x :: x in dpList && category[x] == Border ==> FirstHost(comps, x, locs, category, eps) < |comps|)
    && AttachedUpTo(comps, sets, dpList, locs, category, eps)
  }

  lemma {:induction false} ClustersHoldClusteredPoints(locs: seq<int>, category: seq<Category>, eps: int,
                                                       adj: seq<seq<nat>>, dpList: seq<nat>,
                                                       comps: seq<set<nat>>, sets: seq<set<nat>>)
    requires StagesAgree(locs, category, eps, adj, dpList, comps, sets)
    ensures forall k :: 0 <= k < |sets| ==> HasCorePoint(sets[k], category)
    ensures forall k, x {:trigger x in sets[k]} :: 0 <= k < |sets| && x in sets[k] ==> x < |locs| && category[x] != Noise
    ensures forall x :: 0 <= x < |locs| && category[x] != Noise ==> exists k :: 0 <= k < |sets| && x in sets[k]
  {
    forall k | 0 <= k < |sets| ensures HasCorePoint(sets[k], category) {
      var x :| x in comps[k];
      assert x in sets[k];
    }
    forall k, x | 0 <= k < |sets| && x in sets[k] ensures x < |locs| && category[x] != Noise {
      if x in comps[k] {
        assert x < |category| && category[x] == Core;
      }
    }
    forall x | 0 <= x < |locs| && category[x] != Noise ensures exists k :: 0 <= k < |sets| && x in sets[k] {
      if category[x] == Core {
        var k :| 0 <= k < |comps| && x in comps[k];
        assert x in sets[k];
      } else {
        assert x in dpList && category[x] == Border;
        var k := FirstHost(comps, x, locs, category, eps);
        assert x in sets[k];
      }
    }
  }

  lemma ClustersDisjoint(locs: seq<int>, category: seq<Category>, eps: int,
                         adj: seq<seq<nat>>, dpList: seq<nat>,
                         comps: seq<set<nat>>, sets: seq<set<nat>>)
    requires StagesAgree(locs, category, eps, adj, dpList, comps, sets)
    ensures forall k, l :: 0 <= k < l < |sets| ==> sets[k] !! sets[l]
  {
  }

  lemma {:induction false} ClustersConnectedAndFirst(locs: seq<int>, category: seq<Category>, eps: int,
                                                     adj: seq<seq<nat>>, dpList: seq<nat>,
                                                     comps: seq<set<nat>>, sets: seq<set<nat>>)
    requires StagesAgree(locs, category, eps, adj, dpList, comps, sets)
    ensures forall k, x, y ::
      (0 <= k < |sets| && x in sets[k] && 0 <= x < |locs| && category[x] == Core &&
       0 <= y < |locs| && category[y] == Core) ==> (y in sets[k] <==> Reachable(adj, x, y))
    ensures forall k, x :: 0 <= k < |sets| && x in sets[k] && x < |locs| && category[x] == Border ==>
      FirstHost(sets, x, locs, category, eps) == k
  {
    forall k, x, y | 0 <= k < |sets| && x in sets[k] && 0 <= x < |locs| && category[x] == Core &&
                     0 <= y < |locs| && category[y] == Core
      ensures y in sets[k] <==> Reachable(adj, x, y)
    {
      assert x in comps[k];
      ComponentIsReachSet(adj, category, comps, k, x, y);
    }
    forall k, x | 0 <= k < |sets| && x in sets[k] && x < |locs| && category[x] == Border
      ensures FirstHost(sets, x, locs, category, eps) == k
    {
      FirstHostCoreOnly(sets, comps, x, locs, category, eps);
    }
  }

  /** The stages together produce a clustering: the component list and the border
      attachment combine into the sets IsClustering describes. */
  lemma {:induction false} ClusteringFromStages(locs: seq<int>, category: seq<Category>, eps: int,
                                                adj: seq<seq<nat>>, dpList: seq<nat>,
                                                comps: seq<set<nat>>, sets: seq<set<nat>>)
    requires StagesAgree(locs, category, eps, adj, dpList, comps, sets)
    ensures IsClustering(locs, category, eps, adj, sets)
  {
    ClustersHoldClusteredPoints(locs, category, eps, adj, dpList, comps, sets);
    ClustersDisjoint(locs, category, eps, adj, dpList, comps, sets);
    ClustersConnectedAndFirst(locs, category, eps, adj, dpList, comps, sets);
  }

  /** The working list of points, in input order. */
  method AllPoints(n: nat) returns (dpList: seq<nat>)
    ensures |dpList| == n && Distinct(dpList)
    ensures forall k :: 0 <= k < |dpList| ==> dpList[k] == k
    ensures forall x :: x in dpList <==> 0 <= x < n
  {
    dpList := [];
    for i := 0 to n
      invariant |dpList| == i && forall k :: 0 <= k < i ==> dpList[k] == k
    {
      dpList := dpList + [i];
    }
    forall x | 0 <= x < n ensures x in dpList {
      assert dpList[x] == x;
    }
  }

  /** dim_1_dbscan: cluster the locations and return one (smallest, largest) pair per
      cluster, together with the clusters themselves. The ghost result is the CORE
      graph the component search ran on. */
  method Dim1Dbscan(dataList: seq<int>, eps: int, nhoodSize: int)
    returns (clusterList: seq<(int, int)>, setList: seq<set<nat>>, ghost graph: seq<seq<nat>>)
    ensures IsCoreGraphOf(dataList, Categories(dataList, eps, nhoodSize), eps, graph)
    ensures IsClustering(dataList, Categories(dataList, eps, nhoodSize), eps, graph, setList)
    ensures |clusterList| == |setList|
    ensures forall k :: 0 <= k < |setList| ==>
      IsBounds(setList[k], dataList, clusterList[k].0, clusterList[k].1)
  {
    var locs := dataList;
    ghost var cats := Categories(locs, eps, nhoodSize);
    var dpList := AllPoints(|locs|);
    var distanceList := BuildDistanceLists(locs);
    var category := LabelPoints(locs, distanceList, eps, nhoodSize);
    dpList := RemoveNoise(dpList, category);
    assert forall k :: 0 <= k < |dpList| ==> dpList[k] in dpList;
    forall x | 0 <= x < |locs| && category[x] == Border ensures NearCore(locs, cats, eps, x) {
      NearCoreIsCoreNeighbour(locs, eps, nhoodSize, cats, x);
    }
    var adjacency := BuildGraph(locs, dpList, distanceList, category, eps);
    graph := adjacency[..];
    var color := new Color[|locs|](_ => White);
    var comps := IdentifyConnectedComponents(dpList, category, adjacency, color);
    setList := AttachBorders(dpList, comps, locs, category[..], eps);
    ClusteringFromStages(locs, cats, eps, graph, dpList, comps, setList);
    clusterList := GapIntervals(setList, locs);
  }
}
