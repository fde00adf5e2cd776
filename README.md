# One-dimensional DBSCAN, modelled in Dafny

`pydbscan.py` clusters a list of numeric locations with DBSCAN. A point is CORE
when at least `nhood_size` points, itself included, lie within `eps` of it. A
non-CORE point with a CORE point within `eps` is BORDER. Every other point is
NOISE. `dim_1_dbscan` runs seven stages in order over a list of point records:

1. It builds a distance list for every point.
2. It labels points CORE, then BORDER, then NOISE.
3. It drops NOISE points from the working list.
4. It links CORE points within `eps` of each other.
5. It finds connected components with a stack-based depth-first search.
6. It attaches each BORDER point to the first component that holds a CORE point
   within `eps` of it.
7. It reduces every cluster to a `(smallest, largest)` pair.

The model keeps that imperative shape. A point is an index into `locs: seq<int>`.
The fields the source updates in place (`category`, `color`, `distance_list`,
`adjacency_list`) are arrays indexed by point. Every stage is a method with loops
and invariants. Each method is proved against the density rules in `Points`:

- `Neighbourhood` is the set of points within `eps`.
- `IsCore` says a neighbourhood has at least `nhood_size` points.
- `Classification` gives the category a point should receive.

Module layout:

- `Points`: entities, distance and the density rules.
- `DistanceLists`: stage 1.
- `Classify`: stage 2.
- `NoiseRemoval`: stage 3.
- `Adjacency`: stage 4.
- `Graph`: paths and reachability.
- `Components`: stage 5.
- `Borders`: `add_border`.
- `Gaps`: stage 7.
- `Dbscan`: the border loop and the whole pipeline.

`Dbscan.Dim1Dbscan` chains all the stages. Its contract says four things:

- The graph it builds is exactly the CORE graph.
- The clusters are non-empty and pairwise disjoint.
- Together the clusters hold exactly the CORE and BORDER points. Their CORE
  points are exactly the connected components of the CORE graph. Each BORDER
  point sits in the first cluster that hosts it.
- Each output pair is `(min(999999999999, smallest location), max(0, largest location))`
  over its cluster, in cluster order.

## Model

| member | source | states |
|---|---|---|
| `Points.DistSymmetric` | pydbscan.py:97-101 | The absolute difference is symmetric and zero from a point to itself. It is zero exactly when the two locations are equal. |
| `Points.DistanceListFacts` | pydbscan.py:93-107 | A distance list holds one entry per input point with that point's true distance. The points are distinct. The list contains the point itself at distance 0 and starts at distance 0. |
| `Points.CoreMonotone` | pydbscan.py:130-140 | Widening `eps` never turns a CORE point into a non-CORE one. |
| `Points.ClusteredMonotone` | pydbscan.py:130-168 | Widening `eps` never turns a CORE or BORDER point into NOISE, and CORE stays CORE. |
| `Points.SmallNeighbourhoodIsCore` | pydbscan.py:130-140 | With `nhood_size` at most 1 and `eps >= 0`, every point is CORE, because its neighbourhood includes itself. |
| `Points.IsolatedPairIsNoise` | pydbscan.py:130-168 | Two points farther apart than `eps`, with `nhood_size` 2, are both NOISE. |
| `DistanceLists.SortByDistance` | pydbscan.py:107 | The result is sorted by distance and is a permutation (same multiset) of the input. |
| `DistanceLists.BuildDistanceLists` | pydbscan.py:93-107 | A fresh array is returned. Every point's list is a sorted permutation of its distances to all points, itself included. |
| `Classify.WithinAll` | pydbscan.py:132-135 | The points counted over a whole distance list are exactly the point's `eps`-neighbourhood. |
| `Classify.ScanCore` | pydbscan.py:131-140 | The scan that counts entries within `eps` and breaks once the count reaches `nhood_size` answers exactly `IsCore`. Stopping early does not change the answer. |
| `Classify.LabelCore` | pydbscan.py:130-140 | Exactly the points satisfying the density rule become CORE. Every other label is unchanged. |
| `Classify.ScanBorder` | pydbscan.py:153-160 | The scan answers true exactly when some CORE-labelled point lies within `eps`. |
| `Classify.LabelBorder` | pydbscan.py:145-160 | CORE points stay CORE. A non-CORE point becomes BORDER exactly when a CORE point lies within `eps`. Other labels are unchanged. |
| `Classify.LabelNoise` | pydbscan.py:164-168 | Every UNCATEGORIZED point becomes NOISE, other labels are unchanged, and no point is left UNCATEGORIZED. |
| `NoiseRemoval.Without` | pydbscan.py:179-186 | The filtered list holds exactly the elements of the input that are not dropped, and is no longer than the input. |
| `NoiseRemoval.RemoveFirst` | pydbscan.py:186 | `list.remove` deletes one occurrence: the length drops by one and the multiset loses exactly that element. |
| `NoiseRemoval.RemoveFirstWithout` | pydbscan.py:185-186 | On a list of distinct points, removing a kept point equals filtering it out as well. |
| `NoiseRemoval.FlagNoise` | pydbscan.py:179-182 | The flagged list has no duplicates and holds exactly the NOISE points of the working list. |
| `NoiseRemoval.RemoveEach` | pydbscan.py:185-186 | Removing each flagged point in turn leaves the working list filtered by the flagged set, in its original order. |
| `NoiseRemoval.RemoveNoise` | pydbscan.py:179-186 | The working list keeps exactly its non-NOISE points, in their original relative order, without duplicates. |
| `Adjacency.CoreLinksPrefix` | pydbscan.py:200-213 | The points appended while scanning a prefix of a distance list are those of its linking entries, each once. |
| `Adjacency.CoreLinksComplete` | pydbscan.py:198-213 | The full list appended for a point is exactly the other CORE points within `eps`, each once, never the point itself. |
| `Adjacency.LinkOne` | pydbscan.py:200-213 | One CORE point's scan appends its linking entries in distance-list order and changes no other adjacency list. |
| `Adjacency.LinkCore` | pydbscan.py:198-220 | Each CORE point of the working list gets its links appended. BORDER points keep their lists. The NOISE `exit()` branch is unreachable because no NOISE point remains. |
| `Components.ComponentIsReachSet` | pydbscan.py:287-334 | In a component list, each set is exactly the set of points reachable from any of its members, so it is a connected component. |
| `Components.SeedStack` | pydbscan.py:309-318 | The seeded stack holds exactly the root's neighbours other than the root itself. |
| `Components.PushWhiteNeighbours` | pydbscan.py:328-332 | Every WHITE neighbour turns GREY, is pushed and joins the current set. Nothing else changes colour. The WHITE set shrinks exactly when something is pushed. |
| `Components.ExploreStep` | pydbscan.py:321-332 | One pop-and-push round keeps the search invariant. The set holds reachable CORE points, disjoint from earlier components. GREY marks exactly the visited points. Stacked points are reachable and either in the set or WHITE. Neighbours of set members are in the set or on the stack. |
| `Components.ExploreComponent` | pydbscan.py:304-332 | Growing from a WHITE CORE root terminates (the WHITE set shrinks, or the stack does). The set it returns holds the root, is disjoint from earlier components, has only CORE members, is closed under adjacency and is connected. GREY marks exactly the old and new members. |
| `Components.AddComponent` | pydbscan.py:304-307 | Appending a freshly explored component keeps the list invariant. The sets stay non-empty, pairwise disjoint, closed under adjacency and connected. GREY marks exactly the points of the listed sets. |
| `Components.IdentifyConnectedComponents` | pydbscan.py:287-334 | The returned sets are non-empty and pairwise disjoint. They hold only CORE points and together every CORE point. Each is closed under adjacency and connected. Every CORE point ends GREY and every other point stays WHITE. |
| `Borders.FirstHost` | pydbscan.py:341-345 | Gives the index of the first set holding a CORE point within `eps` of the border point, or the list length when no set does. |
| `Borders.ScanSet` | pydbscan.py:342-345 | Scanning a set in any order finds a member exactly when the set holds a CORE point within `eps`. |
| `Borders.AddBorder` | pydbscan.py:339-345 | The border point joins the first hosting set only. Every other set is unchanged. With no host, nothing changes. |
| `Borders.BorderFindsHost` | pydbscan.py:251-253 | When the sets hold every CORE point, a point with a CORE point within `eps` always has a hosting set. |
| `Gaps.SetBounds` | pydbscan.py:262-274 | The running values end as `min(999999999999, smallest location)` and `max(0, largest location)` over the set, whatever the visiting order. |
| `Gaps.GapIntervals` | pydbscan.py:259-283 | There is one pair per set, in list order, each the bounds of its set. |
| `Gaps.BoundsUnique` | pydbscan.py:262-274 | The bounds are determined by the set: no two different pairs satisfy them. |
| `Gaps.BoundsAreRange` | pydbscan.py:262-274 | For a non-empty set with locations in `[0, 999999999999]`, both bounds are attained, so they are the true smallest and largest locations, and `smallest <= largest`. |
| `Gaps.NegativeClusterReportsZero` | pydbscan.py:262-274 | A cluster at locations -5 and -3 reports `(-5, 0)`: the largest value is clamped to 0. |
| `Dbscan.NearCoreIsCoreNeighbour` | pydbscan.py:153-160 | Once CORE labels match the density rule, finding a CORE-labelled point within `eps` means having a core neighbour. |
| `Dbscan.LabelPoints` | pydbscan.py:130-168 | After the three labelling passes, every point carries exactly `Classification`: CORE, BORDER or NOISE, never UNCATEGORIZED. |
| `Dbscan.CoreGraphOf` | pydbscan.py:198-213 | The adjacency built by linking is symmetric, has no self-loops and joins only CORE points. |
| `Dbscan.BuildGraph` | pydbscan.py:198-220 | Linking on empty lists yields the CORE graph. Every CORE point's list is the other CORE points within `eps`, and every other point's list is empty. |
| `Dbscan.FirstHostCoreOnly` | pydbscan.py:341-343 | Only CORE members decide where a border point goes, so border points added earlier do not change later attachments. |
| `Dbscan.AttachStep` | pydbscan.py:251-253 | Handing one more point to the border loop keeps this true: each set is its component plus the BORDER points handled so far whose first host it is. |
| `Dbscan.AttachBorders` | pydbscan.py:251-253 | Every BORDER point of the working list has a host. Afterwards each set is its component plus exactly the BORDER points whose first hosting component it is. |
| `Dbscan.ClustersHoldClusteredPoints` | pydbscan.py:237-253 | Every cluster holds a CORE point and only CORE or BORDER points. Every CORE or BORDER point is in some cluster. |
| `Dbscan.ClustersDisjoint` | pydbscan.py:237-253 | No point is in two clusters, so each CORE or BORDER point is in exactly one. |
| `Dbscan.ClustersConnectedAndFirst` | pydbscan.py:237-253 | A cluster's CORE points are exactly those reachable from any of them. Each BORDER point sits in the first cluster that hosts it. |
| `Dbscan.ClusteringFromStages` | pydbscan.py:237-253 | The component list and the border loop together give a clustering as `IsClustering` defines it. |
| `Dbscan.AllPoints` | pydbscan.py:82-87 | The working list starts as every point once, in input order. |
| `Dbscan.Dim1Dbscan` | pydbscan.py:79-283 | The whole pipeline builds exactly the CORE graph and a clustering of it as above. It returns one bounds pair per cluster, in cluster order. |

## Left out

- Console output (`print` progress lines and the count of removed points) is not modelled.
- The commented-out debugging blocks are not modelled.
- `exit()` in the linking stage is modelled as a branch proved unreachable, not as process termination.
- Locations, `eps` and `nhood_size` are integers, and `Points.Dist` is their exact absolute difference. In the source, `math.fabs` (pydbscan.py:101, 343) returns a double even for integer arguments, so a difference above 2^53 is rounded: for locations [0, 9007199254740993] with eps 9007199254740992 and nhood_size 2 the source sees distance 9007199254740992.0 and makes both points CORE, while the model sees 9007199254740993 and makes both NOISE. The model agrees with the source only while every difference |locs[i] - locs[j]| is at most 2^53 (and for float inputs not at all); IEEE double arithmetic is out of scope.
- The record fields `number_in_neighborhood`, `cluster_identifer`, `member_of_set`, `parent` and `time`, and the colour BLACK, are never read by the source and are not modelled.
- `DistanceLists.SortByDistance`: stated as "sorted by distance and a permutation". The source sorts `(distance, point)` tuples, so ties are broken by comparing point objects, which Python 2 orders by identity. No stage depends on that tie order: the core and border scans, and the adjacency sets, depend only on distances. The insertion sort used here is one admissible order.
- Adjacency lists keep the source's distance-list order. No property depends on that order beyond membership.
- Python set iteration order (`add_border`, the interval pass) is modelled as an arbitrary choice of the next member. The contracts hold for every order.
- Point objects shared between lists are modelled as point indices. The sets that `identify_connected_components` and `add_border` mutate inside `set_list` are modelled as values: a component is appended once it is complete, and `add_border` returns the updated list. The source appends the set first and then fills it through the shared reference, which ends in the same list.
- `Dbscan.Dim1Dbscan` also returns the list of clusters, and the CORE graph as a ghost result, so that its contract can speak about them; the source returns only the interval list.
