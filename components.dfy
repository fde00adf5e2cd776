/** Stage 5: find the connected components of the graph over CORE points with an
    iterative depth-first search that keeps an explicit stack and colours points
    GREY as they are discovered. */
module Components {
  import opened Points
  import opened Graph

  /** The adjacency lists the search is given: edges join two distinct CORE points
      and always come with their reverse edge. */
  ghost predicate CoreGraph(adj: seq<seq<nat>>, category: seq<Category>)
  {
    && |adj| == |category|
    && Symmetric(adj)
    && (forall x, y {:trigger y in adj[x]} :: 0 <= x < |adj| && y in adj[x] ==>
         y < |adj| && y != x && category[x] == Core && category[y] == Core)
  }

  /** The list of sets the search returns: non-empty, pairwise disjoint sets of CORE
      points that together hold every CORE point; each is closed under adjacency
      and connected. */
  ghost predicate IsComponentList(adj: seq<seq<nat>>, category: seq<Category>, sets: seq<set<nat>>)
  {
    && (forall k :: 0 <= k < |sets| ==> sets[k] != {})
    && (forall k, l :: 0 <= k < l < |sets| ==> sets[k] !! sets[l])
    && (forall k, x {:trigger x in sets[k]} :: 0 <= k < |sets| && x in sets[k] ==>
         x < |category| && category[x] == Core)
    && (forall x :: 0 <= x < |category| && category[x] == Core ==> exists k :: 0 <= k < |sets| && x in sets[k])
    && (forall k :: 0 <= k < |sets| ==> Closed(adj, sets[k]))
    && (forall k, x, y :: 0 <= k < |sets| && x in sets[k] && y in sets[k] ==> Reachable(adj, x, y))
  }

  /** Each set of a component list is exactly the set of points reachable from any
      one of its members: a connected component of the graph. */
  lemma ComponentIsReachSet(adj: seq<seq<nat>>, category: seq<Category>, sets: seq<set<nat>>,
                            k: nat, x: nat, y: nat)
    requires IsComponentList(adj, category, sets) && k < |sets| && x in sets[k]
    ensures y in sets[k] <==> Reachable(adj, x, y)
  {
    if Reachable(adj, x, y) {
      ClosedReach(adj, sets[k], x, y);
    }
  }

  ghost function WhiteSet(color: seq<Color>): (r: set<nat>)
  {
    set x: nat | x < |color| && color[x] == White
  }

  /** The points of s that are WHITE in `color`. */
  ghost function WhiteAmong(s: seq<nat>, color: seq<Color>): (r: set<nat>)
  {
    set y | y in s && y < |color| && color[y] == White
  }

  /** The loop over a popped point's adjacency list: every WHITE neighbour is
      coloured GREY, pushed and added to the current set. */
  method PushWhiteNeighbours(point: nat, adjacency: array<seq<nat>>, color: array<Color>,
                             stack: seq<nat>, current: set<nat>)
    returns (stack': seq<nat>, current': set<nat>)
    requires point < adjacency.Length == color.Length
    requires forall y :: y in adjacency[point] ==> y < color.Length
    modifies color
    ensures forall x :: 0 <= x < color.Length ==>
      color[x] == if x in adjacency[point] then Grey else old(color[x])
    ensures |stack'| >= |stack| && stack'[..|stack|] == stack
    ensures forall y :: y in stack'[|stack|..] ==> y in adjacency[point]
    ensures forall y :: y in adjacency[point] && old(color[y]) == White ==> y in stack'
    ensures current' == current + WhiteAmong(adjacency[point], old(color[..]))
    ensures WhiteSet(color[..]) <= old(WhiteSet(color[..]))
    ensures |stack'| > |stack| ==> WhiteSet(color[..]) < old(WhiteSet(color[..]))
    ensures |stack'| == |stack| ==> color[..] == old(color[..])
  {
    ghost var before := color[..];
    var row := adjacency[point];
    stack', current' := stack, current;
    for a := 0 to |row|
      invariant |stack'| >= |stack| && stack'[..|stack|] == stack
      invariant forall y :: y in stack'[|stack|..] ==> y in row
      invariant forall y :: y in row[..a] && y < |before| && before[y] == White ==> y in stack'
      invariant current' == current + WhiteAmong(row[..a], before)
      invariant forall x :: 0 <= x < color.Length ==>
        color[x] == if x in row[..a] then Grey else before[x]
      invariant WhiteSet(color[..]) <= WhiteSet(before)
      invariant |stack'| > |stack| ==> WhiteSet(color[..]) < WhiteSet(before)
      invariant |stack'| == |stack| ==> color[..] == before
    {
      var y := row[a];
      assert y in adjacency[point];
      assert row[..a + 1] == row[..a] + [y];
      if color[y] == White {
        assert y in WhiteSet(color[..]);
        color[y] := Grey;
        stack' := stack' + [y];
        current' := current' + {y};
      }
      assert WhiteAmong(row[..a + 1], before) == WhiteAmong(row[..a], before)
        + (if before[y] == White then {y} else {});
    }
    assert row[..|row|] == row;
  }

  /** The stack is seeded with the root's adjacency list, skipping the root itself. */
  method SeedStack(root: nat, row: seq<nat>) returns (stack: seq<nat>)
    ensures forall y :: y in stack <==> y in row && y != root
    ensures |stack| <= |row|
  {
    stack := [];
    for a := 0 to |row|
      invariant forall y :: y in stack <==> y in row[..a] && y != root
      invariant |stack| <= a
    {
      assert row[..a + 1] == row[..a] + [row[a]];
      if row[a] == root {
        continue;
      }
      stack := stack + [row[a]];
    }
    assert row[..|row|] == row;
  }

  /** What holds between two pops of the search that grows one component from root:
      the current set holds CORE points reachable from root and is disjoint from the
      earlier components (`visited`); GREY marks exactly those two groups; every
      stacked point is a reachable CORE point, already in the set or still WHITE;
      and every neighbour of a set member that is not on the stack is in the set. */
  ghost predicate ExploreInv(adj: seq<seq<nat>>, category: seq<Category>, root: nat,
                             visited: set<nat>, current: set<nat>, stack: seq<nat>, color: seq<Color>)
  {
    && |color| == |adj| == |category|
    && root in current && current !! visited
    && (forall x :: x in current ==> x < |adj| && category[x] == Core && Reachable(adj, root, x))
    && (forall x :: 0 <= x < |adj| ==> (color[x] == Grey <==> x in visited || x in current))
    && (forall y :: y in stack ==>
          y < |adj| && category[y] == Core && Reachable(adj, root, y) && (y in current || color[y] == White))
    && (forall x :: x in current ==> x in stack || forall z :: z in adj[x] ==> z in current || z in stack)
  }

  /** One pop of the search keeps ExploreInv: `point` is popped from stack0 and, when
      WHITE, joins the set (giving current1 and color1); then its WHITE neighbours
      are coloured GREY, pushed and added (giving current2, stack2 and color2). */
  lemma {:induction false} ExploreStep(adj: seq<seq<nat>>, category: seq<Category>, root: nat,
                                       visited: set<nat>, point: nat,
                                       current0: set<nat>, stack0: seq<nat>, color0: seq<Color>,
                                       current1: set<nat>, color1: seq<Color>,
                                       current2: set<nat>, stack2: seq<nat>, color2: seq<Color>)
    requires CoreGraph(adj, category) && Closed(adj, visited)
    requires ExploreInv(adj, category, root, visited, current0, stack0, color0)
    requires |stack0| > 0 && point == stack0[|stack0| - 1] && point < |color0|
    requires color0[point] == White ==> current1 == current0 + {point} && color1 == color0[point := Grey]
    requires color0[point] != White ==> current1 == current0 && color1 == color0
    requires |color2| == |adj|
    requires forall x :: 0 <= x < |adj| ==> color2[x] == if x in adj[point] then Grey else color1[x]
    requires |stack2| >= |stack0| - 1 && stack2[..|stack0| - 1] == stack0[..|stack0| - 1]
    requires forall y :: y in stack2[|stack0| - 1..] ==> y in adj[point]
    requires forall y :: y in adj[point] && y < |color1| && color1[y] == White ==> y in stack2
    requires current2 == current1 + WhiteAmong(adj[point], color1)
    ensures ExploreInv(adj, category, root, visited, current2, stack2, color2)
  {
    var n := |stack0| - 1;
    assert point in stack0;
    assert point in current1;
    forall y | y in stack0 ensures y == point || y in stack2 {
      var k :| 0 <= k < |stack0| && stack0[k] == y;
      if k < n {
        assert stack2[..n][k] == y;
      }
    }
    forall z | z in adj[point] ensures z in current2 && z !in visited && Reachable(adj, root, z) {
      assert point in adj[z];
      ReachStep(adj, root, point, z);
    }
    forall y | y in stack2
      ensures y < |adj| && category[y] == Core && Reachable(adj, root, y) && (y in current2 || color2[y] == White)
    {
      var k :| 0 <= k < |stack2| && stack2[k] == y;
      if k < n {
        assert stack0[..n][k] == y;
        assert y in stack0;
        assert y in current1 || color1[y] == White;
        if y !in adj[point] {
          assert color2[y] == color1[y];
        }
        assert y in current2 || color2[y] == White;
      } else {
        assert stack2[n..][k - n] == y;
        assert y in adj[point];
        assert y in current2;
      }
      assert Reachable(adj, root, y);
      assert category[y] == Core;
    }
    forall x | x in current2 ensures x < |adj| && category[x] == Core && Reachable(adj, root, x) {
      if x !in current0 && x != point {
        assert x in adj[point];
      }
    }
    forall x | x in current2 ensures x in stack2 || forall z :: z in adj[x] ==> z in current2 || z in stack2 {
      if x in current0 && x != point {
        if x !in stack0 {
          forall z | z in adj[x] ensures z in current2 || z in stack2 {
            assert z in current0 || z in stack0;
          }
        }
      } else if x != point {
        assert x in adj[point] && color1[x] == White;
      }
    }
  }

  /** Grow one component from a WHITE CORE root: colour it GREY, seed the stack with
      its neighbours, then pop points until the stack is empty, adding each WHITE
      popped point and pushing the WHITE neighbours of every popped point. */
  method ExploreComponent(root: nat, adjacency: array<seq<nat>>, category: array<Category>,
                          color: array<Color>, ghost visited: set<nat>)
    returns (current: set<nat>)
    requires CoreGraph(adjacency[..], category[..]) && color.Length == adjacency.Length
    requires root < color.Length && category[root] == Core && color[root] == White
    requires forall x :: 0 <= x < color.Length ==> (color[x] == Grey <==> x in visited)
    requires Closed(adjacency[..], visited)
    modifies color
    ensures root in current && current !! visited
    ensures forall x :: x in current ==> x < color.Length && category[x] == Core
    ensures forall x :: 0 <= x < color.Length ==> (color[x] == Grey <==> x in visited || x in current)
    ensures Closed(adjacency[..], current)
    ensures forall x, y :: x in current && y in current ==> Reachable(adjacency[..], x, y)
  {
    ghost var adj := adjacency[..];
    current := {root};
    color[root] := Grey;
    ReachRefl(adj, root);
    assert adjacency[root] == adj[root];
    var stack: seq<nat> := SeedStack(root, adjacency[root]);
    forall y | y in stack ensures Reachable(adj, root, y) {
      ReachStep(adj, root, root, y);
    }
    assert ExploreInv(adj, category[..], root, visited, current, stack, color[..]);
    while |stack| != 0
      invariant ExploreInv(adj, category[..], root, visited, current, stack, color[..])
      decreases WhiteSet(color[..]), |stack|
    {
      ghost var stack0, current0, color0 := stack, current, color[..];
      var point := stack[|stack| - 1];
      assert point in stack;
      stack := stack[..|stack| - 1];
      if color[point] == White {
        current := current + {point};
        color[point] := Grey;
        assert point in WhiteSet(color0) && point !in WhiteSet(color[..]);
      }
      ghost var current1, color1 := current, color[..];
      assert adjacency[point] == adj[point];
      stack, current := PushWhiteNeighbours(point, adjacency, color, stack, current);
      ExploreStep(adj, category[..], root, visited, point, current0, stack0, color0,
                  current1, color1, current, stack, color[..]);
    }
    forall x, y | x in current && y in current ensures Reachable(adj, x, y) {
      ReachSym(adj, root, x);
      ReachTrans(adj, x, root, y);
    }
  }

  /** What holds between two points of the working list in the component search:
      GREY marks exactly the points of the components found so far (`visited`), whose
      union is closed under adjacency; `owner` names each visited point's component;
      and the components are non-empty, pairwise disjoint, CORE-only, closed and
      connected. */
  ghost predicate SearchInv(adj: seq<seq<nat>>, category: seq<Category>, color: seq<Color>,
                            visited: set<nat>, owner: map<nat, nat>, setList: seq<set<nat>>)
  {
    && |color| == |adj| == |category|
    && (forall x :: 0 <= x < |color| ==> (color[x] == Grey <==> x in visited))
    && Closed(adj, visited)
    && (forall x :: x in visited ==> x in owner && owner[x] < |setList| && x in setList[owner[x]])
    && (forall k, x {:trigger x in setList[k]} :: 0 <= k < |setList| && x in setList[k] ==>
          x in visited && x < |category| && category[x] == Core)
    && (forall k :: 0 <= k < |setList| ==> setList[k] != {})
    && (forall k, l :: 0 <= k < l < |setList| ==> setList[k] !! setList[l])
    && (forall k :: 0 <= k < |setList| ==> Closed(adj, setList[k]))
    && (forall k, x, y :: 0 <= k < |setList| && x in setList[k] && y in setList[k] ==> Reachable(adj, x, y))
  }

  /** Appending a component that ExploreComponent grew keeps SearchInv. */
  lemma {:induction false} AddComponent(adj: seq<seq<nat>>, category: seq<Category>,
                                        color0: seq<Color>, color1: seq<Color>,
                                        visited: set<nat>, owner: map<nat, nat>,
                                        setList: seq<set<nat>>, current: set<nat>)
    requires SearchInv(adj, category, color0, visited, owner, setList)
    requires |color1| == |color0| && current != {} && current !! visited
    requires forall x :: x in current ==> x < |color1| && category[x] == Core
    requires forall x :: 0 <= x < |color1| ==> (color1[x] == Grey <==> x in visited || x in current)
    requires Closed(adj, current)
    requires forall x, y :: x in current && y in current ==> Reachable(adj, x, y)
    ensures SearchInv(adj, category, color1, visited + current,
                      owner + map x | x in current :: |setList|, setList + [current])
  {
    var setList' := setList + [current];
    assert forall k :: 0 <= k < |setList| ==> setList'[k] == setList[k];
    assert setList'[|setList|] == current;
    forall k, x | 0 <= k < |setList'| && x in setList'[k]
      ensures x in visited + current && x < |category| && category[x] == Core
    {
      if k == |setList| {
        assert x in current;
      } else {
        assert x in setList[k];
      }
    }
  }

  /** The component search: visit the working list in order, and start a new
      component at every CORE point that is still WHITE. */
  method IdentifyConnectedComponents(dpList: seq<nat>, category: array<Category>,
                                     adjacency: array<seq<nat>>, color: array<Color>)
    returns (setList: seq<set<nat>>)
    requires CoreGraph(adjacency[..], category[..]) && color.Length == adjacency.Length
    requires forall k :: 0 <= k < |dpList| ==> dpList[k] < color.Length
    requires forall x :: 0 <= x < color.Length && category[x] == Core ==> x in dpList
    requires forall x :: 0 <= x < color.Length ==> color[x] == White
    modifies color
    ensures IsComponentList(adjacency[..], category[..], setList)
    ensures forall x :: 0 <= x < color.Length ==> color[x] == if category[x] == Core then Grey else White
  {
    ghost var adj := adjacency[..];
    setList := [];
    ghost var visited: set<nat> := {};
    ghost var owner: map<nat, nat> := map[];
    for t := 0 to |dpList|
      invariant SearchInv(adj, category[..], color[..], visited, owner, setList)
      invariant forall k :: 0 <= k < t && category[dpList[k]] == Core ==> color[dpList[k]] == Grey
    {
      var dp := dpList[t];
      if category[dp] != Core {
        continue;
      }
      if color[dp] != White {
        continue;
      }
      ghost var color0 := color[..];
      var current := ExploreComponent(dp, adjacency, category, color, visited);
      AddComponent(adj, category[..], color0, color[..], visited, owner, setList, current);
      owner := owner + map x | x in current :: |setList|;
      visited := visited + current;
      setList := setList + [current];
    }
    forall x | 0 <= x < color.Length && category[x] == Core
      ensures exists k :: 0 <= k < |setList| && x in setList[k]
    {
      var k :| 0 <= k < |dpList| && dpList[k] == x;
      assert x in visited;
    }
  }
}
