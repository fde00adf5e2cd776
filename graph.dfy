/** Paths and reachability in a graph given as per-point adjacency lists. */
module Graph {

  /** p is a walk of at least one point in which each step follows an adjacency list. */
  ghost predicate IsPath(adj: seq<seq<nat>>, p: seq<nat>)
  {
    && |p| >= 1
    && (forall k :: 0 <= k < |p| ==> p[k] < |adj|)
    && (forall k :: 0 <= k < |p| - 1 ==> p[k + 1] in adj[p[k]])
  }

  ghost predicate Reachable(adj: seq<seq<nat>>, x: nat, y: nat)
  {
    exists p :: IsPath(adj, p) && p[0] == x && p[|p| - 1] == y
  }

  /** Every edge leads to a point of the graph and has its reverse edge. */
  ghost predicate Symmetric(adj: seq<seq<nat>>)
  {
    forall x, y :: 0 <= x < |adj| && y in adj[x] ==> y < |adj| && x in adj[y]
  }

  /** No edge leaves s. */
  ghost predicate Closed(adj: seq<seq<nat>>, s: set<nat>)
  {
    forall x, y :: x in s && x < |adj| && y in adj[x] ==> y in s
  }

  lemma ReachRefl(adj: seq<seq<nat>>, x: nat)
    requires x < |adj|
    ensures Reachable(adj, x, x)
  {
    assert IsPath(adj, [x]);
  }

  /** A reachable point's neighbours are reachable. */
  lemma ReachStep(adj: seq<seq<nat>>, x: nat, y: nat, z: nat)
    requires Reachable(adj, x, y) && y < |adj| && z in adj[y] && z < |adj|
    ensures Reachable(adj, x, z)
  {
    var p :| IsPath(adj, p) && p[0] == x && p[|p| - 1] == y;
    var q := p + [z];
    assert q[|p| - 1] == y;
    assert IsPath(adj, q);
  }

  lemma ReverseIsPath(adj: seq<seq<nat>>, p: seq<nat>)
    requires Symmetric(adj) && IsPath(adj, p)
    ensures IsPath(adj, Reverse(p)) && Reverse(p)[0] == p[|p| - 1] && Reverse(p)[|p| - 1] == p[0]
  {
  }

  function Reverse(p: seq<nat>): (r: seq<nat>)
    ensures |r| == |p|
    ensures forall k :: 0 <= k < |p| ==> r[k] == p[|p| - 1 - k]
  {
    seq(|p|, k requires 0 <= k < |p| => p[|p| - 1 - k])
  }

  /** In a symmetric graph reachability goes both ways. */
  lemma ReachSym(adj: seq<seq<nat>>, x: nat, y: nat)
    requires Symmetric(adj) && Reachable(adj, x, y)
    ensures Reachable(adj, y, x)
  {
    var p :| IsPath(adj, p) && p[0] == x && p[|p| - 1] == y;
    ReverseIsPath(adj, p);
  }

  lemma ReachTrans(adj: seq<seq<nat>>, x: nat, y: nat, z: nat)
    requires Reachable(adj, x, y) && Reachable(adj, y, z)
    ensures Reachable(adj, x, z)
  {
    var p :| IsPath(adj, p) && p[0] == x && p[|p| - 1] == y;
    var q :| IsPath(adj, q) && q[0] == y && q[|q| - 1] == z;
    var pq := p + q[1..];
    assert pq[|p| - 1] == y;
    forall k | 0 <= k < |pq| - 1 ensures pq[k + 1] in adj[pq[k]] {
      if k < |p| - 1 {
        assert pq[k] == p[k] && pq[k + 1] == p[k + 1];
      } else {
        assert pq[k] == q[k - |p| + 1] && pq[k + 1] == q[k - |p| + 2];
      }
    }
    assert IsPath(adj, pq);
  }

  /** Nothing outside a closed set is reachable from inside it. */
  lemma {:induction false} ClosedPath(adj: seq<seq<nat>>, s: set<nat>, p: seq<nat>)
    requires Closed(adj, s) && IsPath(adj, p) && p[0] in s
    ensures p[|p| - 1] in s
  {
    if |p| > 1 {
      var q := p[..|p| - 1];
      assert IsPath(adj, q);
      ClosedPath(adj, s, q);
      assert p[|p| - 1] in adj[p[|p| - 2]];
    }
  }

  lemma ClosedReach(adj: seq<seq<nat>>, s: set<nat>, x: nat, y: nat)
    requires Closed(adj, s) && x in s && Reachable(adj, x, y)
    ensures y in s
  {
    var p :| IsPath(adj, p) && p[0] == x && p[|p| - 1] == y;
    ClosedPath(adj, s, p);
  }
}
