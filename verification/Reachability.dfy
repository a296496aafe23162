/** Paths in a directed graph given by adjacency lists, and its strongly connected components. */
module Reachability {

  ghost predicate Digraph(adj: seq<seq<nat>>) {
    forall u, k :: 0 <= u < |adj| && 0 <= k < |adj[u]| ==> adj[u][k] < |adj|
  }

  /** `p` lists the nodes after `u` on a path from `u` to `v`. */
  ghost predicate Path(adj: seq<seq<nat>>, u: nat, p: seq<nat>, v: nat)
    decreases |p|
  {
    if p == [] then u == v else u < |adj| && p[0] in adj[u] && Path(adj, p[0], p[1..], v)
  }

  ghost predicate Reach(adj: seq<seq<nat>>, u: nat, v: nat) { exists p :: Path(adj, u, p, v) }

  lemma {:induction false} PathConcat(adj: seq<seq<nat>>, u: nat, p: seq<nat>, v: nat, q: seq<nat>, w: nat)
    requires Path(adj, u, p, v) && Path(adj, v, q, w)
    ensures Path(adj, u, p + q, w)
    decreases |p|
  {
    if p == [] {
      assert p + q == q;
    } else {
      assert (p + q)[1..] == p[1..] + q;
      PathConcat(adj, p[0], p[1..], v, q, w);
    }
  }

  lemma ReachTrans(adj: seq<seq<nat>>, u: nat, v: nat, w: nat)
    requires Reach(adj, u, v) && Reach(adj, v, w)
    ensures Reach(adj, u, w)
  {
    var p :| Path(adj, u, p, v);
    var q :| Path(adj, v, q, w);
    PathConcat(adj, u, p, v, q, w);
  }

  lemma ReachSelf(adj: seq<seq<nat>>, u: nat)
    ensures Reach(adj, u, u)
  {
    assert Path(adj, u, [], u);
  }

  lemma ReachEdge(adj: seq<seq<nat>>, u: nat, v: nat)
    requires u < |adj| && v in adj[u]
    ensures Reach(adj, u, v)
  {
    assert [v][1..] == [];
    assert Path(adj, u, [v], v);
  }

  /** A path cannot raise a rank that no edge raises. */
  lemma {:induction false} PathRank(adj: seq<seq<nat>>, rank: seq<int>, u: nat, p: seq<nat>, v: nat)
    requires Digraph(adj) && |rank| == |adj| && u < |adj| && Path(adj, u, p, v)
    requires forall x, y :: 0 <= x < |adj| && y in adj[x] ==> rank[y] <= rank[x]
    ensures v < |adj| && rank[v] <= rank[u]
    decreases |p|
  {
    if p != [] {
      PathRank(adj, rank, p[0], p[1..], v);
    }
  }

  // ---- Components ----------------------------------------------------------------------------------------------

  ghost predicate InComponent(scc: seq<seq<nat>>, v: nat, i: nat) { i < |scc| && v in scc[i] }

  ghost predicate InSome(scc: seq<seq<nat>>, v: nat) { exists i: nat :: InComponent(scc, v, i) }

  /** Every node in exactly one component, once, and no component empty. */
  ghost predicate Partition(adj: seq<seq<nat>>, scc: seq<seq<nat>>) {
    && (forall i :: 0 <= i < |scc| ==> scc[i] != [])
    && (forall v: nat :: v < |adj| ==> InSome(scc, v))
    && (forall i, a :: 0 <= i < |scc| && 0 <= a < |scc[i]| ==> scc[i][a] < |adj|)
    && (forall i, a, b :: 0 <= i < |scc| && 0 <= a < b < |scc[i]| ==> scc[i][a] != scc[i][b])
    && (forall i, j, v :: 0 <= i < j < |scc| && v in scc[i] ==> v !in scc[j])
  }

  /** Every node in exactly one component; two nodes share one iff each reaches the other. */
  ghost predicate IsScc(adj: seq<seq<nat>>, scc: seq<seq<nat>>) {
    && Partition(adj, scc)
    && forall i: nat, j: nat, u: nat, v: nat :: InComponent(scc, u, i) && InComponent(scc, v, j) ==>
         (i == j <==> Reach(adj, u, v) && Reach(adj, v, u))
  }

  /** Edges never lead to a component with a larger index. */
  ghost predicate ReverseTopological(adj: seq<seq<nat>>, scc: seq<seq<nat>>) {
    forall i: nat, j: nat, u: nat, v: nat :: InComponent(scc, u, i) && InComponent(scc, v, j) && u < |adj| && v in adj[u] ==> j <= i
  }

  ghost predicate Topological(adj: seq<seq<nat>>, scc: seq<seq<nat>>) {
    forall i: nat, j: nat, u: nat, v: nat :: InComponent(scc, u, i) && InComponent(scc, v, j) && u < |adj| && v in adj[u] ==> i <= j
  }

  function Reversed<T>(s: seq<T>): seq<T> { seq(|s|, i requires 0 <= i < |s| => s[|s| - 1 - i]) }
}
