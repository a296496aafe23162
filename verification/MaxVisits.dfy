/**
  getMaxVisitableWebpages of python/Strongly-connected-components.py and solve of cpp/Strongly-connected-components.cc:
  the most nodes that one walk can visit, from the components in reverse topological order.
*/
module MaxVisits {
  import opened Reachability
  import opened FiniteSets
  import Tarjan

  /** The nodes a walk visits. */
  ghost function Visits(u: nat, path: seq<nat>): set<nat> { {u} + ElementsOf(path) }

  /** comp[v] is the component of v. */
  ghost predicate Numbered(adj: seq<seq<nat>>, scc: seq<seq<nat>>, comp: seq<nat>) {
    |comp| == |adj| && forall v: nat :: v < |adj| ==> InComponent(scc, v, comp[v])
  }

  ghost predicate Ready(adj: seq<seq<nat>>, scc: seq<seq<nat>>, comp: seq<nat>) {
    Digraph(adj) && IsScc(adj, scc) && ReverseTopological(adj, scc) && Numbered(adj, scc, comp)
  }

  /** An edge that leaves component `i`. */
  ghost predicate Leaves(adj: seq<seq<nat>>, comp: seq<nat>, i: nat, v: nat, w: nat) {
    |comp| == |adj| && v < |adj| && w < |adj| && comp[v] == i && w in adj[v] && comp[w] != i
  }

  /** best[i] is the size of component `i`, or the most that following an edge out of it adds to that. */
  ghost predicate Best(adj: seq<seq<nat>>, scc: seq<seq<nat>>, comp: seq<nat>, best: seq<nat>, i: nat) {
    i < |scc| ==>
      && |best| == |scc| && |scc[i]| <= best[i]
      && (forall v: nat, w: nat :: Leaves(adj, comp, i, v, w) ==> comp[w] < |scc| && |scc[i]| + best[comp[w]] <= best[i])
      && (best[i] == |scc[i]| ||
          exists v: nat, w: nat :: Leaves(adj, comp, i, v, w) && comp[w] < |scc| && best[i] == |scc[i]| + best[comp[w]])
  }

  lemma EdgeFalls(adj: seq<seq<nat>>, scc: seq<seq<nat>>, comp: seq<nat>, v: nat, w: nat)
    requires Ready(adj, scc, comp) && v < |adj| && w in adj[v]
    ensures w < |adj| && comp[w] <= comp[v] < |scc|
  {
    var k :| 0 <= k < |adj[v]| && adj[v][k] == w;
    assert InComponent(scc, v, comp[v]) && InComponent(scc, w, comp[w]);
  }

  lemma InOneComponent(adj: seq<seq<nat>>, scc: seq<seq<nat>>, comp: seq<nat>, v: nat, i: nat)
    requires Ready(adj, scc, comp) && v < |adj| && i < |scc|
    ensures comp[v] < |scc| && (v in scc[i] <==> comp[v] == i)
  {
    assert InComponent(scc, v, comp[v]);
  }

  /** No walk visits more than the best of the component it starts in. */
  lemma {:induction false} AtMostBest(adj: seq<seq<nat>>, scc: seq<seq<nat>>, comp: seq<nat>, best: seq<nat>, u: nat, path: seq<nat>, v: nat)
    requires Ready(adj, scc, comp) && (forall i: nat :: Best(adj, scc, comp, best, i)) && u < |adj| && Path(adj, u, path, v)
    ensures comp[u] < |scc| == |best|
    ensures |Visits(u, path) - ElementsOf(scc[comp[u]])| + |scc[comp[u]]| <= best[comp[u]]
    ensures |Visits(u, path)| <= best[comp[u]]
    decreases |path|
  {
    var i := comp[u];
    InOneComponent(adj, scc, comp, u, i);
    assert Best(adj, scc, comp, best, i);
    var own := ElementsOf(scc[i]);
    DistinctSize(scc[i]);
    if path != [] {
      var w := path[0];
      EdgeFalls(adj, scc, comp, u, w);
      AtMostBest(adj, scc, comp, best, w, path[1..], v);
      InOneComponent(adj, scc, comp, w, i);
      assert Visits(u, path) == {u} + Visits(w, path[1..]);
      if comp[w] == i {
        assert Visits(u, path) - own == Visits(w, path[1..]) - own;
      } else {
        assert Leaves(adj, comp, i, u, w);
        SubsetSize(Visits(u, path) - own, Visits(w, path[1..]));
      }
    } else {
      assert Visits(u, path) - own == {};
    }
    SubsetSize(Visits(u, path), (Visits(u, path) - own) + own);
  }

  /** A walk through a component that visits all of `todo`. */
  lemma {:induction false} Tour(adj: seq<seq<nat>>, own: set<nat>, u: nat, todo: set<nat>) returns (path: seq<nat>, v: nat)
    requires u in own && todo <= own && forall x, y :: x in own && y in own ==> Reach(adj, x, y)
    ensures Path(adj, u, path, v) && v in own && todo <= Visits(u, path)
    decreases |todo|
  {
    if x :| x in todo {
      var first :| Path(adj, u, first, x);
      var rest;
      rest, v := Tour(adj, own, x, todo - {x});
      path := first + rest;
      PathConcat(adj, u, first, x, rest, v);
      PathEnds(adj, u, first, x);
      assert todo <= {x} + (todo - {x});
    } else {
      path, v := [], u;
    }
  }

  lemma {:induction false} PathEnds(adj: seq<seq<nat>>, u: nat, path: seq<nat>, v: nat)
    requires Path(adj, u, path, v)
    ensures v in Visits(u, path)
    decreases |path|
  {
    if path != [] { PathEnds(adj, path[0], path[1..], v); }
  }

  /** A walk only comes to components that are no later. */
  lemma {:induction false} VisitsFall(adj: seq<seq<nat>>, scc: seq<seq<nat>>, comp: seq<nat>, u: nat, path: seq<nat>, v: nat)
    requires Ready(adj, scc, comp) && u < |adj| && Path(adj, u, path, v)
    ensures forall x :: x in Visits(u, path) ==> x < |adj| && comp[x] <= comp[u]
    decreases |path|
  {
    if path != [] {
      EdgeFalls(adj, scc, comp, u, path[0]);
      VisitsFall(adj, scc, comp, path[0], path[1..], v);
      assert Visits(u, path) == {u} + Visits(path[0], path[1..]);
    }
  }

  /** Walks one after the other over an edge. */
  lemma WalkOn(adj: seq<seq<nat>>, u: nat, p: seq<nat>, x: nat, w: nat, q: seq<nat>, v: nat)
    requires Path(adj, u, p, x) && x < |adj| && w in adj[x] && Path(adj, w, q, v)
    ensures Path(adj, u, p + ([w] + q), v) && Visits(u, p + ([w] + q)) == Visits(u, p) + Visits(w, q)
  {
    assert ([w] + q)[1..] == q;
    PathConcat(adj, u, p, x, [w] + q, v);
  }

  /** From every node some walk visits as many nodes as the best of its component says. */
  lemma {:induction false} BestIsWalked(adj: seq<seq<nat>>, scc: seq<seq<nat>>, comp: seq<nat>, best: seq<nat>, u: nat) returns (path: seq<nat>, v: nat)
    requires Ready(adj, scc, comp) && (forall i: nat :: Best(adj, scc, comp, best, i)) && u < |adj|
    ensures comp[u] < |scc| == |best| && Path(adj, u, path, v) && best[comp[u]] <= |Visits(u, path)|
    decreases comp[u]
  {
    var i := comp[u];
    InOneComponent(adj, scc, comp, u, i);
    assert Best(adj, scc, comp, best, i);
    var own := ElementsOf(scc[i]);
    DistinctSize(scc[i]);
    forall x, y | x in own && y in own ensures Reach(adj, x, y) { assert InComponent(scc, x, i) && InComponent(scc, y, i); }
    path, v := Tour(adj, own, u, own);
    if best[i] == |scc[i]| {
      SubsetSize(own, Visits(u, path));
    } else {
      var x: nat, w: nat :| Leaves(adj, comp, i, x, w) && comp[w] < |scc| && best[i] == |scc[i]| + best[comp[w]];
      InOneComponent(adj, scc, comp, x, i);
      EdgeFalls(adj, scc, comp, x, w);
      assert Reach(adj, v, x);
      var across :| Path(adj, v, across, x);
      PathConcat(adj, u, path, v, across, x);
      var rest, end := BestIsWalked(adj, scc, comp, best, w);
      WalkOn(adj, u, path + across, x, w, rest, end);
      VisitsFall(adj, scc, comp, w, rest, end);
      forall y | y in own ensures y !in Visits(w, rest) { OwnNode(adj, scc, comp, i, y); }
      SubsetSize(own + Visits(w, rest), Visits(u, path + across + ([w] + rest)));
      path, v := path + across + ([w] + rest), end;
    }
  }

  lemma OwnNode(adj: seq<seq<nat>>, scc: seq<seq<nat>>, comp: seq<nat>, i: nat, y: nat)
    requires Ready(adj, scc, comp) && i < |scc| && y in scc[i]
    ensures y < |adj| && comp[y] == i
  {
    var a :| 0 <= a < |scc[i]| && scc[i][a] == y;
    InOneComponent(adj, scc, comp, y, i);
  }

  // ---- The program ----------------------------------------------------------------------------------------------

  ghost predicate Reason(adj: seq<seq<nat>>, scc: seq<seq<nat>>, comp: seq<nat>, best: seq<nat>, i: nat)
    requires i < |scc| == |best|
  {
    best[i] == |scc[i]| ||
    exists v: nat, w: nat :: Leaves(adj, comp, i, v, w) && comp[w] < |scc| && best[i] == |scc[i]| + best[comp[w]]
  }

  /** All edges of `v` out of component `i` are accounted for. */
  ghost predicate NodeDone(adj: seq<seq<nat>>, scc: seq<seq<nat>>, comp: seq<nat>, best: seq<nat>, i: nat, v: nat)
    requires i < |scc| == |best|
  {
    forall w: nat :: Leaves(adj, comp, i, v, w) ==> comp[w] < |scc| && |scc[i]| + best[comp[w]] <= best[i]
  }

  ghost predicate OnlyRaised(best: seq<nat>, best': seq<nat>, i: nat) {
    i < |best| == |best'| && best[i] <= best'[i] && forall j :: 0 <= j < |best| && j != i ==> best'[j] == best[j]
  }

  /** The first `k` edges of `v` are accounted for, and nothing without a reason. */
  ghost predicate EdgesDone(adj: seq<seq<nat>>, scc: seq<seq<nat>>, comp: seq<nat>, best: seq<nat>, i: nat, v: nat, k: nat)
    requires i < |scc| == |best| && v < |adj|
  {
    && Reason(adj, scc, comp, best, i)
    && forall l :: 0 <= l < k && l < |adj[v]| && adj[v][l] < |comp| && comp[adj[v][l]] != i ==>
         comp[adj[v][l]] < |scc| && |scc[i]| + best[comp[adj[v][l]]] <= best[i]
  }

  /** One more edge: it stays in the component, or the best is raised to what it gives. */
  lemma OneMoreEdge(adj: seq<seq<nat>>, scc: seq<seq<nat>>, comp: seq<nat>, best: seq<nat>, i: nat, v: nat, k: nat)
    requires Ready(adj, scc, comp) && i < |scc| == |best| && v < |adj| && comp[v] == i && k < |adj[v]|
    requires EdgesDone(adj, scc, comp, best, i, v, k)
    ensures var u := adj[v][k];
      && u < |adj| && comp[u] < |scc|
      && if comp[u] == i then EdgesDone(adj, scc, comp, best, i, v, k + 1)
         else EdgesDone(adj, scc, comp, best[i := Max(best[i], |scc[i]| + best[comp[u]])], i, v, k + 1)
  {
    var u := adj[v][k];
    EdgeFalls(adj, scc, comp, v, u);
    if comp[u] != i {
      var visits := |scc[i]| + best[comp[u]];
      var best' := best[i := Max(best[i], visits)];
      assert Leaves(adj, comp, i, v, u) && comp[u] < |scc| && visits == |scc[i]| + best'[comp[u]];
      if visits <= best[i] { assert best' == best; }
    }
  }

  function Max(a: nat, b: nat): nat { if a < b then b else a }

  /** The edges of one node. */
  method VisitEdges(adj: seq<seq<nat>>, scc: seq<seq<nat>>, comp: seq<nat>, before: seq<nat>, i: nat, v: nat) returns (best: seq<nat>)
    requires Ready(adj, scc, comp) && i < |scc| == |before| && v in scc[i] && v < |adj| && Reason(adj, scc, comp, before, i)
    ensures OnlyRaised(before, best, i) && NodeDone(adj, scc, comp, best, i, v) && Reason(adj, scc, comp, best, i)
  {
    best := before;
    InOneComponent(adj, scc, comp, v, i);
    ReadyComp(adj, scc, comp);
    assert EdgesDone(adj, scc, comp, best, i, v, 0);
    hide Ready, Reason, NodeDone, EdgesDone;
    for k := 0 to |adj[v]|
      invariant OnlyRaised(before, best, i) && EdgesDone(adj, scc, comp, best, i, v, k)
    {
      var u := adj[v][k];
      OneMoreEdge(adj, scc, comp, best, i, v, k);
      if comp[v] != comp[u] {
        best := best[comp[v] := Max(best[comp[v]], |scc[i]| + best[comp[u]])];
      }
    }
    AllEdgesDone(adj, scc, comp, best, i, v);
  }

  lemma ReadyComp(adj: seq<seq<nat>>, scc: seq<seq<nat>>, comp: seq<nat>)
    requires Ready(adj, scc, comp)
    ensures |comp| == |adj|
  {}

  lemma AllEdgesDone(adj: seq<seq<nat>>, scc: seq<seq<nat>>, comp: seq<nat>, best: seq<nat>, i: nat, v: nat)
    requires i < |scc| == |best| && v < |adj| && EdgesDone(adj, scc, comp, best, i, v, |adj[v]|)
    ensures NodeDone(adj, scc, comp, best, i, v) && Reason(adj, scc, comp, best, i)
  {
    forall w: nat | Leaves(adj, comp, i, v, w) ensures comp[w] < |scc| && |scc[i]| + best[comp[w]] <= best[i] {
      var l :| 0 <= l < |adj[v]| && adj[v][l] == w;
    }
  }

  /** Raising the last number keeps what is known of the others. */
  lemma StillBest(adj: seq<seq<nat>>, scc: seq<seq<nat>>, comp: seq<nat>, best: seq<nat>, best': seq<nat>, i: nat, j: nat)
    requires Ready(adj, scc, comp) && OnlyRaised(best, best', i) && j < i < |scc| == |best| && Best(adj, scc, comp, best, j)
    ensures Best(adj, scc, comp, best', j)
  {
    forall v: nat, w: nat | Leaves(adj, comp, j, v, w) ensures comp[w] < j { EdgeFalls(adj, scc, comp, v, w); }
    if best[j] != |scc[j]| {
      var v: nat, w: nat :| Leaves(adj, comp, j, v, w) && comp[w] < |scc| && best[j] == |scc[j]| + best[comp[w]];
      assert Leaves(adj, comp, j, v, w) && comp[w] < |scc| && best'[j] == |scc[j]| + best'[comp[w]];
    }
  }

  lemma StillDone(adj: seq<seq<nat>>, scc: seq<seq<nat>>, comp: seq<nat>, best: seq<nat>, best': seq<nat>, i: nat, v: nat)
    requires i < |scc| == |best| && OnlyRaised(best, best', i) && NodeDone(adj, scc, comp, best, i, v)
    ensures NodeDone(adj, scc, comp, best', i, v)
  {}

  /** The nodes of one component. */
  method VisitComponent(adj: seq<seq<nat>>, scc: seq<seq<nat>>, comp: seq<nat>, before: seq<nat>, i: nat) returns (best: seq<nat>)
    requires Ready(adj, scc, comp) && i < |scc| == |before| && before[i] == |scc[i]|
    ensures OnlyRaised(before, best, i) && Best(adj, scc, comp, best, i)
  {
    best := before;
    hide Ready, NodeDone, Reason, Leaves, OnlyRaised;
    RaisedNothing(before, i);
    ReasonOfSize(adj, scc, comp, best, i);
    for a := 0 to |scc[i]|
      invariant |best| == |before| && OnlyRaised(before, best, i) && Reason(adj, scc, comp, best, i)
      invariant forall b :: 0 <= b < a ==> NodeDone(adj, scc, comp, best, i, scc[i][b])
    {
      ghost var was := best;
      var v := scc[i][a];
      OwnNode(adj, scc, comp, i, v);
      best := VisitEdges(adj, scc, comp, best, i, v);
      RaisedTwice(before, was, best, i);
      forall b | 0 <= b < a ensures NodeDone(adj, scc, comp, best, i, scc[i][b]) {
        StillDone(adj, scc, comp, was, best, i, scc[i][b]);
      }
    }
    AllDone(adj, scc, comp, before, best, i);
  }

  lemma RaisedNothing(best: seq<nat>, i: nat)
    requires i < |best|
    ensures OnlyRaised(best, best, i)
  {}

  lemma RaisedTwice(a: seq<nat>, b: seq<nat>, c: seq<nat>, i: nat)
    requires OnlyRaised(a, b, i) && OnlyRaised(b, c, i)
    ensures OnlyRaised(a, c, i) && |a| == |c|
  {}

  lemma ReasonOfSize(adj: seq<seq<nat>>, scc: seq<seq<nat>>, comp: seq<nat>, best: seq<nat>, i: nat)
    requires i < |scc| == |best| && best[i] == |scc[i]|
    ensures Reason(adj, scc, comp, best, i)
  {}

  lemma AllDone(adj: seq<seq<nat>>, scc: seq<seq<nat>>, comp: seq<nat>, before: seq<nat>, best: seq<nat>, i: nat)
    requires Ready(adj, scc, comp) && i < |scc| == |best| && OnlyRaised(before, best, i) && before[i] == |scc[i]|
    requires Reason(adj, scc, comp, best, i) && forall b :: 0 <= b < |scc[i]| ==> NodeDone(adj, scc, comp, best, i, scc[i][b])
    ensures Best(adj, scc, comp, best, i)
  {
    forall v: nat, w: nat | Leaves(adj, comp, i, v, w) ensures comp[w] < |scc| && |scc[i]| + best[comp[w]] <= best[i] {
      InOneComponent(adj, scc, comp, v, i);
      var b :| 0 <= b < |scc[i]| && scc[i][b] == v;
      assert NodeDone(adj, scc, comp, best, i, scc[i][b]);
    }
  }

  /** max_visits of every component. */
  method VisitComponents(adj: seq<seq<nat>>, scc: seq<seq<nat>>, comp: seq<nat>) returns (best: seq<nat>)
    requires Ready(adj, scc, comp)
    ensures |best| == |scc| && forall i: nat :: Best(adj, scc, comp, best, i)
  {
    best := seq(|scc|, i requires 0 <= i < |scc| => |scc[i]|);
    hide Ready, Best;
    for i := 0 to |scc|
      invariant |best| == |scc| && forall j: nat :: j < i ==> Best(adj, scc, comp, best, j)
      invariant forall j :: i <= j < |scc| ==> best[j] == |scc[j]|
    {
      ghost var was := best;
      best := VisitComponent(adj, scc, comp, best, i);
      forall j: nat | j < i ensures Best(adj, scc, comp, best, j) { StillBest(adj, scc, comp, was, best, i, j); }
    }
    forall i: nat ensures Best(adj, scc, comp, best, i) { if |scc| <= i { NoSuchComponent(adj, scc, comp, best, i); } }
  }

  lemma NoSuchComponent(adj: seq<seq<nat>>, scc: seq<seq<nat>>, comp: seq<nat>, best: seq<nat>, i: nat)
    requires |scc| <= i
    ensures Best(adj, scc, comp, best, i)
  {}

  /** node2scc. */
  method NumberNodes(adj: seq<seq<nat>>, scc: seq<seq<nat>>) returns (comp: seq<nat>)
    requires Partition(adj, scc)
    ensures Numbered(adj, scc, comp)
  {
    comp := seq(|adj|, _ => 0);
    for i := 0 to |scc|
      invariant |comp| == |adj| && forall j, v :: 0 <= j < i && v in scc[j] ==> v < |adj| && comp[v] == j
    {
      for a := 0 to |scc[i]|
        invariant |comp| == |adj| && forall j, v :: 0 <= j < i && v in scc[j] ==> v < |adj| && comp[v] == j
        invariant forall b :: 0 <= b < a ==> comp[scc[i][b]] == i
      {
        assert scc[i][a] in scc[i];
        comp := comp[scc[i][a] := i];
      }
    }
    forall v: nat | v < |adj| ensures InComponent(scc, v, comp[v]) {
      assert InSome(scc, v);
      var i: nat :| InComponent(scc, v, i);
    }
  }

  ghost predicate IsEdge(a: seq<nat>, b: seq<nat>, u: nat, w: nat) {
    exists k :: 0 <= k < |a| && k < |b| && a[k] == u + 1 && b[k] == w + 1
  }

  ghost predicate Lists(n: nat, a: seq<nat>, b: seq<nat>, edges: seq<seq<nat>>) {
    |edges| == n && Digraph(edges) && forall u: nat, w: nat :: u < n ==> (w in edges[u] <==> IsEdge(a, b, u, w))
  }

  /** The adjacency lists of the links a[k] -> b[k], whose ends count from 1. */
  method BuildEdges(n: nat, a: seq<nat>, b: seq<nat>) returns (edges: seq<seq<nat>>)
    requires |a| == |b| && forall k :: 0 <= k < |a| ==> 1 <= a[k] <= n && 1 <= b[k] <= n
    ensures Lists(n, a, b, edges)
  {
    edges := seq(n, _ => []);
    for k := 0 to |a|
      invariant Lists(n, a[..k], b[..k], edges)
    {
      edges := AddEdge(n, a, b, k, edges);
    }
    assert a[..|a|] == a && b[..|b|] == b;
  }

  function AddEdge(n: nat, a: seq<nat>, b: seq<nat>, k: nat, edges: seq<seq<nat>>): (r: seq<seq<nat>>)
    requires |a| == |b| && k < |a| && Lists(n, a[..k], b[..k], edges) && 1 <= a[k] <= n && 1 <= b[k] <= n
    ensures Lists(n, a[..k + 1], b[..k + 1], r)
  {
    var r := edges[a[k] - 1 := edges[a[k] - 1] + [b[k] - 1]];
    assert forall u: nat, w: nat :: IsEdge(a[..k + 1], b[..k + 1], u, w) <==> IsEdge(a[..k], b[..k], u, w) || (a[k] == u + 1 && b[k] == w + 1) by {
      forall u: nat, w: nat ensures IsEdge(a[..k + 1], b[..k + 1], u, w) <==> IsEdge(a[..k], b[..k], u, w) || (a[k] == u + 1 && b[k] == w + 1) {
        EdgeAdded(a, b, k, u, w);
      }
    }
    r
  }

  lemma EdgeAdded(a: seq<nat>, b: seq<nat>, k: nat, u: nat, w: nat)
    requires |a| == |b| && k < |a|
    ensures IsEdge(a[..k + 1], b[..k + 1], u, w) <==> IsEdge(a[..k], b[..k], u, w) || (a[k] == u + 1 && b[k] == w + 1)
  {
    var a', b' := a[..k + 1], b[..k + 1];
    if IsEdge(a', b', u, w) {
      var l :| 0 <= l < |a'| && a'[l] == u + 1 && b'[l] == w + 1;
      if l < k { assert a[..k][l] == u + 1 && b[..k][l] == w + 1; }
    }
    if IsEdge(a[..k], b[..k], u, w) {
      var l :| 0 <= l < k && a[..k][l] == u + 1 && b[..k][l] == w + 1;
      assert a'[l] == u + 1 && b'[l] == w + 1;
    }
    if a[k] == u + 1 && b[k] == w + 1 { assert a'[k] == u + 1 && b'[k] == w + 1; }
  }

  /** A walk over the links that visits `path` after `u`. */
  ghost predicate IsWalk(a: seq<nat>, b: seq<nat>, u: nat, path: seq<nat>)
    decreases |path|
  {
    path == [] || (IsEdge(a, b, u, path[0]) && IsWalk(a, b, path[0], path[1..]))
  }

  lemma {:induction false} WalkToPath(n: nat, a: seq<nat>, b: seq<nat>, edges: seq<seq<nat>>, u: nat, path: seq<nat>) returns (v: nat)
    requires Lists(n, a, b, edges) && u < n && IsWalk(a, b, u, path)
    ensures Path(edges, u, path, v)
    decreases |path|
  {
    if path == [] {
      v := u;
    } else {
      assert path[0] in edges[u];
      var k :| 0 <= k < |edges[u]| && edges[u][k] == path[0];
      v := WalkToPath(n, a, b, edges, path[0], path[1..]);
    }
  }

  lemma {:induction false} PathToWalk(n: nat, a: seq<nat>, b: seq<nat>, edges: seq<seq<nat>>, u: nat, path: seq<nat>, v: nat)
    requires Lists(n, a, b, edges) && u < n && Path(edges, u, path, v)
    ensures IsWalk(a, b, u, path)
    decreases |path|
  {
    if path != [] {
      var k :| 0 <= k < |edges[u]| && edges[u][k] == path[0];
      PathToWalk(n, a, b, edges, path[0], path[1..], v);
    }
  }

  /** The most nodes that one walk visits. */
  method GetMaxVisitableWebpages(n: nat, a: seq<nat>, b: seq<nat>) returns (most: nat)
    requires 0 < n && |a| == |b| && forall k :: 0 <= k < |a| ==> 1 <= a[k] <= n && 1 <= b[k] <= n
    ensures forall u: nat, path :: u < n && IsWalk(a, b, u, path) ==> |Visits(u, path)| <= most
    ensures exists u: nat, path :: u < n && IsWalk(a, b, u, path) && |Visits(u, path)| == most
  {
    var edges := BuildEdges(n, a, b);
    var scc := Tarjan.FindScc(edges);
    var comp := NumberNodes(edges, scc);
    var best := VisitComponents(edges, scc, comp);
    hide IsScc, ReverseTopological, Best, IsEdge, IsWalk, Reach, Path;
    SomeComponent(edges, scc, comp);
    most := best[0];
    ghost var at: nat := 0;
    for i := 1 to |best|
      invariant at < |best| && most == best[at] && forall j :: 0 <= j < i ==> best[j] <= most
    {
      if most < best[i] { most, at := best[i], i; }
    }
    forall u: nat, path | u < n && IsWalk(a, b, u, path) ensures |Visits(u, path)| <= most {
      var v := WalkToPath(n, a, b, edges, u, path);
      AtMostBest(edges, scc, comp, best, u, path, v);
    }
    ghost var u := scc[at][0];
    NodeOfComponent(edges, scc, comp, at);
    ghost var path, v := BestIsWalked(edges, scc, comp, best, u);
    PathToWalk(n, a, b, edges, u, path, v);
    AtMostBest(edges, scc, comp, best, u, path, v);
    assert u < n && IsWalk(a, b, u, path) && |Visits(u, path)| == most;
  }

  lemma SomeComponent(adj: seq<seq<nat>>, scc: seq<seq<nat>>, comp: seq<nat>)
    requires Ready(adj, scc, comp) && 0 < |adj|
    ensures 0 < |scc| && forall i :: 0 <= i < |scc| ==> scc[i] != []
  {
    assert InComponent(scc, 0, comp[0]);
  }

  lemma NodeOfComponent(adj: seq<seq<nat>>, scc: seq<seq<nat>>, comp: seq<nat>, i: nat)
    requires Ready(adj, scc, comp) && i < |scc| && scc[i] != []
    ensures scc[i][0] < |adj| && comp[scc[i][0]] == i
  {
    OwnNode(adj, scc, comp, i, scc[i][0]);
  }
}
