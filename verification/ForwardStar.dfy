/**
  DirectEdgeList of cpp/graph.h: edges sorted by their ends, with the place where each node's edges start, and a
  sentinel behind them that stops every iterator.
*/
module ForwardStar {
  import opened Reachability
  import opened Sorting
  import Kosaraju

  /** The largest size_t, which no node has. */
  const NO_NODE: nat := 0xFFFF_FFFF_FFFF_FFFF

  datatype Edge = Edge(a: nat, b: nat)

  function SENTINEL(): Edge { Edge(NO_NODE, NO_NODE) }

  predicate ByEnds(e: Edge, f: Edge) { e.a < f.a || (e.a == f.a && e.b <= f.b) }

  lemma ByEndsIsOrder()
    ensures TotalPreorder(ByEnds)
  {}

  function Swapped(e: Edge): Edge { Edge(e.b, e.a) }

  function SwapAll(edges: seq<Edge>): seq<Edge> { seq(|edges|, i requires 0 <= i < |edges| => Swapped(edges[i])) }

  /** How often an edge is in the list. */
  lemma {:induction false} SwapCount(edges: seq<Edge>, e: Edge)
    ensures multiset(SwapAll(edges))[e] == multiset(edges)[Swapped(e)]
  {
    if edges != [] {
      SwapCount(edges[1..], e);
      assert edges == [edges[0]] + edges[1..];
      assert SwapAll(edges) == [Swapped(edges[0])] + SwapAll(edges[1..]);
    }
  }

  /** Ends are nodes, or the edge is a sentinel. */
  ghost predicate Proper(edges: seq<Edge>, n: nat) {
    n <= NO_NODE && forall i :: 0 <= i < |edges| ==> edges[i] == SENTINEL() || (edges[i].a < n && edges[i].b < n)
  }

  /** Edges in order up to a sentinel, and where those of each node start. */
  ghost predicate Final(edges: seq<Edge>, start: seq<nat>, n: nat) {
    && Proper(edges, n) && Sorted(edges, ByEnds) && edges != [] && edges[|edges| - 1] == SENTINEL() && |start| == n
    && forall v :: 0 <= v < n ==> IsStart(edges, v, start[v])
  }

  /** Place `i` is where edges from `v` on start. */
  ghost predicate IsStart(edges: seq<Edge>, v: nat, i: nat) {
    i < |edges| && (forall j :: 0 <= j < i ==> edges[j].a < v) && v <= edges[i].a
  }

  /** The places where the edges of each node start, in one sweep. */
  method FindStarts(edges: seq<Edge>, n: nat) returns (start: seq<nat>)
    requires Proper(edges, n) && edges != [] && edges[|edges| - 1] == SENTINEL()
    ensures |start| == n && forall v :: 0 <= v < n ==> IsStart(edges, v, start[v])
  {
    start := [];
    var idx := 0;
    for v := 0 to n
      invariant idx < |edges| && |start| == v && forall j :: 0 <= j < idx ==> edges[j].a < v
      invariant forall u :: 0 <= u < v ==> IsStart(edges, u, start[u])
    {
      while edges[idx].a < v
        invariant idx < |edges| && forall j :: 0 <= j < idx ==> edges[j].a < v
        decreases |edges| - idx
      {
        idx := idx + 1;
      }
      start := start + [idx];
    }
  }

  class DirectEdgeList {
    var edges: seq<Edge>
    var numVerts: nat
    var start: seq<nat>

    ghost predicate Finalized()
      reads this
    {
      Final(edges, start, numVerts)
    }

    constructor ()
      ensures edges == [] && numVerts == 0 && Proper(edges, numVerts)
    {
      edges, numVerts, start := [], 0, [];
    }

    method AddEdge(a: nat, b: nat)
      requires Proper(edges, numVerts) && a < NO_NODE && b < NO_NODE
      modifies this
      ensures edges == old(edges) + [Edge(a, b)] && Proper(edges, numVerts)
      ensures old(numVerts) <= numVerts && a < numVerts && b < numVerts
      ensures numVerts == old(numVerts) || numVerts == a + 1 || numVerts == b + 1
    {
      edges := edges + [Edge(a, b)];
      numVerts := if numVerts < a + 1 then a + 1 else numVerts;
      numVerts := if numVerts < b + 1 then b + 1 else numVerts;
    }

    /** Sorts the edges and finds where those of each node start. */
    method Finalize()
      requires Proper(edges, numVerts)
      modifies this`edges, this`start
      ensures Finalized() && multiset(edges) == multiset(old(edges)) + multiset{SENTINEL()}
    {
      ByEndsIsOrder();
      var sorted := Sort(edges, ByEnds);
      ProperSorted(edges, sorted, numVerts);
      hide Sorted, Proper;
      edges := sorted + [SENTINEL()];
      start := FindStarts(edges, numVerts);
    }

    /** Turns every edge round. */
    method Reverse()
      requires Proper(edges, numVerts)
      modifies this`edges, this`start
      ensures Finalized() && forall e :: multiset(edges)[e] == old(multiset(edges))[Swapped(e)] + multiset{SENTINEL()}[e]
    {
      forall e ensures multiset(SwapAll(edges))[e] == multiset(edges)[Swapped(e)] { SwapCount(edges, e); }
      edges := SwapAll(edges);
      Finalize();
    }
  }

  lemma ProperSorted(edges: seq<Edge>, sorted: seq<Edge>, n: nat)
    requires Proper(edges, n) && multiset(edges) == multiset(sorted) && Sorted(sorted, ByEnds)
    ensures Proper(sorted + [SENTINEL()], n) && Sorted(sorted + [SENTINEL()], ByEnds)
  {
    forall i | 0 <= i < |sorted| ensures sorted[i] in edges { assert sorted[i] in multiset(edges); }
  }

  // ---- Iterating ------------------------------------------------------------------------------------------------

  /** The ends of the edges that start at `v`. */
  function Targets(edges: seq<Edge>, v: nat): seq<nat> {
    if edges == [] then []
    else (if edges[0].a == v then [edges[0].b] else []) + Targets(edges[1..], v)
  }

  lemma {:induction false} TargetsConcat(s: seq<Edge>, t: seq<Edge>, v: nat)
    ensures Targets(s + t, v) == Targets(s, v) + Targets(t, v)
  {
    if s == [] {
      assert s + t == t;
    } else {
      var own: seq<nat> := if s[0].a == v then [s[0].b] else [];
      TargetsConcat(s[1..], t, v);
      assert (s + t)[1..] == s[1..] + t;
      assert Targets(s + t, v) == own + Targets(s[1..] + t, v);
      hide Targets;
      Associative(own, Targets(s[1..], v), Targets(t, v));
    }
  }

  lemma Associative(a: seq<nat>, b: seq<nat>, c: seq<nat>)
    ensures a + (b + c) == (a + b) + c
  {}

  lemma {:induction false} NoTargets(edges: seq<Edge>, v: nat)
    requires forall i :: 0 <= i < |edges| ==> edges[i].a != v
    ensures Targets(edges, v) == []
  {
    if edges != [] { NoTargets(edges[1..], v); }
  }

  /** An edge is counted as often as its end is listed. */
  lemma TargetBehind(edges: seq<Edge>, v: nat, w: nat)
    requires edges != [] && Sorted(edges, ByEnds) && edges[0].a == v && w in Targets(edges[1..], v)
    ensures edges[0].b <= w
  {
    TargetCount(edges[1..], v, w);
    hide Targets;
    assert w in multiset(Targets(edges[1..], v));
    assert Edge(v, w) in edges[1..];
    var k :| 0 <= k < |edges[1..]| && edges[1..][k] == Edge(v, w);
    assert ByEnds(edges[0], edges[k + 1]);
  }

  /** The targets come in ascending order. */
  lemma {:induction false} TargetsRise(edges: seq<Edge>, v: nat)
    requires Sorted(edges, ByEnds)
    ensures forall i, j :: 0 <= i < j < |Targets(edges, v)| ==> Targets(edges, v)[i] <= Targets(edges, v)[j]
  {
    if edges != [] {
      var rest := Targets(edges[1..], v);
      TargetsRise(edges[1..], v);
      if edges[0].a == v {
        assert Targets(edges, v) == [edges[0].b] + rest;
        hide Targets;
        forall j | 0 <= j < |rest| ensures edges[0].b <= rest[j] { TargetBehind(edges, v, rest[j]); }
      }
    }
  }

  lemma {:induction false} TargetCount(edges: seq<Edge>, v: nat, w: nat)
    ensures multiset(Targets(edges, v))[w] == multiset(edges)[Edge(v, w)]
  {
    if edges != [] {
      TargetCount(edges[1..], v, w);
      assert edges == [edges[0]] + edges[1..];
    }
  }

  /** What an iterator for `v` runs through: from start[v] on as long as the edge starts at `v`. */
  method Iterate(edges: seq<Edge>, start: seq<nat>, n: nat, v: nat) returns (tails: seq<nat>)
    requires Final(edges, start, n) && v < n
    ensures tails == Targets(edges, v) && forall i, j :: 0 <= i < j < |tails| ==> tails[i] <= tails[j]
  {
    StartOf(edges, start, n, v);
    TargetsRise(edges, v);
    hide Final, IsStart, Targets;
    var idx := start[v];
    tails := [];
    while edges[idx].a == v
      invariant idx < |edges| && tails == Targets(edges[..idx], v) && v <= edges[idx].a
      decreases |edges| - idx
    {
      tails := tails + [edges[idx].b];
      OneMoreTarget(edges, idx, v);
      EdgesRise(edges, start, n, idx, idx + 1);
      idx := idx + 1;
    }
    NoneBehind(edges, start, n, v, idx);
  }

  lemma NoneBehind(edges: seq<Edge>, start: seq<nat>, n: nat, v: nat, idx: nat)
    requires Final(edges, start, n) && idx < |edges| && v < edges[idx].a
    ensures Targets(edges, v) == Targets(edges[..idx], v)
  {
    forall i: nat | i < |edges| - idx ensures edges[idx..][i].a != v { EdgesRise(edges, start, n, idx, idx + i); }
    hide Final;
    NoTargets(edges[idx..], v);
    TargetsConcat(edges[..idx], edges[idx..], v);
    assert edges == edges[..idx] + edges[idx..];
  }

  lemma StartOf(edges: seq<Edge>, start: seq<nat>, n: nat, v: nat)
    requires Final(edges, start, n) && v < n
    ensures v < |start| && start[v] < |edges| && v <= edges[start[v]].a && Targets(edges[..start[v]], v) == []
  {
    assert IsStart(edges, v, start[v]);
    NoTargets(edges[..start[v]], v);
  }

  lemma OneMoreTarget(edges: seq<Edge>, idx: nat, v: nat)
    requires idx < |edges| && edges[idx].a == v
    ensures Targets(edges[..idx + 1], v) == Targets(edges[..idx], v) + [edges[idx].b]
  {
    assert edges[..idx + 1] == edges[..idx] + [edges[idx]];
    TargetsConcat(edges[..idx], [edges[idx]], v);
    assert [edges[idx]][1..] == [];
  }

  lemma EdgesRise(edges: seq<Edge>, start: seq<nat>, n: nat, i: nat, j: nat)
    requires Final(edges, start, n) && i <= j && i < |edges|
    ensures j < |edges| ==> edges[i].a <= edges[j].a
    ensures edges[i].a < n ==> i + 1 < |edges|
  {
    if i < j < |edges| { assert ByEnds(edges[i], edges[j]); }
  }

  // ---- The graph ------------------------------------------------------------------------------------------------

  /** adj[v] lists the ends of the edges from `v`. */
  ghost predicate Lists(edges: seq<Edge>, n: nat, adj: seq<seq<nat>>) {
    |adj| == n && Digraph(adj) && forall v: nat, w: nat :: v < n && w < n ==> (w in adj[v] <==> Edge(v, w) in edges)
  }

  method AllTails(edges: seq<Edge>, start: seq<nat>, n: nat) returns (adj: seq<seq<nat>>)
    requires Final(edges, start, n)
    ensures Lists(edges, n, adj)
  {
    adj := [];
    hide Final;
    for v := 0 to n
      invariant |adj| == v && forall u :: 0 <= u < v ==> adj[u] == Targets(edges, u)
    {
      var tails := Iterate(edges, start, n, v);
      adj := adj + [tails];
    }
    forall v: nat, w: nat | v < n ensures w in adj[v] <==> Edge(v, w) in edges { TargetListed(edges, v, w); }
    forall v, k | 0 <= v < |adj| && 0 <= k < |adj[v]| ensures adj[v][k] < |adj| {
      TargetProper(edges, start, n, v, adj[v][k]);
    }
  }

  lemma TargetListed(edges: seq<Edge>, v: nat, w: nat)
    ensures w in Targets(edges, v) <==> Edge(v, w) in edges
  {
    TargetCount(edges, v, w);
    assert w in Targets(edges, v) <==> w in multiset(Targets(edges, v));
    assert Edge(v, w) in edges <==> Edge(v, w) in multiset(edges);
  }

  lemma TargetProper(edges: seq<Edge>, start: seq<nat>, n: nat, v: nat, w: nat)
    requires Final(edges, start, n) && v < n && w in Targets(edges, v)
    ensures w < n
  {
    TargetListed(edges, v, w);
  }

  /** KosarajuAlgorithm on an edge list: the components, and the same edges in the end as in the beginning. */
  method KosarajuOn(el: DirectEdgeList) returns (scc: seq<seq<nat>>, adj: seq<seq<nat>>)
    requires el.Finalized()
    modifies el
    ensures el.Finalized() && el.numVerts == old(el.numVerts)
    ensures forall e :: e != SENTINEL() ==> multiset(el.edges)[e] == old(multiset(el.edges))[e]
    ensures Lists(old(el.edges), el.numVerts, adj) && IsScc(adj, scc) && Topological(adj, scc)
  {
    hide IsScc, Topological, Sorted;
    ghost var before := el.edges;
    adj := AllTails(el.edges, el.start, el.numVerts);
    el.Reverse();
    ghost var between := el.edges;
    var radj := AllTails(el.edges, el.start, el.numVerts);
    ListsReversed(before, between, el.numVerts, adj, radj);
    scc := Kosaraju.KosarajuAlgorithm(adj, radj);
    el.Reverse();
    forall e | e != SENTINEL() ensures multiset(el.edges)[e] == multiset(before)[e] { assert Swapped(Swapped(e)) == e; }
  }

  lemma ListsReversed(edges: seq<Edge>, edges': seq<Edge>, n: nat, adj: seq<seq<nat>>, radj: seq<seq<nat>>)
    requires n <= NO_NODE && Lists(edges, n, adj) && Lists(edges', n, radj)
    requires forall e :: multiset(edges')[e] == multiset(edges)[Swapped(e)] + multiset{SENTINEL()}[e]
    ensures Kosaraju.Transposed(adj, radj)
  {
    forall x: nat, y: nat | x < n && y < n ensures y in radj[x] <==> x in adj[y] {
      assert Edge(x, y) in edges' <==> Edge(x, y) in multiset(edges');
      assert Edge(y, x) in edges <==> Edge(y, x) in multiset(edges);
      assert multiset(edges')[Edge(x, y)] == multiset(edges)[Swapped(Edge(x, y))] + multiset{SENTINEL()}[Edge(x, y)];
    }
  }
}
