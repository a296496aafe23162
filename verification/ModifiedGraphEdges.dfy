/**
  cpp/4fun/LC-2699.cc: give every edge of weight -1 a weight of at least 1 so that the distance from src to dst
  becomes exactly target, or find that this cannot be done.
*/
module ModifiedGraphEdges {
  import opened Walks
  import opened DijkstraHeap

  /** An undirected edge; a negative weight is still to be chosen. */
  datatype InputEdge = InputEdge(a: nat, b: nat, w: int)

  predicate Input(n: nat, edges: seq<InputEdge>) {
    forall i :: 0 <= i < |edges| ==> edges[i].a < n && edges[i].b < n
  }

  /** The weight the first graph gives an edge. */
  function FirstWeight(e: InputEdge, target: nat): nat { if e.w < 0 then target else e.w }

  /** Both directions of every edge, with open weights set to `target`. */
  ghost function Graph(edges: seq<InputEdge>, target: nat): set<Arc> {
    if edges == [] then {} else
      var e := edges[|edges| - 1];
      Graph(edges[..|edges| - 1], target) + Both(e.a, e.b, FirstWeight(e, target))
  }

  ghost function Both(a: nat, b: nat, w: nat): set<Arc> { {Arc(a, b, w), Arc(b, a, w)} }

  /** `out` keeps the edges and the fixed weights, and chooses weights of at least 1. */
  ghost predicate Fills(edges: seq<InputEdge>, out: seq<InputEdge>) {
    && |out| == |edges|
    && forall i :: 0 <= i < |edges| ==>
         out[i].a == edges[i].a && out[i].b == edges[i].b && if edges[i].w < 0 then 1 <= out[i].w else out[i].w == edges[i].w
  }

  /** The shortest walk from src to dst weighs exactly `d`. */
  ghost predicate DistanceIs(g: set<Arc>, src: nat, dst: nat, d: nat) {
    && (exists p :: Walk(g, src, p, dst) && Weight(p) == d)
    && forall p :: Walk(g, src, p, dst) ==> d <= Weight(p)
  }

  /** What the caller asks for.  No weight of `out` is negative, so the second argument of `Graph` plays no role. */
  ghost predicate Answer(edges: seq<InputEdge>, src: nat, dst: nat, target: nat, out: seq<InputEdge>) {
    Fills(edges, out) && DistanceIs(Graph(out, 0), src, dst, target)
  }

  // ----- arrays of distances, with `inf` for what is out of reach -----

  ghost predicate Exact(g: set<Arc>, src: nat, inf: nat, dist: seq<nat>) {
    && Closed(g, dist)
    && src < |dist| && dist[src] == 0
    && forall v :: 0 <= v < |dist| ==> dist[v] <= inf && (dist[v] < inf ==> exists p :: Walk(g, src, p, v) && Weight(p) == dist[v])
  }

  /** Every arc of `h` has one in `g` that weighs no more. */
  ghost predicate AtMost(g: set<Arc>, h: set<Arc>) {
    forall arc :: arc in h ==> exists w: nat :: w <= arc.w && Arc(arc.from, arc.to, w) in g
  }

  lemma {:induction false} LighterWalk(g: set<Arc>, h: set<Arc>, u: nat, p: seq<Arc>, v: nat) returns (q: seq<Arc>)
    requires AtMost(g, h) && Walk(h, u, p, v)
    ensures Walk(g, u, q, v) && Weight(q) <= Weight(p)
    decreases |p|
  {
    if p == [] {
      q := [];
    } else {
      var rest := LighterWalk(g, h, p[0].to, p[1..], v);
      var w: nat :| w <= p[0].w && Arc(p[0].from, p[0].to, w) in g;
      q := [Arc(p[0].from, p[0].to, w)] + rest;
      assert q[1..] == rest;
    }
  }

  lemma {:induction false} GraphHas(edges: seq<InputEdge>, target: nat, arc: Arc)
    ensures arc in Graph(edges, target) <==>
            exists i :: 0 <= i < |edges| && arc in Both(edges[i].a, edges[i].b, FirstWeight(edges[i], target))
  {
    if edges != [] {
      var last := |edges| - 1;
      GraphHas(edges[..last], target, arc);
      forall i | 0 <= i < last ensures edges[..last][i] == edges[i] {}
      if i :| 0 <= i < |edges| && arc in Both(edges[i].a, edges[i].b, FirstWeight(edges[i], target)) {
        if i < last { assert arc in Both(edges[..last][i].a, edges[..last][i].b, FirstWeight(edges[..last][i], target)); }
      }
    }
  }

  lemma {:induction false} GraphSymmetric(edges: seq<InputEdge>, target: nat)
    ensures Symmetric(Graph(edges, target))
  {
    if edges != [] { GraphSymmetric(edges[..|edges| - 1], target); }
  }

  // ----- adding one undirected edge -----

  /** A walk in the graph with the new edge {a, b} either stays at or above the old distances, or has seen both
      ends of the new edge, and in no case brings src and dst closer than target. */
  ghost predicate KeptApart(dSrc: seq<nat>, dDst: seq<nat>, a: nat, b: nat, target: nat, v: nat, c: nat)
    requires a < |dDst| && b < |dDst| && |dSrc| == |dDst|
  {
    && v < |dDst| && target <= c + dDst[v]
    && (dSrc[v] <= c || (target <= c + dDst[a] && target <= c + dDst[b]))
  }

  lemma {:induction false} WalkKeepsApart(g: set<Arc>, dSrc: seq<nat>, dDst: seq<nat>, a: nat, b: nat, w: nat, target: nat,
      u: nat, c: nat, p: seq<Arc>, v: nat)
    requires |dSrc| == |dDst| && a < |dDst| && b < |dDst|
    requires Closed(g, dSrc) && Closed(g, dDst) && Symmetric(g)
    requires target <= dSrc[a] + w + dDst[b] && target <= dSrc[b] + w + dDst[a]
    requires KeptApart(dSrc, dDst, a, b, target, u, c)
    requires Walk(g + Both(a, b, w), u, p, v)
    ensures KeptApart(dSrc, dDst, a, b, target, v, c + Weight(p))
    decreases |p|
  {
    if p != [] {
      var arc := p[0];
      if arc in g {
        assert Arc(arc.to, arc.from, arc.w) in g;
      }
      WalkKeepsApart(g, dSrc, dDst, a, b, w, target, arc.to, c + arc.w, p[1..], v);
    }
  }

  /** The new edge does not bring src and dst closer than target. */
  lemma NewEdgeStaysAbove(g: set<Arc>, src: nat, dst: nat, inf: nat, dSrc: seq<nat>, dDst: seq<nat>, a: nat, b: nat, w: nat, target: nat, p: seq<Arc>)
    requires |dSrc| == |dDst| && a < |dDst| && b < |dDst|
    requires Symmetric(g) && Exact(g, src, inf, dSrc) && Exact(g, dst, inf, dDst)
    requires target <= dSrc[a] + w + dDst[b] && target <= dSrc[b] + w + dDst[a]
    requires target <= dDst[src]
    requires Walk(g + Both(a, b, w), src, p, dst)
    ensures target <= Weight(p)
  {
    WalkKeepsApart(g, dSrc, dDst, a, b, w, target, src, 0, p, dst);
  }

  lemma OtherDirection(g: set<Arc>, src: nat, dst: nat, inf: nat, dSrc: seq<nat>, dDst: seq<nat>)
    requires |dSrc| == |dDst| && Symmetric(g) && Exact(g, src, inf, dSrc) && Exact(g, dst, inf, dDst)
    ensures dSrc[dst] <= dDst[src]
  {
    if dDst[src] < inf {
      var p :| Walk(g, dst, p, src) && Weight(p) == dDst[src];
      var q := WalkBack(g, dst, p, src);
      ClosedBoundsWalks(g, dSrc, src, q, dst);
    }
  }

  /** If the new edge was made just long enough, the distance is now at most target. */
  lemma NewEdgeReaches(g: set<Arc>, h: set<Arc>, src: nat, dst: nat, inf: nat, dSrc: seq<nat>, dDst: seq<nat>, dSrc': seq<nat>, a: nat, b: nat, w: nat)
    requires |dSrc| == |dDst| == |dSrc'| && a < |dDst| && b < |dDst|
    requires Symmetric(g) && Exact(g, src, inf, dSrc) && Exact(g, dst, inf, dDst) && Exact(h, src, inf, dSrc')
    requires g <= h && Arc(a, b, w) in h && dDst[b] < inf && dSrc[a] < inf
    ensures dSrc'[dst] <= dSrc[a] + w + dDst[b]
  {
    var p :| Walk(g, src, p, a) && Weight(p) == dSrc[a];
    WalkMore(g, h, src, p, a);
    ClosedBoundsWalks(h, dSrc', src, p, a);
    var q :| Walk(g, dst, q, b) && Weight(q) == dDst[b];
    var back := WalkBack(g, dst, q, b);
    WalkMore(g, h, b, back, dst);
    ClosedBoundsWalks(h, dSrc', b, back, dst);
  }

  lemma StillReached(g: set<Arc>, h: set<Arc>, src: nat, inf: nat, dist: seq<nat>, v: nat, x: nat) returns (p: seq<Arc>)
    requires g <= h && Exact(g, src, inf, dist) && Attained(h, dist, v, x) && x < inf
    ensures Walk(h, src, p, v) && Weight(p) == x
  {
    var u: nat, rest :| u < |dist| && Walk(h, u, rest, v) && x == dist[u] + Weight(rest);
    var q :| Walk(g, src, q, u) && Weight(q) == dist[u];
    WalkMore(g, h, src, q, u);
    WalkConcat(h, src, q, u, rest, v);
    p := q + rest;
  }

  /** Re-running Dijkstra from both ends of a new edge keeps the array exact. */
  lemma StillExact(g: set<Arc>, h: set<Arc>, src: nat, inf: nat, dist: seq<nat>, dist': seq<nat>)
    requires g <= h && Exact(g, src, inf, dist)
    requires Closed(h, dist') && Shortest(h, dist, dist') && forall v :: 0 <= v < |dist| ==> dist'[v] <= dist[v]
    ensures Exact(h, src, inf, dist')
  {
    forall v | 0 <= v < |dist'| && dist'[v] < inf ensures exists p :: Walk(h, src, p, v) && Weight(p) == dist'[v] {
      var p := StillReached(g, h, src, inf, dist, v, dist'[v]);
    }
  }

  lemma FirstExact(g: set<Arc>, src: nat, inf: nat, seeds: seq<nat>, dist: seq<nat>)
    requires src < |seeds| && seeds[src] == 0 && forall v :: 0 <= v < |seeds| && v != src ==> seeds[v] == inf
    requires Closed(g, dist) && Shortest(g, seeds, dist) && forall v :: 0 <= v < |seeds| ==> dist[v] <= seeds[v]
    ensures Exact(g, src, inf, dist)
  {
    forall v | 0 <= v < |dist| && dist[v] < inf ensures exists p :: Walk(g, src, p, v) && Weight(p) == dist[v] {
      assert Attained(g, seeds, v, dist[v]);
    }
  }

  // ----- the algorithm -----

  /** Both arrays are exact and the distance is at least target. */
  ghost predicate Ready(g: set<Arc>, src: nat, dst: nat, inf: nat, dSrc: seq<nat>, dDst: seq<nat>, target: nat) {
    && Symmetric(g) && |dSrc| == |dDst|
    && Exact(g, src, inf, dSrc) && Exact(g, dst, inf, dDst)
    && target <= dSrc[dst]
  }

  /** No weight that the loop picks is greater. */
  function Limit(target: nat): nat { if target == 0 then 1 else target }

  /** The weight the loop picks for an open edge, given the lower bound with weight 1. */
  function PickWeight(dSrc: seq<nat>, dDst: seq<nat>, a: nat, b: nat, target: nat): (w: nat)
    requires a < |dSrc| && b < |dSrc| && |dSrc| == |dDst|
    ensures 1 <= w <= Limit(target)
    ensures target <= dSrc[a] + w + dDst[b] && target <= dSrc[b] + w + dDst[a]
    ensures 1 < w ==> target == dSrc[a] + w + dDst[b] || target == dSrc[b] + w + dDst[a]
  {
    var forth, back := dSrc[a] + 1 + dDst[b], dSrc[b] + 1 + dDst[a];
    var s := if forth <= back then forth else back;
    if s < target then 1 + (target - s) else 1
  }

  /** Adding the edge keeps the distance at least target, keeps a distance of target, and reaches it if the edge
      had to be made longer than 1. */
  lemma EdgeAdded(g: set<Arc>, src: nat, dst: nat, inf: nat, dSrc: seq<nat>, dDst: seq<nat>, a: nat, b: nat, target: nat,
      dSrc': seq<nat>, dDst': seq<nat>)
    requires Ready(g, src, dst, inf, dSrc, dDst, target) && a < |dSrc| && b < |dSrc|
    requires |dSrc'| == |dDst'| == |dSrc| && target < inf
    requires var h := g + Both(a, b, PickWeight(dSrc, dDst, a, b, target));
             Exact(h, src, inf, dSrc') && Exact(h, dst, inf, dDst')
    requires dSrc'[dst] <= dSrc[dst]
    ensures var w := PickWeight(dSrc, dDst, a, b, target);
            && Ready(g + Both(a, b, w), src, dst, inf, dSrc', dDst', target)
            && (dSrc[dst] == target || 1 < w ==> dSrc'[dst] == target)
  {
    hide Walk, Weight, Closed;
    var w := PickWeight(dSrc, dDst, a, b, target);
    var h := g + Both(a, b, w);
    OtherDirection(g, src, dst, inf, dSrc, dDst);
    if dSrc'[dst] < inf {
      var p :| Walk(h, src, p, dst) && Weight(p) == dSrc'[dst];
      NewEdgeStaysAbove(g, src, dst, inf, dSrc, dDst, a, b, w, target, p);
    }
    if 1 < w {
      if target == dSrc[a] + w + dDst[b] {
        NewEdgeReaches(g, h, src, dst, inf, dSrc, dDst, dSrc', a, b, w);
      } else {
        NewEdgeReaches(g, h, src, dst, inf, dSrc, dDst, dSrc', b, a, w);
      }
    }
  }

  /** `g` holds the first graph and the new edges for the open ones among the first `i`. */
  ghost predicate Built(g: set<Arc>, edges: seq<InputEdge>, out: seq<InputEdge>, i: nat, target: nat) {
    && i <= |edges| == |out|
    && (forall j :: 0 <= j < |edges| ==> out[j].a == edges[j].a && out[j].b == edges[j].b)
    && (forall j :: 0 <= j < |edges| && (i <= j || 0 <= edges[j].w) ==> out[j] == edges[j])
    && (forall j :: 0 <= j < i && edges[j].w < 0 ==> 1 <= out[j].w <= Limit(target) && Both(out[j].a, out[j].b, out[j].w) <= g)
    && Graph(edges, target) <= g
    && (forall arc :: arc in g && arc !in Graph(edges, target) ==>
          exists j :: 0 <= j < i && edges[j].w < 0 && 0 <= out[j].w && arc in Both(out[j].a, out[j].b, out[j].w))
  }

  lemma BuiltStep(g: set<Arc>, edges: seq<InputEdge>, out: seq<InputEdge>, i: nat, target: nat, w: nat)
    requires Built(g, edges, out, i, target) && i < |edges| && edges[i].w < 0 && 1 <= w <= Limit(target)
    ensures Built(g + Both(edges[i].a, edges[i].b, w), edges, out[i := out[i].(w := w)], i + 1, target)
  {
    var h, out' := g + Both(edges[i].a, edges[i].b, w), out[i := out[i].(w := w)];
    forall arc | arc in h && arc !in Graph(edges, target)
      ensures exists j :: 0 <= j < i + 1 && edges[j].w < 0 && 0 <= out'[j].w && arc in Both(out'[j].a, out'[j].b, out'[j].w)
    {
      if arc in g {
        var j :| 0 <= j < i && edges[j].w < 0 && 0 <= out[j].w && arc in Both(out[j].a, out[j].b, out[j].w);
        assert out'[j] == out[j];
      } else {
        assert arc in Both(out'[i].a, out'[i].b, out'[i].w);
      }
    }
  }

  lemma BuiltSkip(g: set<Arc>, edges: seq<InputEdge>, out: seq<InputEdge>, i: nat, target: nat)
    requires Built(g, edges, out, i, target) && i < |edges| && 0 <= edges[i].w
    ensures Built(g, edges, out, i + 1, target)
  {}

  /** In the end the algorithm's graph and the answer's graph have the same distances. */
  lemma BuiltIsAnswerGraph(g: set<Arc>, edges: seq<InputEdge>, out: seq<InputEdge>, target: nat)
    requires Built(g, edges, out, |edges|, target) && 1 <= target
    ensures AtMost(g, Graph(out, 0)) && AtMost(Graph(out, 0), g)
  {
    forall arc | arc in Graph(out, 0) ensures arc in g {
      GraphHas(out, 0, arc);
      var j :| 0 <= j < |out| && arc in Both(out[j].a, out[j].b, FirstWeight(out[j], 0));
      if 0 <= edges[j].w {
        assert arc in Both(edges[j].a, edges[j].b, FirstWeight(edges[j], target));
        GraphHas(edges, target, arc);
      }
    }
    forall arc | arc in g ensures exists w: nat :: w <= arc.w && Arc(arc.from, arc.to, w) in Graph(out, 0) {
      var j := BuiltFrom(g, edges, out, target, arc);
      var lighter := Arc(arc.from, arc.to, out[j].w);
      assert lighter in Both(out[j].a, out[j].b, FirstWeight(out[j], 0));
      GraphHas(out, 0, lighter);
    }
  }

  lemma BuiltFrom(g: set<Arc>, edges: seq<InputEdge>, out: seq<InputEdge>, target: nat, arc: Arc) returns (j: nat)
    requires Built(g, edges, out, |edges|, target) && arc in g && 1 <= target
    ensures j < |out| && 0 <= out[j].w <= arc.w && arc in Both(out[j].a, out[j].b, arc.w)
  {
    if arc in Graph(edges, target) {
      GraphHas(edges, target, arc);
      j :| 0 <= j < |edges| && arc in Both(edges[j].a, edges[j].b, FirstWeight(edges[j], target));
    } else {
      j :| 0 <= j < |edges| && edges[j].w < 0 && 0 <= out[j].w && arc in Both(out[j].a, out[j].b, out[j].w);
    }
  }

  lemma BuiltFills(g: set<Arc>, edges: seq<InputEdge>, out: seq<InputEdge>, target: nat)
    requires Built(g, edges, out, |edges|, target)
    ensures Fills(edges, out)
  {}

  lemma SameDistance(g: set<Arc>, h: set<Arc>, src: nat, dst: nat, inf: nat, dSrc: seq<nat>)
    requires AtMost(g, h) && AtMost(h, g) && Exact(g, src, inf, dSrc) && dst < |dSrc| && dSrc[dst] < inf
    ensures DistanceIs(h, src, dst, dSrc[dst])
  {
    hide AtMost;
    forall r | Walk(h, src, r, dst) ensures dSrc[dst] <= Weight(r) {
      var r' := LighterWalk(g, h, src, r, dst);
      ClosedBoundsWalks(g, dSrc, src, r', dst);
    }
    var p :| Walk(g, src, p, dst) && Weight(p) == dSrc[dst];
    var q := LighterWalk(h, g, src, p, dst);
  }

  lemma FinalDistance(g: set<Arc>, edges: seq<InputEdge>, out: seq<InputEdge>, src: nat, dst: nat, inf: nat, dSrc: seq<nat>, target: nat)
    requires Built(g, edges, out, |edges|, target) && Exact(g, src, inf, dSrc) && dst < |dSrc| && dSrc[dst] == target < inf && 1 <= target
    ensures Answer(edges, src, dst, target, out)
  {
    hide Built, AtMost, Exact, DistanceIs;
    BuiltFills(g, edges, out, target);
    BuiltIsAnswerGraph(g, edges, out, target);
    SameDistance(g, Graph(out, 0), src, dst, inf, dSrc);
  }

  // ----- when there is no answer -----

  /** An arc of any answer has one in the first graph that is no heavier than target, if the arc is not. */
  lemma FirstGraphArc(edges: seq<InputEdge>, out: seq<InputEdge>, target: nat, arc: Arc) returns (first: Arc)
    requires Fills(edges, out) && arc in Graph(out, 0) && 1 <= target
    ensures first in Graph(edges, target) && first.from == arc.from && first.to == arc.to && first.w <= arc.w * target
  {
    GraphHas(out, 0, arc);
    var j :| 0 <= j < |out| && arc in Both(out[j].a, out[j].b, FirstWeight(out[j], 0));
    first := Arc(arc.from, arc.to, FirstWeight(edges[j], target));
    assert first in Both(edges[j].a, edges[j].b, FirstWeight(edges[j], target));
    GraphHas(edges, target, first);
    if edges[j].w < 0 { ProductAtLeast(target, arc.w); } else { ProductAtLeast(arc.w, target); }
  }

  lemma ProductAtLeast(x: nat, k: nat)
    requires 1 <= k
    ensures x <= x * k && x <= k * x
  {}

  lemma {:induction false} ShortInFirstGraph(edges: seq<InputEdge>, out: seq<InputEdge>, target: nat, u: nat, p: seq<Arc>, v: nat) returns (q: seq<Arc>)
    requires Fills(edges, out) && Walk(Graph(out, 0), u, p, v) && 1 <= target
    ensures Walk(Graph(edges, target), u, q, v) && Weight(q) <= Weight(p) * target
    decreases |p|
  {
    hide Fills, Graph;
    if p == [] {
      q := [];
    } else {
      var first := FirstGraphArc(edges, out, target, p[0]);
      var rest := ShortInFirstGraph(edges, out, target, p[0].to, p[1..], v);
      q := [first] + rest;
      assert q[1..] == rest;
      Distributed(p[0].w, Weight(p[1..]), target);
    }
  }

  lemma Distributed(x: nat, y: nat, t: nat)
    ensures (x + y) * t == x * t + y * t
  {}

  lemma NotConnected(edges: seq<InputEdge>, src: nat, dst: nat, target: nat, inf: nat, dSrc: seq<nat>, out: seq<InputEdge>)
    requires Exact(Graph(edges, target), src, inf, dSrc) && dst < |dSrc| && dSrc[dst] == inf && 1 <= target && target * target < inf
    ensures !Answer(edges, src, dst, target, out)
  {
    if Answer(edges, src, dst, target, out) {
      var p :| Walk(Graph(out, 0), src, p, dst) && Weight(p) == target;
      var q := ShortInFirstGraph(edges, out, target, src, p, dst);
      ClosedBoundsWalks(Graph(edges, target), dSrc, src, q, dst);
    }
  }

  /** A walk lighter than target in the first graph only uses fixed edges, so it is in every answer. */
  lemma {:induction false} LightUsesFixed(edges: seq<InputEdge>, out: seq<InputEdge>, target: nat, u: nat, p: seq<Arc>, v: nat)
    requires Fills(edges, out) && Walk(Graph(edges, target), u, p, v) && Weight(p) < target
    ensures Walk(Graph(out, 0), u, p, v)
    decreases |p|
  {
    if p != [] {
      GraphHas(edges, target, p[0]);
      var j :| 0 <= j < |edges| && p[0] in Both(edges[j].a, edges[j].b, FirstWeight(edges[j], target));
      assert p[0] in Both(out[j].a, out[j].b, FirstWeight(out[j], 0));
      GraphHas(out, 0, p[0]);
      LightUsesFixed(edges, out, target, p[0].to, p[1..], v);
    }
  }

  lemma TooShort(edges: seq<InputEdge>, src: nat, dst: nat, target: nat, inf: nat, dSrc: seq<nat>, out: seq<InputEdge>)
    requires Exact(Graph(edges, target), src, inf, dSrc) && dst < |dSrc| && dSrc[dst] < target && dSrc[dst] < inf
    ensures !Answer(edges, src, dst, target, out)
  {
    if Fills(edges, out) {
      var p :| Walk(Graph(edges, target), src, p, dst) && Weight(p) == dSrc[dst];
      LightUsesFixed(edges, out, target, src, p, dst);
    }
  }

  /** With every open edge at its least weight the distance is still too long. */
  lemma TooLong(g: set<Arc>, edges: seq<InputEdge>, out: seq<InputEdge>, src: nat, dst: nat, target: nat, inf: nat, dSrc: seq<nat>, other: seq<InputEdge>)
    requires Built(g, edges, out, |edges|, target) && Exact(g, src, inf, dSrc) && dst < |dSrc| && target < dSrc[dst]
    requires forall j :: 0 <= j < |edges| && edges[j].w < 0 ==> out[j].w == 1
    ensures !Answer(edges, src, dst, target, other)
  {
    if Answer(edges, src, dst, target, other) {
      forall arc | arc in Graph(other, 0) ensures exists w: nat :: w <= arc.w && Arc(arc.from, arc.to, w) in g {
        GraphHas(other, 0, arc);
        var j :| 0 <= j < |other| && arc in Both(other[j].a, other[j].b, FirstWeight(other[j], 0));
        if edges[j].w < 0 {
          assert Arc(arc.from, arc.to, 1) in Both(out[j].a, out[j].b, out[j].w);
          assert Arc(arc.from, arc.to, 1) in g;
        } else {
          assert arc in Both(edges[j].a, edges[j].b, FirstWeight(edges[j], target));
          GraphHas(edges, target, arc);
        }
      }
      var p :| Walk(Graph(other, 0), src, p, dst) && Weight(p) == target;
      var q := LighterWalk(g, Graph(other, 0), src, p, dst);
      ClosedBoundsWalks(g, dSrc, src, q, dst);
    }
  }

  // ----- a target of 0 -----

  ghost predicate ZeroWalk(g: set<Arc>, src: nat, dst: nat) { exists p :: Walk(g, src, p, dst) && Weight(p) == 0 }

  lemma {:induction false} SameZeroWalk(g: set<Arc>, h: set<Arc>, u: nat, p: seq<Arc>, v: nat)
    requires Walk(g, u, p, v) && Weight(p) == 0 && forall arc :: arc in g && arc.w == 0 ==> arc in h
    ensures Walk(h, u, p, v)
    decreases |p|
  {
    if p != [] { SameZeroWalk(g, h, p[0].to, p[1..], v); }
  }

  lemma SameZeroWalks(g: set<Arc>, h: set<Arc>, src: nat, dst: nat)
    requires forall arc: Arc :: arc.w == 0 ==> (arc in g <==> arc in h)
    ensures ZeroWalk(g, src, dst) <==> ZeroWalk(h, src, dst)
  {
    if p :| Walk(g, src, p, dst) && Weight(p) == 0 { SameZeroWalk(g, h, src, p, dst); }
    if p :| Walk(h, src, p, dst) && Weight(p) == 0 { SameZeroWalk(h, g, src, p, dst); }
  }

  /** With open weights of at least 1, the arcs of weight 0 are those fixed at 0. */
  lemma ZeroArcsAreFixed(edges: seq<InputEdge>, out: seq<InputEdge>, arc: Arc)
    requires Fills(edges, out) && arc.w == 0
    ensures arc in Graph(out, 0) <==> arc in Graph(edges, 1)
  {
    GraphHas(out, 0, arc);
    GraphHas(edges, 1, arc);
    if i :| 0 <= i < |out| && arc in Both(out[i].a, out[i].b, FirstWeight(out[i], 0)) {
      assert arc in Both(edges[i].a, edges[i].b, FirstWeight(edges[i], 1));
    }
    if i :| 0 <= i < |edges| && arc in Both(edges[i].a, edges[i].b, FirstWeight(edges[i], 1)) {
      assert arc in Both(out[i].a, out[i].b, FirstWeight(out[i], 0));
    }
  }

  /** Whether a filling is an answer to a target of 0 does not depend on the weights chosen: a walk over edges fixed at 0
      decides. */
  lemma AnswerForZero(edges: seq<InputEdge>, src: nat, dst: nat, out: seq<InputEdge>)
    requires Fills(edges, out)
    ensures Answer(edges, src, dst, 0, out) <==> ZeroWalk(Graph(edges, 1), src, dst)
  {
    forall arc: Arc | arc.w == 0 ensures arc in Graph(out, 0) <==> arc in Graph(edges, 1) { ZeroArcsAreFixed(edges, out, arc); }
    SameZeroWalks(Graph(out, 0), Graph(edges, 1), src, dst);
  }

  lemma NoFilling(edges: seq<InputEdge>, src: nat, dst: nat, out: seq<InputEdge>)
    requires !ZeroWalk(Graph(edges, 1), src, dst)
    ensures !Answer(edges, src, dst, 0, out)
  {
    if Fills(edges, out) { AnswerForZero(edges, src, dst, out); }
  }

  function OnesFilled(edges: seq<InputEdge>): seq<InputEdge> {
    seq(|edges|, i requires 0 <= i < |edges| => if edges[i].w < 0 then edges[i].(w := 1) else edges[i])
  }

  /** The code decides by the first graph, where open edges weigh 0. */
  lemma BuiltForZero(g: set<Arc>, edges: seq<InputEdge>, out: seq<InputEdge>, src: nat, dst: nat)
    requires Built(g, edges, out, |edges|, 0)
    ensures ZeroWalk(g, src, dst) <==> ZeroWalk(Graph(edges, 0), src, dst)
  {
    SameZeroWalks(g, Graph(edges, 0), src, dst);
  }

  lemma ExactIsZero(g: set<Arc>, src: nat, dst: nat, inf: nat, dSrc: seq<nat>)
    requires Exact(g, src, inf, dSrc) && dst < |dSrc| && 0 < inf
    ensures dSrc[dst] == 0 <==> ZeroWalk(g, src, dst)
  {
    if p :| Walk(g, src, p, dst) && Weight(p) == 0 { ClosedBoundsWalks(g, dSrc, src, p, dst); }
  }

  ghost predicate IsRight(edges: seq<InputEdge>, src: nat, dst: nat, target: nat, r: seq<InputEdge>) {
    if r == [] then forall out :: !Answer(edges, src, dst, target, out) else Answer(edges, src, dst, target, r)
  }

  /** The edges over which a target of 0 can be met. */
  ghost predicate FixedZero(edges: seq<InputEdge>, src: nat, dst: nat) { ZeroWalk(Graph(edges, 1), src, dst) }

  /** The edges over which the code finds it met. */
  ghost predicate OpenZero(edges: seq<InputEdge>, src: nat, dst: nat) { ZeroWalk(Graph(edges, 0), src, dst) }

  lemma RightForZero(edges: seq<InputEdge>, src: nat, dst: nat, r: seq<InputEdge>)
    requires r == [] || Fills(edges, r)
    requires r != [] <==> edges != [] && OpenZero(edges, src, dst)
    ensures IsRight(edges, src, dst, 0, r) <==> (FixedZero(edges, src, dst) <==> edges != [] && OpenZero(edges, src, dst))
  {
    if r != [] {
      AnswerForZero(edges, src, dst, r);
    } else if FixedZero(edges, src, dst) {
      AnswerForZero(edges, src, dst, OnesFilled(edges));
    } else {
      forall out ensures !Answer(edges, src, dst, 0, out) { NoFilling(edges, src, dst, out); }
    }
  }

  /** One open edge between the two nodes: the code takes a target of 0 as met, though the edge gets a weight of 1. */
  lemma WrongForZero()
    ensures var edges := [InputEdge(0, 1, -1)]; OpenZero(edges, 0, 1) && !FixedZero(edges, 0, 1)
  {
    var edges := [InputEdge(0, 1, -1)];
    var arc := Arc(0, 1, 0);
    GraphHas(edges, 0, arc);
    assert arc in Both(edges[0].a, edges[0].b, FirstWeight(edges[0], 0));
    OneArc(Graph(edges, 0), arc);
    forall other | other in Graph(edges, 1) ensures other.w == 1 { GraphHas(edges, 1, other); }
    forall p ensures !(Walk(Graph(edges, 1), 0, p, 1) && Weight(p) == 0) {}
  }

  // ----- the program -----

  /** std::numeric_limits<size_t>::max() / 2 on 64 bits. */
  const K_INF: nat := 0x7FFF_FFFF_FFFF_FFFF

  lemma ClosedIsRelaxed(el: seq<seq<Edge>>, el': seq<seq<Edge>>, dist: seq<nat>, a: nat, b: nat)
    requires |dist| == |el| == |el'| && EdgesInRange(el) && EdgesInRange(el') && Closed(Arcs(el), dist)
    requires forall u :: 0 <= u < |el| && u != a && u != b ==> el'[u] == el[u]
    ensures forall u :: 0 <= u < |el| && u !in [a, b] ==> Relaxed(el', dist, u)
  {
    forall u, k | 0 <= u < |el| && u !in [a, b] && 0 <= k < |el'[u]|
      ensures dist[el'[u][k].out] <= dist[u] + el'[u][k].w
    {
      assert Arc(u, el[u][k].out, el[u][k].w) in Arcs(el);
    }
  }

  lemma SeedsRelaxed(el: seq<seq<Edge>>, seeds: seq<nat>, src: nat, inf: nat)
    requires |seeds| == |el| && EdgesInRange(el)
    requires forall v :: 0 <= v < |seeds| ==> seeds[v] == if v == src then 0 else inf
    ensures forall u :: 0 <= u < |el| && u !in [src] ==> Relaxed(el, seeds, u)
  {}

  lemma FirstBuilt(edges: seq<InputEdge>, target: nat)
    ensures Built(Graph(edges, target), edges, edges, 0, target)
  {}

  /** The graph with every open weight set to target. */
  method FirstGraph(n: nat, edges: seq<InputEdge>, target: nat) returns (dj: Dijkstra)
    requires Input(n, edges)
    ensures fresh(dj) && dj.Valid() && dj.n == n && Arcs(dj.el) == Graph(edges, target)
  {
    hide Arcs;
    dj := new Dijkstra(n);
    for i := 0 to |edges|
      invariant fresh(dj) && dj.Valid() && dj.n == n
      invariant Arcs(dj.el) == Graph(edges[..i], target)
    {
      var e := edges[i];
      var w := if e.w < 0 then target else e.w;
      assert edges[..i + 1][..i] == edges[..i];
      AddBothWays(dj, e.a, e.b, w);
    }
    assert edges[..|edges|] == edges;
  }

  method AddBothWays(dj: Dijkstra, a: nat, b: nat, w: nat)
    requires dj.Valid() && a < dj.n && b < dj.n
    modifies dj
    ensures dj.Valid() && Arcs(dj.el) == old(Arcs(dj.el)) + Both(a, b, w)
    ensures forall u :: 0 <= u < dj.n && u != a && u != b ==> dj.el[u] == old(dj.el)[u]
  {
    hide Arcs;
    dj.AddEdge(a, b, w);
    dj.AddEdge(b, a, w);
  }

  /** Distances from one node, seeded with 0 there and the sentinel elsewhere. */
  method FirstDistances(dj: Dijkstra, src: nat) returns (dist: seq<nat>)
    requires dj.Valid() && src < dj.n
    ensures |dist| == dj.n && Exact(Arcs(dj.el), src, K_INF, dist)
  {
    hide Arcs, Closed, Shortest, Exact, Relaxed;
    var seeds := seq(dj.n, v => if v == src then 0 else K_INF);
    SeedsRelaxed(dj.el, seeds, src, K_INF);
    dist := dj.Run([src], seeds);
    FirstExact(Arcs(dj.el), src, K_INF, seeds, dist);
  }

  /** The main loop: gives each open edge the least weight that keeps the distance at target or above. */
  method FillOpenEdges(dj: Dijkstra, edges: seq<InputEdge>, src: nat, dst: nat, target: nat, dSrc0: seq<nat>, dDst0: seq<nat>)
    returns (res: seq<InputEdge>, dSrc: seq<nat>, dDst: seq<nat>)
    requires dj.Valid() && Input(dj.n, edges) && dst < dj.n && |dSrc0| == |dDst0| == dj.n && target < K_INF
    requires Arcs(dj.el) == Graph(edges, target) && Ready(Arcs(dj.el), src, dst, K_INF, dSrc0, dDst0, target)
    modifies dj
    ensures dj.Valid() && |dSrc| == |dDst| == dj.n && |res| == |edges|
    ensures Built(Arcs(dj.el), edges, res, |edges|, target)
    ensures Ready(Arcs(dj.el), src, dst, K_INF, dSrc, dDst, target)
    ensures dSrc[dst] == target || forall j :: 0 <= j < |edges| && edges[j].w < 0 ==> res[j].w == 1
  {
    hide Walk, Weight, Closed, Shortest, Exact, Arcs, Built, Relaxed, Ready, Symmetric, PickWeight;
    FirstBuilt(edges, target);
    res, dSrc, dDst := edges, dSrc0, dDst0;
    for i := 0 to |edges|
      invariant dj.Valid() && |dSrc| == |dDst| == dj.n && |res| == |edges|
      invariant forall j :: i <= j < |edges| ==> res[j] == edges[j]
      invariant Built(Arcs(dj.el), edges, res, i, target)
      invariant Ready(Arcs(dj.el), src, dst, K_INF, dSrc, dDst, target)
      invariant dSrc[dst] == target || forall j :: 0 <= j < i && edges[j].w < 0 ==> res[j].w == 1
    {
      var e := res[i];
      if e.w < 0 {
        ghost var before, el := Arcs(dj.el), dj.el;
        var w := PickWeight(dSrc, dDst, e.a, e.b, target);
        BuiltStep(before, edges, res, i, target, w);
        res := res[i := e.(w := w)];
        AddBothWays(dj, e.a, e.b, w);
        ReadyIsClosed(before, src, dst, K_INF, dSrc, dDst, target);
        ClosedIsRelaxed(el, dj.el, dSrc, e.a, e.b);
        ClosedIsRelaxed(el, dj.el, dDst, e.a, e.b);
        var dSrc': seq<nat> := dj.Run([e.a, e.b], dSrc);
        var dDst': seq<nat> := dj.Run([e.a, e.b], dDst);
        BothUpdated(before, src, dst, K_INF, dSrc, dDst, e.a, e.b, target, dSrc', dDst');
        dSrc, dDst := dSrc', dDst';
      } else {
        BuiltSkip(Arcs(dj.el), edges, res, i, target);
      }
    }
  }

  /** A non-empty result is an answer; an empty one means that there is none.  For a target of 0 that holds exactly when
      open edges make no difference to whether dst can be reached at no weight. */
  method ModifiedGraphEdges(n: nat, edges: seq<InputEdge>, src: nat, dst: nat, target: nat) returns (r: seq<InputEdge>)
    requires Input(n, edges) && src < n && dst < n
    requires target * target < 0x7FFF_FFFF_FFFF_FFFF
    ensures 1 <= target && r != [] ==> Answer(edges, src, dst, target, r)
    ensures 1 <= target && r == [] ==> forall out :: !Answer(edges, src, dst, target, out)
    ensures r != [] ==> Fills(edges, r)
    ensures target == 0 ==> (r != [] <==> edges != [] && OpenZero(edges, src, dst))
    ensures target == 0 ==>
      (IsRight(edges, src, dst, 0, r) <==> (FixedZero(edges, src, dst) <==> edges != [] && OpenZero(edges, src, dst)))
  {
    r := FillOrNothing(n, edges, src, dst, target);
    if target == 0 { RightForZero(edges, src, dst, r); }
  }

  method FillOrNothing(n: nat, edges: seq<InputEdge>, src: nat, dst: nat, target: nat) returns (r: seq<InputEdge>)
    requires Input(n, edges) && src < n && dst < n
    requires target * target < 0x7FFF_FFFF_FFFF_FFFF
    ensures 1 <= target && r != [] ==> Answer(edges, src, dst, target, r)
    ensures 1 <= target && r == [] ==> forall out :: !Answer(edges, src, dst, target, out)
    ensures r != [] ==> Fills(edges, r)
    ensures target == 0 ==> (r != [] <==> edges != [] && OpenZero(edges, src, dst))
  {
    hide Walk, Weight, Closed, Shortest, Exact, Arcs, Built, Relaxed, Answer, Ready, Symmetric, PickWeight, ZeroWalk, Fills;
    var dj := FirstGraph(n, edges, target);
    ghost var g := Arcs(dj.el);
    GraphSymmetric(edges, target);

    var dSrc: seq<nat> := FirstDistances(dj, src);
    var dDst: seq<nat> := FirstDistances(dj, dst);
    ExactIsZero(g, src, dst, K_INF, dSrc);
    if dSrc[dst] == K_INF {
      if 1 <= target {
        forall out ensures !Answer(edges, src, dst, target, out) { NotConnected(edges, src, dst, target, K_INF, dSrc, out); }
      }
      return [];
    }
    if dSrc[dst] < target {
      forall out ensures !Answer(edges, src, dst, target, out) { TooShort(edges, src, dst, target, K_INF, dSrc, out); }
      return [];
    }
    FirstReady(g, src, dst, K_INF, dSrc, dDst, target);
    var res;
    res, dSrc, dDst := FillOpenEdges(dj, edges, src, dst, target, dSrc, dDst);
    ReadyIsExact(Arcs(dj.el), src, dst, K_INF, dSrc, dDst, target);
    BuiltFills(Arcs(dj.el), edges, res, target);
    if target == 0 {
      BuiltForZero(Arcs(dj.el), edges, res, src, dst);
      ExactIsZero(Arcs(dj.el), src, dst, K_INF, dSrc);
    }
    if dSrc[dst] == target {
      if 1 <= target {
        FinalDistance(Arcs(dj.el), edges, res, src, dst, K_INF, dSrc, target);
        TargetNeedsAnEdge(edges, src, dst, target, res);
      }
      return res;
    }
    if 1 <= target {
      forall out ensures !Answer(edges, src, dst, target, out) {
        TooLong(Arcs(dj.el), edges, res, src, dst, target, K_INF, dSrc, out);
      }
    }
    r := [];
  }

  lemma ReadyIsClosed(g: set<Arc>, src: nat, dst: nat, inf: nat, dSrc: seq<nat>, dDst: seq<nat>, target: nat)
    requires Ready(g, src, dst, inf, dSrc, dDst, target)
    ensures Closed(g, dSrc) && Closed(g, dDst)
  {}

  lemma BothUpdated(g: set<Arc>, src: nat, dst: nat, inf: nat, dSrc: seq<nat>, dDst: seq<nat>, a: nat, b: nat, target: nat,
      dSrc': seq<nat>, dDst': seq<nat>)
    requires Ready(g, src, dst, inf, dSrc, dDst, target) && a < |dSrc| && b < |dSrc| && dst < |dSrc|
    requires |dSrc'| == |dDst'| == |dSrc| && target < inf
    requires var h := g + Both(a, b, PickWeight(dSrc, dDst, a, b, target));
             Closed(h, dSrc') && Shortest(h, dSrc, dSrc') && Closed(h, dDst') && Shortest(h, dDst, dDst')
    requires forall v :: 0 <= v < |dSrc| ==> dSrc'[v] <= dSrc[v] && dDst'[v] <= dDst[v]
    ensures var w := PickWeight(dSrc, dDst, a, b, target);
            && Ready(g + Both(a, b, w), src, dst, inf, dSrc', dDst', target)
            && (dSrc[dst] == target || 1 < w ==> dSrc'[dst] == target)
  {
    hide Exact, Closed, Shortest;
    var h := g + Both(a, b, PickWeight(dSrc, dDst, a, b, target));
    StillExact(g, h, src, inf, dSrc, dSrc');
    StillExact(g, h, dst, inf, dDst, dDst');
    EdgeAdded(g, src, dst, inf, dSrc, dDst, a, b, target, dSrc', dDst');
  }

  lemma FirstReady(g: set<Arc>, src: nat, dst: nat, inf: nat, dSrc: seq<nat>, dDst: seq<nat>, target: nat)
    requires Symmetric(g) && |dSrc| == |dDst| && dst < |dSrc|
    requires Exact(g, src, inf, dSrc) && Exact(g, dst, inf, dDst) && target <= dSrc[dst]
    ensures Ready(g, src, dst, inf, dSrc, dDst, target)
  {}

  lemma ReadyIsExact(g: set<Arc>, src: nat, dst: nat, inf: nat, dSrc: seq<nat>, dDst: seq<nat>, target: nat)
    requires Ready(g, src, dst, inf, dSrc, dDst, target)
    ensures Exact(g, src, inf, dSrc) && dst < |dSrc| && target <= dSrc[dst]
  {}

  /** A positive distance takes an edge. */
  lemma TargetNeedsAnEdge(edges: seq<InputEdge>, src: nat, dst: nat, target: nat, out: seq<InputEdge>)
    requires Answer(edges, src, dst, target, out) && 1 <= target
    ensures out != []
  {
    var p :| Walk(Graph(out, 0), src, p, dst) && Weight(p) == target;
    assert p != [] && p[0] in Graph(out, 0);
  }
}
