/** Walks over weighted arcs, their weight, and what it means for an array to hold the shortest ones. */
module Walks {

  datatype Arc = Arc(from: nat, to: nat, w: nat)

  ghost predicate Walk(g: set<Arc>, u: nat, path: seq<Arc>, v: nat)
    decreases |path|
  {
    if path == [] then u == v
    else path[0] in g && path[0].from == u && Walk(g, path[0].to, path[1..], v)
  }

  function Weight(path: seq<Arc>): nat {
    if path == [] then 0 else path[0].w + Weight(path[1..])
  }

  lemma {:induction false} WalkConcat(g: set<Arc>, u: nat, p: seq<Arc>, v: nat, q: seq<Arc>, x: nat)
    requires Walk(g, u, p, v) && Walk(g, v, q, x)
    ensures Walk(g, u, p + q, x) && Weight(p + q) == Weight(p) + Weight(q)
    decreases |p|
  {
    if p == [] {
      assert p + q == q;
    } else {
      assert (p + q)[1..] == p[1..] + q;
      WalkConcat(g, p[0].to, p[1..], v, q, x);
    }
  }

  lemma {:induction false} WalkMore(g: set<Arc>, h: set<Arc>, u: nat, p: seq<Arc>, v: nat)
    requires g <= h && Walk(g, u, p, v)
    ensures Walk(h, u, p, v)
    decreases |p|
  {
    if p != [] { WalkMore(g, h, p[0].to, p[1..], v); }
  }

  lemma OneArc(g: set<Arc>, arc: Arc)
    requires arc in g
    ensures Walk(g, arc.from, [arc], arc.to) && Weight([arc]) == arc.w
  {
    assert [arc][1..] == [];
  }

  ghost predicate Symmetric(g: set<Arc>) {
    forall arc :: arc in g ==> Arc(arc.to, arc.from, arc.w) in g
  }

  lemma {:induction false} WalkBack(g: set<Arc>, u: nat, p: seq<Arc>, v: nat) returns (q: seq<Arc>)
    requires Symmetric(g) && Walk(g, u, p, v)
    ensures Walk(g, v, q, u) && Weight(q) == Weight(p)
    decreases |p|
  {
    if p == [] {
      q := [];
    } else {
      var rest := WalkBack(g, p[0].to, p[1..], v);
      var back := Arc(p[0].to, p[0].from, p[0].w);
      OneArc(g, back);
      WalkConcat(g, v, rest, p[0].to, [back], u);
      q := rest + [back];
    }
  }

  /** No arc can shorten `dist`. */
  ghost predicate Closed(g: set<Arc>, dist: seq<nat>) {
    forall arc :: arc in g ==> arc.from < |dist| && arc.to < |dist| && dist[arc.to] <= dist[arc.from] + arc.w
  }

  lemma {:induction false} ClosedBoundsWalks(g: set<Arc>, dist: seq<nat>, u: nat, p: seq<Arc>, v: nat)
    requires Closed(g, dist) && Walk(g, u, p, v) && u < |dist|
    ensures v < |dist| && dist[v] <= dist[u] + Weight(p)
    decreases |p|
  {
    if p != [] { ClosedBoundsWalks(g, dist, p[0].to, p[1..], v); }
  }

  /** Some walk ends at `v` and weighs `x` on top of the seed of its start. */
  ghost predicate Attained(g: set<Arc>, seeds: seq<nat>, v: nat, x: nat) {
    exists u: nat, p :: u < |seeds| && Walk(g, u, p, v) && x == seeds[u] + Weight(p)
  }

  /** `dist[v]` is the least seed plus walk that ends at `v`. */
  ghost predicate Shortest(g: set<Arc>, seeds: seq<nat>, dist: seq<nat>) {
    && |dist| == |seeds|
    && (forall v :: 0 <= v < |dist| ==> Attained(g, seeds, v, dist[v]))
    && (forall u: nat, p, v: nat :: u < |dist| && v < |dist| && Walk(g, u, p, v) ==> dist[v] <= seeds[u] + Weight(p))
  }

  /** There is only one array of shortest distances. */
  lemma ShortestIsUnique(g: set<Arc>, seeds: seq<nat>, dist: seq<nat>, other: seq<nat>)
    requires Shortest(g, seeds, dist) && Shortest(g, seeds, other)
    ensures dist == other
  {
    forall v | 0 <= v < |seeds| ensures dist[v] == other[v] {
      assert Attained(g, seeds, v, dist[v]) && Attained(g, seeds, v, other[v]);
    }
  }

  lemma ClosedAndAttained(g: set<Arc>, seeds: seq<nat>, dist: seq<nat>)
    requires |dist| == |seeds| && Closed(g, dist)
    requires forall v :: 0 <= v < |dist| ==> dist[v] <= seeds[v] && Attained(g, seeds, v, dist[v])
    ensures Shortest(g, seeds, dist)
  {
    forall u: nat, p, v: nat | u < |dist| && v < |dist| && Walk(g, u, p, v) ensures dist[v] <= seeds[u] + Weight(p) {
      ClosedBoundsWalks(g, dist, u, p, v);
    }
  }
}
