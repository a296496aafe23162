/**
  The Dijkstra class of cpp/Dijkstra.cc and cpp/4fun/LC-2699.cc: distances that may be seeded and are brought up to
  date from any set of sources, right for any order in which the heap gives its entries out.
*/
module DijkstraHeap {
  import opened Walks

  datatype Edge = Edge(out: nat, w: nat)

  datatype Entry = Entry(d: nat, v: nat)

  ghost function Arcs(el: seq<seq<Edge>>): set<Arc> {
    set u: nat, k: nat | u < |el| && k < |el[u]| :: Arc(u, el[u][k].out, el[u][k].w)
  }

  predicate EdgesInRange(el: seq<seq<Edge>>) {
    forall u, k :: 0 <= u < |el| && 0 <= k < |el[u]| ==> el[u][k].out < |el|
  }

  /** No edge out of `u` can shorten `dist`. */
  predicate Relaxed(el: seq<seq<Edge>>, dist: seq<nat>, u: nat)
    requires |dist| == |el| && EdgesInRange(el) && u < |el|
  {
    forall k :: 0 <= k < |el[u]| ==> dist[el[u][k].out] <= dist[u] + el[u][k].w
  }

  function SumOf(dist: seq<nat>): nat {
    if dist == [] then 0 else dist[0] + SumOf(dist[1..])
  }

  lemma {:induction false} SumOfUpdate(dist: seq<nat>, k: nat, x: nat)
    requires k < |dist|
    ensures SumOf(dist[k := x]) == SumOf(dist) - dist[k] + x
  {
    if k == 0 {
      assert dist[0 := x][1..] == dist[1..];
    } else {
      assert dist[k := x][1..] == dist[1..][k - 1 := x];
      SumOfUpdate(dist[1..], k - 1, x);
    }
  }

  /** Every node with an edge left to relax waits in the heap with its current distance. */
  ghost predicate HeapCovers(el: seq<seq<Edge>>, dist: seq<nat>, heap: seq<Entry>)
    requires |dist| == |el| && EdgesInRange(el)
  {
    && (forall e :: e in heap ==> e.v < |el| && dist[e.v] <= e.d)
    && (forall u :: 0 <= u < |el| ==> Entry(dist[u], u) in heap || Relaxed(el, dist, u))
  }

  /** As `HeapCovers`, while the first `k` edges of `v` have been looked at. */
  ghost predicate Scanning(el: seq<seq<Edge>>, dist: seq<nat>, heap: seq<Entry>, v: nat, k: nat)
    requires |dist| == |el| && EdgesInRange(el) && v < |el| && k <= |el[v]|
  {
    && (forall e :: e in heap ==> e.v < |el| && dist[e.v] <= e.d)
    && (forall u :: 0 <= u < |el| && u != v ==> Entry(dist[u], u) in heap || Relaxed(el, dist, u))
    && (forall i :: 0 <= i < k ==> dist[el[v][i].out] <= dist[v] + el[v][i].w)
  }

  /** Each distance stands for a walk from some seed, and is no larger than its own seed. */
  ghost predicate FromSeeds(el: seq<seq<Edge>>, seeds: seq<nat>, dist: seq<nat>) {
    && |dist| == |seeds| == |el|
    && forall v :: 0 <= v < |dist| ==> dist[v] <= seeds[v] && Attained(Arcs(el), seeds, v, dist[v])
  }

  lemma SourcesCover(el: seq<seq<Edge>>, srcs: seq<nat>, seeds: seq<nat>, heap: seq<Entry>)
    requires |seeds| == |el| && EdgesInRange(el)
    requires forall e :: e in heap ==> e.v < |el| && e.d == seeds[e.v]
    requires forall j :: 0 <= j < |srcs| ==> srcs[j] < |el| && Entry(seeds[srcs[j]], srcs[j]) in heap
    requires forall u :: 0 <= u < |el| && u !in srcs ==> Relaxed(el, seeds, u)
    ensures HeapCovers(el, seeds, heap)
  {}

  lemma LookAtNext(el: seq<seq<Edge>>, dist: seq<nat>, heap: seq<Entry>, v: nat, k: nat)
    requires |dist| == |el| && EdgesInRange(el) && v < |el| && k < |el[v]| && Scanning(el, dist, heap, v, k)
    requires dist[el[v][k].out] <= dist[v] + el[v][k].w
    ensures Scanning(el, dist, heap, v, k + 1)
  {}

  lemma PopCovers(el: seq<seq<Edge>>, dist: seq<nat>, heap: seq<Entry>, i: nat)
    requires |dist| == |el| && EdgesInRange(el) && HeapCovers(el, dist, heap) && i < |heap|
    ensures heap[i].v < |el| && Scanning(el, dist, heap[..i] + heap[i + 1..], heap[i].v, 0)
    ensures dist[heap[i].v] <= heap[i].d
    ensures dist[heap[i].v] < heap[i].d ==> HeapCovers(el, dist, heap[..i] + heap[i + 1..])
  {
    var rest := heap[..i] + heap[i + 1..];
    forall e | e in heap && e != heap[i] ensures e in rest {
      var j :| 0 <= j < |heap| && heap[j] == e;
      assert if j < i then rest[j] == e else rest[j - 1] == e;
    }
    assert forall e :: e in rest ==> e in heap;
  }

  lemma RelaxOne(el: seq<seq<Edge>>, dist: seq<nat>, heap: seq<Entry>, v: nat, k: nat)
    requires |dist| == |el| && EdgesInRange(el) && v < |el| && k < |el[v]| && Scanning(el, dist, heap, v, k)
    requires dist[v] + el[v][k].w < dist[el[v][k].out]
    ensures var dd, out := dist[v] + el[v][k].w, el[v][k].out;
            Scanning(el, dist[out := dd], heap + [Entry(dd, out)], v, k + 1)
  {
    var dd, out := dist[v] + el[v][k].w, el[v][k].out;
    var dist', heap' := dist[out := dd], heap + [Entry(dd, out)];
    assert heap'[|heap|] == Entry(dd, out);
    forall u | 0 <= u < |el| && u != v ensures Entry(dist'[u], u) in heap' || Relaxed(el, dist', u) {
      if u != out && Entry(dist[u], u) !in heap { assert Relaxed(el, dist, u); }
    }
  }

  lemma ScanDone(el: seq<seq<Edge>>, dist: seq<nat>, heap: seq<Entry>, v: nat)
    requires |dist| == |el| && EdgesInRange(el) && v < |el| && Scanning(el, dist, heap, v, |el[v]|)
    ensures HeapCovers(el, dist, heap)
  {
    assert Relaxed(el, dist, v);
  }

  lemma AttainedStep(el: seq<seq<Edge>>, seeds: seq<nat>, dist: seq<nat>, v: nat, k: nat)
    requires FromSeeds(el, seeds, dist) && EdgesInRange(el) && v < |el| && k < |el[v]|
    requires dist[v] + el[v][k].w < dist[el[v][k].out]
    ensures FromSeeds(el, seeds, dist[el[v][k].out := dist[v] + el[v][k].w])
  {
    var out, w := el[v][k].out, el[v][k].w;
    var u: nat, p :| u < |seeds| && Walk(Arcs(el), u, p, v) && dist[v] == seeds[u] + Weight(p);
    var arc := Arc(v, out, w);
    assert arc in Arcs(el);
    OneArc(Arcs(el), arc);
    WalkConcat(Arcs(el), u, p, v, [arc], out);
    assert Attained(Arcs(el), seeds, out, dist[v] + w);
  }

  lemma SeedsAttained(el: seq<seq<Edge>>, seeds: seq<nat>)
    requires |seeds| == |el|
    ensures FromSeeds(el, seeds, seeds)
  {
    forall v | 0 <= v < |seeds| ensures Attained(Arcs(el), seeds, v, seeds[v]) {
      assert Walk(Arcs(el), v, [], v) && Weight([]) == 0;
    }
  }

  lemma EmptyHeapIsShortest(el: seq<seq<Edge>>, seeds: seq<nat>, dist: seq<nat>)
    requires EdgesInRange(el) && FromSeeds(el, seeds, dist) && HeapCovers(el, dist, [])
    ensures |dist| == |seeds| && forall v :: 0 <= v < |dist| ==> dist[v] <= seeds[v]
    ensures Closed(Arcs(el), dist) && Shortest(Arcs(el), seeds, dist)
  {
    forall arc | arc in Arcs(el)
      ensures arc.from < |dist| && arc.to < |dist| && dist[arc.to] <= dist[arc.from] + arc.w
    {
      assert Relaxed(el, dist, arc.from);
    }
    ClosedAndAttained(Arcs(el), seeds, dist);
  }

  lemma AddedArc(el: seq<seq<Edge>>, a: nat, b: nat, w: nat)
    requires a < |el|
    ensures Arcs(el[a := el[a] + [Edge(b, w)]]) == Arcs(el) + {Arc(a, b, w)}
  {
    var el' := el[a := el[a] + [Edge(b, w)]];
    forall arc | arc in Arcs(el) ensures arc in Arcs(el') {
      var u: nat, k: nat :| u < |el| && k < |el[u]| && arc == Arc(u, el[u][k].out, el[u][k].w);
      assert el'[u][k] == el[u][k];
    }
    assert el'[a][|el[a]|] == Edge(b, w);
    forall arc | arc in Arcs(el') ensures arc in Arcs(el) + {Arc(a, b, w)} {
      var u: nat, k: nat :| u < |el'| && k < |el'[u]| && arc == Arc(u, el'[u][k].out, el'[u][k].w);
      if k < |el[u]| { assert el'[u][k] == el[u][k]; }
    }
  }

  class Dijkstra {
    const n: nat
    var el: seq<seq<Edge>>

    ghost predicate Valid()
      reads this
    {
      |el| == n && EdgesInRange(el)
    }

    constructor (n: nat)
      ensures Valid() && this.n == n && Arcs(el) == {}
    {
      this.n := n;
      el := seq(n, _ => []);
    }

    method AddEdge(a: nat, b: nat, w: nat)
      requires Valid() && a < n && b < n
      modifies this
      ensures Valid() && Arcs(el) == old(Arcs(el)) + {Arc(a, b, w)}
      ensures el == old(el)[a := old(el)[a] + [Edge(b, w)]]
    {
      AddedArc(el, a, b, w);
      el := el[a := el[a] + [Edge(b, w)]];
    }

    /** Brings seeded distances up to date.  Only nodes among the sources may have an edge that can still shorten
        them.  Which heap entry comes first does not matter for the result. */
    method Run(srcs: seq<nat>, seeds: seq<nat>) returns (dist: seq<nat>)
      requires Valid() && |seeds| == n
      requires forall i :: 0 <= i < |srcs| ==> srcs[i] < n
      requires forall u :: 0 <= u < n && u !in srcs ==> Relaxed(el, seeds, u)
      ensures |dist| == n && forall v :: 0 <= v < n ==> dist[v] <= seeds[v]
      ensures Closed(Arcs(el), dist) && Shortest(Arcs(el), seeds, dist)
    {
      hide Relaxed, Attained, Walk, Closed, Shortest, Arcs, HeapCovers, Scanning, FromSeeds;
      dist := seeds;
      var heap: seq<Entry> := [];
      for i := 0 to |srcs|
        invariant forall e :: e in heap ==> e.v < n && e.d == dist[e.v]
        invariant forall j :: 0 <= j < i ==> Entry(dist[srcs[j]], srcs[j]) in heap
      {
        heap := heap + [Entry(dist[srcs[i]], srcs[i])];
      }
      SeedsAttained(el, seeds);
      SourcesCover(el, srcs, seeds, heap);
      while heap != []
        invariant |dist| == n && HeapCovers(el, dist, heap) && FromSeeds(el, seeds, dist)
        decreases SumOf(dist), |heap|
      {
        var i :| 0 <= i < |heap|;
        var top := heap[i];
        PopCovers(el, dist, heap, i);
        heap := heap[..i] + heap[i + 1..];
        if top.d > dist[top.v] {
          continue;
        }
        var v := top.v;
        ghost var before, size := dist, |heap|;
        for k := 0 to |el[v]|
          invariant |dist| == n && Scanning(el, dist, heap, v, k) && FromSeeds(el, seeds, dist)
          invariant dist[v] == top.d
          invariant (dist == before && |heap| == size) || SumOf(dist) < SumOf(before)
        {
          var e := el[v][k];
          var dd := top.d + e.w;
          if dd < dist[e.out] {
            RelaxOne(el, dist, heap, v, k);
            AttainedStep(el, seeds, dist, v, k);
            SumOfUpdate(dist, e.out, dd);
            dist := dist[e.out := dd];
            heap := heap + [Entry(dd, e.out)];
          } else {
            LookAtNext(el, dist, heap, v, k);
          }
        }
        ScanDone(el, dist, heap, v);
      }
      EmptyHeapIsShortest(el, seeds, dist);
    }
  }
}
