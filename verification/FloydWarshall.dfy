/**
  cpp/FloydWarshall.cc: all shortest distances with the first edge of each shortest path, and adding an edge in place.

  Both the rounds of the constructor and addEdge bring every pair up to date with a detour i -> a, w, b -> j: round k
  has a = b = k and w = 0, addEdge has the new edge.
*/
module FloydWarshallMatrix {
  import opened Walks
  import opened Wrappers

  datatype Edge = Edge(a: nat, b: nat, w: nat)

  type Matrix = seq<seq<nat>>

  /** std::numeric_limits<size_t>::max() / 3 on 64 bits: what stands for no path. */
  const INF: nat := 0x5555_5555_5555_5555

  ghost function Arcs(edges: seq<Edge>): set<Arc> {
    set e | e in edges :: Arc(e.a, e.b, e.w)
  }

  predicate InRange(n: nat, edges: seq<Edge>) {
    forall i :: 0 <= i < |edges| ==> edges[i].a < n && edges[i].b < n
  }

  predicate Square<T>(n: nat, m: seq<seq<T>>) {
    |m| == n && forall i :: 0 <= i < n ==> |m[i]| == n
  }

  function SetCell<T>(m: seq<seq<T>>, i: nat, j: nat, x: T): seq<seq<T>>
    requires i < |m| && j < |m[i]|
  {
    m[i := m[i][j := x]]
  }

  /** Every distance is 0 on the diagonal, at most INF, and the weight of a walk if it is less than INF. */
  ghost predicate Sound(n: nat, g: set<Arc>, d: Matrix)
    requires Square(n, d)
  {
    && (forall i :: 0 <= i < n ==> d[i][i] == 0)
    && (forall i, j :: 0 <= i < n && 0 <= j < n ==> d[i][j] <= INF)
    && (forall i, j :: 0 <= i < n && 0 <= j < n && d[i][j] < INF ==> exists p :: Walk(g, i, p, j) && Weight(p) == d[i][j])
  }

  ghost predicate CoversArcs(n: nat, g: set<Arc>, d: Matrix)
    requires Square(n, d)
  {
    forall arc :: arc in g ==> arc.from < n && arc.to < n && d[arc.from][arc.to] <= arc.w
  }

  /** No detour over a node below `k` is shorter. */
  ghost predicate Triangle(n: nat, d: Matrix, k: nat)
    requires Square(n, d)
  {
    forall i, m, j :: 0 <= i < n && 0 <= m < k && m < n && 0 <= j < n ==> d[i][j] <= d[i][m] + d[m][j]
  }

  /** The distances of the graph `g`, cut off at INF. */
  ghost predicate Exact(n: nat, g: set<Arc>, d: Matrix) {
    Square(n, d) && Sound(n, g, d) && CoversArcs(n, g, d) && Triangle(n, d, n)
  }

  /** `next[i][j]` is an edge out of `i` that a shortest path to `j` can begin with. */
  ghost predicate FirstEdges(n: nat, edges: seq<Edge>, d: Matrix, next: seq<seq<int>>)
    requires Square(n, d) && Square(n, next) && InRange(n, edges)
  {
    forall i, j :: 0 <= i < n && 0 <= j < n && i != j ==> FirstEdge(n, edges, d, next, i, j)
  }

  predicate FirstEdge(n: nat, edges: seq<Edge>, d: Matrix, next: seq<seq<int>>, i: nat, j: nat)
    requires Square(n, d) && Square(n, next) && InRange(n, edges) && i < n && j < n
  {
    && next[i][j] < |edges|
    && (0 <= next[i][j] <==> d[i][j] < INF)
    && (0 <= next[i][j] ==> edges[next[i][j]].a == i && edges[next[i][j]].w + d[edges[next[i][j]].b][j] <= d[i][j])
  }

  // ----- what exactness means -----

  lemma {:induction false} NoWalkIsShorter(n: nat, g: set<Arc>, d: Matrix, i: nat, p: seq<Arc>, j: nat)
    requires Exact(n, g, d) && i < n && Walk(g, i, p, j)
    ensures j < n && d[i][j] <= Weight(p)
    decreases |p|
  {
    if p != [] {
      var m := p[0].to;
      NoWalkIsShorter(n, g, d, m, p[1..], j);
      assert d[i][j] <= d[i][m] + d[m][j];
    }
  }

  /** A graph has one exact matrix, so adding an edge in place and building anew agree. */
  lemma ExactIsUnique(n: nat, g: set<Arc>, d: Matrix, d': Matrix)
    requires Exact(n, g, d) && Exact(n, g, d')
    ensures d == d'
  {
    forall i, j | 0 <= i < n && 0 <= j < n ensures d[i][j] == d'[i][j] {
      AtMostTheOther(n, g, d, d', i, j);
      AtMostTheOther(n, g, d', d, i, j);
    }
    assert forall i :: 0 <= i < n ==> d[i] == d'[i];
  }

  lemma AtMostTheOther(n: nat, g: set<Arc>, d: Matrix, d': Matrix, i: nat, j: nat)
    requires Exact(n, g, d) && Exact(n, g, d') && i < n && j < n
    ensures d[i][j] <= d'[i][j]
  {
    if d'[i][j] < INF {
      var p :| Walk(g, i, p, j) && Weight(p) == d'[i][j];
      NoWalkIsShorter(n, g, d, i, p, j);
    }
  }

  // ----- one detour -----

  function Detour(d: Matrix, n: nat, a: nat, w: nat, b: nat, i: nat, j: nat): nat
    requires Square(n, d) && a < n && b < n && i < n && j < n
  {
    d[i][a] + w + d[b][j]
  }

  /** `d'` and `next'` are `d` and `next` after every pair has taken the detour if that is shorter. */
  ghost predicate Relaxed(n: nat, d: Matrix, next: seq<seq<int>>, a: nat, w: nat, b: nat, edge: int, d': Matrix, next': seq<seq<int>>)
    requires a < n && b < n && Square(n, d) && Square(n, next)
  {
    && Square(n, d') && Square(n, next')
    && forall i, j :: 0 <= i < n && 0 <= j < n ==> RelaxedAt(n, d, next, a, w, b, edge, d', next', i, j)
  }

  predicate RelaxedAt(n: nat, d: Matrix, next: seq<seq<int>>, a: nat, w: nat, b: nat, edge: int, d': Matrix, next': seq<seq<int>>, i: nat, j: nat)
    requires a < n && b < n && Square(n, d) && Square(n, next) && Square(n, d') && Square(n, next') && i < n && j < n
  {
    if Detour(d, n, a, w, b, i, j) < d[i][j]
    then d'[i][j] == Detour(d, n, a, w, b, i, j) && next'[i][j] == (if i == a then edge else next[i][a])
    else d'[i][j] == d[i][j] && next'[i][j] == next[i][j]
  }

  /** The pairs before `(x, y)`, row by row, have taken the detour; the others are as they were. */
  ghost predicate Partly(n: nat, d: Matrix, next: seq<seq<int>>, a: nat, w: nat, b: nat, edge: int, d': Matrix, next': seq<seq<int>>, x: nat, y: nat)
    requires a < n && b < n && Square(n, d) && Square(n, next)
  {
    && Square(n, d') && Square(n, next')
    && forall i, j :: 0 <= i < n && 0 <= j < n ==>
         if i < x || (i == x && j < y) then RelaxedAt(n, d, next, a, w, b, edge, d', next', i, j)
         else d'[i][j] == d[i][j] && next'[i][j] == next[i][j]
  }

  /** What the detour of a pair is made of does not change while the pairs are updated in place. */
  lemma DetourStays(n: nat, d: Matrix, next: seq<seq<int>>, a: nat, w: nat, b: nat, edge: int, d': Matrix, next': seq<seq<int>>, x: nat, y: nat)
    requires a < n && b < n && x < n && y < n && Square(n, d) && Square(n, next)
    requires Partly(n, d, next, a, w, b, edge, d', next', x, y)
    ensures d'[x][a] == d[x][a] && d'[b][y] == d[b][y] && next'[x][a] == next[x][a]
    ensures d'[x][y] == d[x][y] && next'[x][y] == next[x][y]
  {
    if a < y { assert RelaxedAt(n, d, next, a, w, b, edge, d', next', x, a); }
    if b < x { assert RelaxedAt(n, d, next, a, w, b, edge, d', next', b, y); }
  }

  lemma PartlyStep(n: nat, d: Matrix, next: seq<seq<int>>, a: nat, w: nat, b: nat, edge: int, d': Matrix, next': seq<seq<int>>, x: nat, y: nat, d'': Matrix, next'': seq<seq<int>>)
    requires a < n && b < n && x < n && y < n && Square(n, d) && Square(n, next)
    requires Partly(n, d, next, a, w, b, edge, d', next', x, y)
    requires Square(n, d'') && Square(n, next'')
    requires forall i, j :: 0 <= i < n && 0 <= j < n && (i != x || j != y) ==> d''[i][j] == d'[i][j] && next''[i][j] == next'[i][j]
    requires RelaxedAt(n, d, next, a, w, b, edge, d'', next'', x, y)
    ensures Partly(n, d, next, a, w, b, edge, d'', next'', x, y + 1)
  {}

  lemma PartlyRow(n: nat, d: Matrix, next: seq<seq<int>>, a: nat, w: nat, b: nat, edge: int, d': Matrix, next': seq<seq<int>>, x: nat)
    requires a < n && b < n && x < n && Square(n, d) && Square(n, next)
    requires Partly(n, d, next, a, w, b, edge, d', next', x, n)
    ensures Partly(n, d, next, a, w, b, edge, d', next', x + 1, 0)
  {}

  lemma PartlyAll(n: nat, d: Matrix, next: seq<seq<int>>, a: nat, w: nat, b: nat, edge: int, d': Matrix, next': seq<seq<int>>)
    requires a < n && b < n && Square(n, d) && Square(n, next)
    requires Partly(n, d, next, a, w, b, edge, d', next', n, 0)
    ensures Relaxed(n, d, next, a, w, b, edge, d', next')
  {}

  lemma RelaxedTriangle(n: nat, d: Matrix, next: seq<seq<int>>, a: nat, w: nat, b: nat, edge: int, d': Matrix, next': seq<seq<int>>, k: nat)
    requires a < n && b < n && Square(n, d) && Square(n, next) && Relaxed(n, d, next, a, w, b, edge, d', next')
    requires Triangle(n, d, k)
    ensures Triangle(n, d', k)
  {
    forall i, m, j | 0 <= i < n && 0 <= m < k && m < n && 0 <= j < n ensures d'[i][j] <= d'[i][m] + d'[m][j] {
      assert RelaxedAt(n, d, next, a, w, b, edge, d', next', i, j);
      assert RelaxedAt(n, d, next, a, w, b, edge, d', next', i, m);
      assert RelaxedAt(n, d, next, a, w, b, edge, d', next', m, j);
      assert d[i][j] <= d[i][m] + d[m][j];
      assert d[b][j] <= d[b][m] + d[m][j];
      assert d[i][a] <= d[i][m] + d[m][a];
    }
  }

  /** After round k, detours over k do not help any more. */
  lemma RoundAddsNode(n: nat, d: Matrix, next: seq<seq<int>>, k: nat, edge: int, d': Matrix, next': seq<seq<int>>)
    requires k < n && Square(n, d) && Square(n, next) && Relaxed(n, d, next, k, 0, k, edge, d', next')
    requires Triangle(n, d, k) && d[k][k] == 0
    ensures Triangle(n, d', k + 1)
  {
    RelaxedTriangle(n, d, next, k, 0, k, edge, d', next', k);
    forall i, j | 0 <= i < n && 0 <= j < n ensures d'[i][j] <= d'[i][k] + d'[k][j] {
      assert RelaxedAt(n, d, next, k, 0, k, edge, d', next', i, j);
      assert RelaxedAt(n, d, next, k, 0, k, edge, d', next', i, k);
      assert RelaxedAt(n, d, next, k, 0, k, edge, d', next', k, j);
    }
  }

  lemma DetourWalk(n: nat, g: set<Arc>, d: Matrix, a: nat, w: nat, b: nat, q: seq<Arc>, i: nat, j: nat) returns (p: seq<Arc>)
    requires a < n && b < n && i < n && j < n && Square(n, d) && Sound(n, g, d)
    requires Walk(g, a, q, b) && Weight(q) == w && Detour(d, n, a, w, b, i, j) < INF
    ensures Walk(g, i, p, j) && Weight(p) == Detour(d, n, a, w, b, i, j)
  {
    var p1 :| Walk(g, i, p1, a) && Weight(p1) == d[i][a];
    var p2 :| Walk(g, b, p2, j) && Weight(p2) == d[b][j];
    WalkConcat(g, i, p1, a, q, b);
    WalkConcat(g, i, p1 + q, b, p2, j);
    p := p1 + q + p2;
  }

  lemma RelaxedSound(n: nat, g: set<Arc>, d: Matrix, next: seq<seq<int>>, a: nat, w: nat, b: nat, edge: int, d': Matrix, next': seq<seq<int>>, q: seq<Arc>)
    requires a < n && b < n && Square(n, d) && Square(n, next) && Relaxed(n, d, next, a, w, b, edge, d', next')
    requires Sound(n, g, d) && Walk(g, a, q, b) && Weight(q) == w
    ensures Sound(n, g, d')
  {
    forall i, j | 0 <= i < n && 0 <= j < n
      ensures d'[i][j] <= INF && (i == j ==> d'[i][j] == 0)
      ensures d'[i][j] < INF ==> exists p :: Walk(g, i, p, j) && Weight(p) == d'[i][j]
    {
      assert RelaxedAt(n, d, next, a, w, b, edge, d', next', i, j);
      if Detour(d, n, a, w, b, i, j) < d[i][j] {
        var p := DetourWalk(n, g, d, a, w, b, q, i, j);
      }
    }
  }

  lemma RelaxedFirstEdge(n: nat, edges: seq<Edge>, d: Matrix, next: seq<seq<int>>, a: nat, w: nat, b: nat, edge: int, d': Matrix, next': seq<seq<int>>, i: nat, j: nat)
    requires a < n && b < n && Square(n, d) && Square(n, next) && Relaxed(n, d, next, a, w, b, edge, d', next')
    requires InRange(n, edges) && i < n && j < n && i != j && d[i][j] <= INF
    requires FirstEdge(n, edges, d, next, i, j) && (i != a ==> FirstEdge(n, edges, d, next, i, a))
    requires d[a][a] == 0 && d[b][b] == 0
    requires (a == b && w == 0) || (0 <= edge < |edges| && edges[edge] == Edge(a, b, w))
    ensures FirstEdge(n, edges, d', next', i, j)
  {
    assert RelaxedAt(n, d, next, a, w, b, edge, d', next', i, j);
    if 0 <= next'[i][j] {
      assert RelaxedAt(n, d, next, a, w, b, edge, d', next', edges[next'[i][j]].b, j);
    }
  }

  lemma RelaxedFirstEdges(n: nat, g: set<Arc>, edges: seq<Edge>, d: Matrix, next: seq<seq<int>>, a: nat, w: nat, b: nat, edge: int, d': Matrix, next': seq<seq<int>>)
    requires a < n && b < n && Square(n, d) && Square(n, next) && Relaxed(n, d, next, a, w, b, edge, d', next')
    requires InRange(n, edges) && Sound(n, g, d) && FirstEdges(n, edges, d, next)
    requires (a == b && w == 0) || (0 <= edge < |edges| && edges[edge] == Edge(a, b, w))
    ensures FirstEdges(n, edges, d', next')
  {
    hide FirstEdge, Relaxed;
    RelaxedSquare(n, d, next, a, w, b, edge, d', next');
    forall i, j | 0 <= i < n && 0 <= j < n && i != j ensures FirstEdge(n, edges, d', next', i, j) {
      RelaxedFirstEdge(n, edges, d, next, a, w, b, edge, d', next', i, j);
    }
  }

  lemma RelaxedSquare(n: nat, d: Matrix, next: seq<seq<int>>, a: nat, w: nat, b: nat, edge: int, d': Matrix, next': seq<seq<int>>)
    requires a < n && b < n && Square(n, d) && Square(n, next) && Relaxed(n, d, next, a, w, b, edge, d', next')
    ensures Square(n, d') && Square(n, next')
  {}

  lemma RelaxedCovers(n: nat, g: set<Arc>, d: Matrix, next: seq<seq<int>>, a: nat, w: nat, b: nat, edge: int, d': Matrix, next': seq<seq<int>>)
    requires a < n && b < n && Square(n, d) && Square(n, next) && Relaxed(n, d, next, a, w, b, edge, d', next')
    requires CoversArcs(n, g, d)
    ensures CoversArcs(n, g, d')
  {
    forall arc | arc in g ensures arc.from < n && arc.to < n && d'[arc.from][arc.to] <= arc.w {
      assert RelaxedAt(n, d, next, a, w, b, edge, d', next', arc.from, arc.to);
    }
  }

  // ----- following first edges -----

  /** The first edge from `i` to `j` ends in `j` or below `k`, with fewer hops left to `j`. */
  predicate Nearer(n: nat, edges: seq<Edge>, next: seq<seq<int>>, hops: Matrix, k: nat, i: nat, j: nat)
    requires Square(n, next) && Square(n, hops) && InRange(n, edges) && i < n && j < n
  {
    i != j && 0 <= next[i][j] < |edges| ==>
      var h := edges[next[i][j]].b; (h == j || h < k) && hops[h][j] < hops[i][j]
  }

  ghost predicate Leads(n: nat, edges: seq<Edge>, next: seq<seq<int>>, hops: Matrix, k: nat)
    requires Square(n, next) && InRange(n, edges)
  {
    Square(n, hops) && forall i, j :: 0 <= i < n && 0 <= j < n ==> Nearer(n, edges, next, hops, k, i, j)
  }

  /** Following the first edges comes to an end, over nodes below `k` only, whatever the weights are. */
  ghost predicate PathsEnd(n: nat, edges: seq<Edge>, next: seq<seq<int>>, k: nat)
    requires Square(n, next) && InRange(n, edges)
  {
    exists hops :: Leads(n, edges, next, hops, k)
  }

  function HopsAfter(n: nat, d: Matrix, hops: Matrix, a: nat, w: nat, b: nat, c: nat): (r: Matrix)
    requires a < n && b < n && Square(n, d) && Square(n, hops)
    ensures Square(n, r)
  {
    seq(n, i requires 0 <= i < n => seq(n, j requires 0 <= j < n =>
      if Detour(d, n, a, w, b, i, j) < d[i][j] then hops[i][a] + c + hops[b][j] else hops[i][j]))
  }

  /** Whoever takes the detour passes on nodes that take it too, and nobody else comes across one that does. */
  lemma DetourSpreads(n: nat, d: Matrix, a: nat, w: nat, b: nat, i: nat, j: nat, h: nat, x: nat)
    requires a < n && b < n && Square(n, d) && i < n && j < n && h < n
    requires d[i][j] <= d[i][h] + d[h][j] && d[i][a] <= d[i][h] + d[h][a] && d[i][h] <= x
    ensures x + d[h][a] <= d[i][a] && Detour(d, n, a, w, b, i, j) < d[i][j] ==> Detour(d, n, a, w, b, h, j) < d[h][j]
    ensures x + d[h][j] <= d[i][j] && !(Detour(d, n, a, w, b, i, j) < d[i][j]) ==> !(Detour(d, n, a, w, b, h, j) < d[h][j])
  {}

  lemma HeadSpreads(n: nat, edges: seq<Edge>, d: Matrix, next: seq<seq<int>>, k: nat, a: nat, w: nat, b: nat, i: nat, j: nat, to: nat)
    requires a < n && b < n && k <= n && Square(n, d) && Square(n, next) && i < n && j < n && to < n && InRange(n, edges)
    requires CoversArcs(n, Arcs(edges), d) && Triangle(n, d, k)
    requires 0 <= next[i][to] < |edges| && edges[next[i][to]].b < k && FirstEdge(n, edges, d, next, i, to)
    ensures var h := edges[next[i][to]].b;
      && (to == a && Detour(d, n, a, w, b, i, j) < d[i][j] ==> Detour(d, n, a, w, b, h, j) < d[h][j])
      && (to == j && !(Detour(d, n, a, w, b, i, j) < d[i][j]) ==> !(Detour(d, n, a, w, b, h, j) < d[h][j]))
  {
    var e := edges[next[i][to]];
    assert e in edges && Arc(e.a, e.b, e.w) in Arcs(edges);
    assert d[i][j] <= d[i][e.b] + d[e.b][j];
    assert d[i][a] <= d[i][e.b] + d[e.b][a];
    DetourSpreads(n, d, a, w, b, i, j, e.b, e.w);
  }

  lemma HopAt(n: nat, d: Matrix, hops: Matrix, a: nat, w: nat, b: nat, c: nat, i: nat, j: nat)
    requires a < n && b < n && i < n && j < n && Square(n, d) && Square(n, hops)
    ensures HopsAfter(n, d, hops, a, w, b, c)[i][j] == if Detour(d, n, a, w, b, i, j) < d[i][j] then hops[i][a] + c + hops[b][j] else hops[i][j]
  {}

  lemma RelaxedNearer(n: nat, edges: seq<Edge>, d: Matrix, next: seq<seq<int>>, hops: Matrix, k: nat, a: nat, w: nat, b: nat, c: nat, edge: int,
      more: seq<Edge>, d': Matrix, next': seq<seq<int>>, i: nat, j: nat)
    requires a < n && b < n && k <= n && i < n && j < n && i != j
    requires Square(n, d) && Square(n, next) && Square(n, hops) && Square(n, d') && Square(n, next')
    requires RelaxedAt(n, d, next, a, w, b, edge, d', next', i, j)
    requires InRange(n, edges) && InRange(n, more) && edges <= more
    requires FirstEdge(n, edges, d, next, i, j) && (i != a ==> FirstEdge(n, edges, d, next, i, a))
    requires CoversArcs(n, Arcs(edges), d) && Triangle(n, d, k) && d[a][a] == 0 && d[b][b] == 0 && d[j][j] == 0 && d[i][j] <= INF
    requires Nearer(n, edges, next, hops, k, i, j) && Nearer(n, edges, next, hops, k, i, a)
    requires (k == a == b && w == 0 && c == 0) || (k == n && c == 1 && edge == |edges| && more == edges + [Edge(a, b, w)])
    ensures Nearer(n, more, next', HopsAfter(n, d, hops, a, w, b, c), if k < n then k + 1 else n, i, j)
  {
    hide HopsAfter, CoversArcs, Triangle, Arcs;
    var hops' := HopsAfter(n, d, hops, a, w, b, c);
    var taken := Detour(d, n, a, w, b, i, j) < d[i][j];
    HopAt(n, d, hops, a, w, b, c, i, j);
    if taken && i == a {
      HopAt(n, d, hops, a, w, b, c, b, j);
    } else {
      var to := if taken then a else j;
      assert FirstEdge(n, edges, d, next, i, to) && Nearer(n, edges, next, hops, k, i, to);
      if 0 <= next[i][to] < |edges| {
        assert more[next[i][to]] == edges[next[i][to]];
        var h := edges[next[i][to]].b;
        HopAt(n, d, hops, a, w, b, c, h, j);
        if h < k {
          HeadSpreads(n, edges, d, next, k, a, w, b, i, j, to);
        }
      }
    }
  }

  lemma RelaxedPathsEnd(n: nat, edges: seq<Edge>, d: Matrix, next: seq<seq<int>>, k: nat, a: nat, w: nat, b: nat, edge: int,
      more: seq<Edge>, d': Matrix, next': seq<seq<int>>)
    requires a < n && b < n && k <= n && Square(n, d) && Square(n, next) && Square(n, next') && Relaxed(n, d, next, a, w, b, edge, d', next')
    requires InRange(n, edges) && InRange(n, more) && edges <= more && FirstEdges(n, edges, d, next)
    requires CoversArcs(n, Arcs(edges), d) && Triangle(n, d, k) && PathsEnd(n, edges, next, k)
    requires (forall i :: 0 <= i < n ==> d[i][i] == 0) && forall i, j :: 0 <= i < n && 0 <= j < n ==> d[i][j] <= INF
    requires (k == a == b && w == 0) || (k == n && edge == |edges| && more == edges + [Edge(a, b, w)])
    ensures PathsEnd(n, more, next', if k < n then k + 1 else n)
  {
    hide Relaxed, CoversArcs, Triangle, Nearer, FirstEdge;
    var hops :| Leads(n, edges, next, hops, k);
    var c := if k < n then 0 else 1;
    var hops' := HopsAfter(n, d, hops, a, w, b, c);
    var k' := if k < n then k + 1 else n;
    forall i, j | 0 <= i < n && 0 <= j < n ensures Nearer(n, more, next', hops', k', i, j) {
      if i == j {
        NearSelf(n, more, next', hops', k', i);
      } else {
        assert Nearer(n, edges, next, hops, k, i, j) && Nearer(n, edges, next, hops, k, i, a);
        RelaxedEach(n, d, next, a, w, b, edge, d', next', i, j);
        RelaxedNearer(n, edges, d, next, hops, k, a, w, b, c, edge, more, d', next', i, j);
      }
    }
    assert Leads(n, more, next', hops', k');
  }

  lemma RelaxedEach(n: nat, d: Matrix, next: seq<seq<int>>, a: nat, w: nat, b: nat, edge: int, d': Matrix, next': seq<seq<int>>, i: nat, j: nat)
    requires a < n && b < n && i < n && j < n && Square(n, d) && Square(n, next) && Relaxed(n, d, next, a, w, b, edge, d', next')
    ensures Square(n, d') && Square(n, next') && RelaxedAt(n, d, next, a, w, b, edge, d', next', i, j)
  {}

  lemma NearSelf(n: nat, edges: seq<Edge>, next: seq<seq<int>>, hops: Matrix, k: nat, i: nat)
    requires Square(n, next) && Square(n, hops) && InRange(n, edges) && i < n
    ensures Nearer(n, edges, next, hops, k, i, i)
  {}

  /** When every first edge goes straight to the goal, one hop is enough. */
  ghost predicate Straight(n: nat, edges: seq<Edge>, next: seq<seq<int>>)
    requires Square(n, next) && InRange(n, edges)
  {
    forall i, j :: 0 <= i < n && 0 <= j < n && i != j && 0 <= next[i][j] < |edges| ==> edges[next[i][j]].b == j
  }

  lemma StraightPathsEnd(n: nat, edges: seq<Edge>, next: seq<seq<int>>)
    requires Square(n, next) && InRange(n, edges) && Straight(n, edges, next)
    ensures PathsEnd(n, edges, next, 0)
  {
    var hops: Matrix := seq(n, i => seq(n, j => if i == j then 0 else 1));
    assert Leads(n, edges, next, hops, 0);
  }

  // ----- the first matrix: one edge at a time -----

  ghost predicate Seeded(n: nat, edges: seq<Edge>, d: Matrix, next: seq<seq<int>>, k: nat) {
    && k <= |edges| && InRange(n, edges) && Square(n, d) && Square(n, next)
    && Sound(n, Arcs(edges), d) && CoversArcs(n, Arcs(edges[..k]), d) && FirstEdges(n, edges, d, next)
  }

  lemma NothingSeeded(n: nat, edges: seq<Edge>, d: Matrix, next: seq<seq<int>>)
    requires InRange(n, edges) && Square(n, d) && Square(n, next)
    requires forall i, j :: 0 <= i < n && 0 <= j < n ==> d[i][j] == (if i == j then 0 else INF) && next[i][j] == if i == j then 0 else -1
    ensures Seeded(n, edges, d, next, 0) && Straight(n, edges, next)
  {
    forall i, j | 0 <= i < n && 0 <= j < n && d[i][j] < INF
      ensures exists p :: Walk(Arcs(edges), i, p, j) && Weight(p) == d[i][j]
    {
      assert Walk(Arcs(edges), i, [], j) && Weight([]) == 0;
    }
  }

  lemma SeedSound(n: nat, g: set<Arc>, d: Matrix, e: Edge)
    requires e.a < n && e.b < n && Square(n, d) && Sound(n, g, d) && Arc(e.a, e.b, e.w) in g && e.w < d[e.a][e.b]
    ensures Sound(n, g, SetCell(d, e.a, e.b, e.w))
  {
    var d' := SetCell(d, e.a, e.b, e.w);
    OneArc(g, Arc(e.a, e.b, e.w));
    forall i, j | 0 <= i < n && 0 <= j < n && d'[i][j] < INF ensures exists p :: Walk(g, i, p, j) && Weight(p) == d'[i][j] {
      if i == e.a && j == e.b {
        assert Walk(g, i, [Arc(e.a, e.b, e.w)], j);
      } else {
        assert d'[i][j] == d[i][j];
      }
    }
  }

  lemma SeedEdge(n: nat, edges: seq<Edge>, d: Matrix, next: seq<seq<int>>, k: nat, d': Matrix, next': seq<seq<int>>)
    requires Seeded(n, edges, d, next, k) && k < |edges| && Straight(n, edges, next)
    requires var e := edges[k];
             if e.w < d[e.a][e.b] then d' == SetCell(d, e.a, e.b, e.w) && next' == SetCell(next, e.a, e.b, k)
             else d' == d && next' == next
    ensures Seeded(n, edges, d', next', k + 1) && Straight(n, edges, next')
  {
    var e := edges[k];
    assert Arc(e.a, e.b, e.w) in Arcs(edges);
    assert d[e.b][e.b] == 0 && d[e.a][e.b] <= INF;
    if e.w < d[e.a][e.b] { SeedSound(n, Arcs(edges), d, e); }
    hide Sound;
    forall i, j | 0 <= i < n && 0 <= j < n && i != j ensures FirstEdge(n, edges, d', next', i, j) {
      assert FirstEdge(n, edges, d, next, i, j);
    }
    assert edges[..k + 1] == edges[..k] + [e];
  }

  // ----- the program -----

  class FloydWarshall {
    const n: nat
    var shortestD: Matrix
    var nextEdge: seq<seq<int>>
    var edges: seq<Edge>

    /** The distances are those of the edges added so far, every finite one has a first edge, and following these ends. */
    ghost predicate Valid()
      reads this
    {
      && InRange(n, edges) && Square(n, nextEdge)
      && Exact(n, Arcs(edges), shortestD) && FirstEdges(n, edges, shortestD, nextEdge)
      && PathsEnd(n, edges, nextEdge, n)
    }

    /** Updates every pair, in place and row by row. */
    method RelaxAll(a: nat, w: nat, b: nat, edge: int)
      requires a < n && b < n && Square(n, shortestD) && Square(n, nextEdge)
      modifies this`shortestD, this`nextEdge
      ensures Relaxed(n, old(shortestD), old(nextEdge), a, w, b, edge, shortestD, nextEdge)
    {
      hide Partly, Relaxed;
      ghost var d, next := shortestD, nextEdge;
      PartlyStart(n, d, next, a, w, b, edge);
      for i := 0 to n
        invariant Square(n, shortestD) && Square(n, nextEdge)
        invariant Partly(n, d, next, a, w, b, edge, shortestD, nextEdge, i, 0)
      {
        for j := 0 to n
          invariant Square(n, shortestD) && Square(n, nextEdge)
          invariant Partly(n, d, next, a, w, b, edge, shortestD, nextEdge, i, j)
        {
          DetourStays(n, d, next, a, w, b, edge, shortestD, nextEdge, i, j);
          ghost var d', next' := shortestD, nextEdge;
          var detour := shortestD[i][a] + w + shortestD[b][j];
          if shortestD[i][j] > detour {
            shortestD := SetCell(shortestD, i, j, detour);
            nextEdge := SetCell(nextEdge, i, j, if i == a then edge else nextEdge[i][a]);
          }
          PartlyStep(n, d, next, a, w, b, edge, d', next', i, j, shortestD, nextEdge);
        }
        PartlyRow(n, d, next, a, w, b, edge, shortestD, nextEdge, i);
      }
      PartlyAll(n, d, next, a, w, b, edge, shortestD, nextEdge);
    }

    constructor (n: nat, edges: seq<Edge>)
      requires InRange(n, edges)
      ensures Valid() && this.n == n && this.edges == edges
    {
      hide Relaxed, Sound, CoversArcs, Triangle, FirstEdges, Arcs, Straight, PathsEnd;
      this.n, this.edges := n, edges;
      shortestD := seq(n, i => seq(n, j => if i == j then 0 else INF));
      nextEdge := seq(n, i => seq(n, j => if i == j then 0 else -1));
      new;
      NothingSeeded(n, edges, shortestD, nextEdge);
      for ei := 0 to |edges|
        invariant this.edges == edges && Seeded(n, edges, shortestD, nextEdge, ei) && Straight(n, edges, nextEdge)
      {
        var e := edges[ei];
        ghost var d, next := shortestD, nextEdge;
        if shortestD[e.a][e.b] > e.w {
          shortestD := SetCell(shortestD, e.a, e.b, e.w);
          nextEdge := SetCell(nextEdge, e.a, e.b, ei);
        }
        SeedEdge(n, edges, d, next, ei, shortestD, nextEdge);
      }
      assert edges[..|edges|] == edges;
      NoDetours(n, shortestD);
      StraightPathsEnd(n, edges, nextEdge);
      for k := 0 to n
        invariant this.edges == edges && Seeded(n, edges, shortestD, nextEdge, |edges|)
        invariant Square(n, shortestD) && Triangle(n, shortestD, k) && PathsEnd(n, edges, nextEdge, k)
      {
        ghost var d, next := shortestD, nextEdge;
        RelaxAll(k, 0, k, -1);
        RoundKeeps(n, edges, d, next, k, shortestD, nextEdge);
      }
    }

    /** The distance, or none if no walk weighs less than INF. */
    method Distance(src: nat, dst: nat) returns (r: Option<nat>)
      requires Valid() && src < n && dst < n
      ensures r.Some? ==> exists p :: Walk(Arcs(edges), src, p, dst) && Weight(p) == r.value
      ensures r.Some? ==> forall p :: Walk(Arcs(edges), src, p, dst) ==> r.value <= Weight(p)
      ensures r.Some? ==> r.value < 0x5555_5555_5555_5555
      ensures r.None? ==> forall p :: Walk(Arcs(edges), src, p, dst) ==> 0x5555_5555_5555_5555 <= Weight(p)
    {
      forall p | Walk(Arcs(edges), src, p, dst) ensures shortestD[src][dst] <= Weight(p) {
        NoWalkIsShorter(n, Arcs(edges), shortestD, src, p, dst);
      }
      if src == dst {
        assert Walk(Arcs(edges), src, [], dst) && Weight([]) == 0;
        return Some(0);
      }
      assert FirstEdge(n, edges, shortestD, nextEdge, src, dst);
      r := if nextEdge[src][dst] >= 0 then Some(shortestD[src][dst]) else None;
    }

    /** Afterwards the matrix is the one a new object with all the edges would have (`ExactIsUnique`). */
    method AddEdge(e: Edge)
      requires Valid() && e.a < n && e.b < n
      modifies this
      ensures Valid() && edges == old(edges) + [e]
    {
      hide Relaxed, Sound, CoversArcs, Triangle, FirstEdges, Arcs, PathsEnd;
      ghost var old_edges, d, next := edges, shortestD, nextEdge;
      var eIdx := |edges|;
      edges := edges + [e];
      MoreEdges(n, old_edges, e, d, next);
      if shortestD[e.a][e.b] <= e.w {
        NewEdgeCovered(n, old_edges, e, d);
        return;
      }
      RelaxAll(e.a, e.w, e.b, eIdx);
      EdgeAdded(n, old_edges, e, d, next, shortestD, nextEdge);
    }

    /** The edges of a path from `src` to `dst` that weighs exactly the distance, edges of weight 0 included. */
    method ShortestPath(src: nat, dst: nat) returns (path: seq<nat>)
      requires Valid() && src < n && dst < n && nextEdge[src][dst] >= 0
      ensures forall i :: 0 <= i < |path| ==> path[i] < |edges|
      ensures Walk(Arcs(edges), src, PathArcs(edges, path), dst)
      ensures Weight(PathArcs(edges, path)) == shortestD[src][dst]
    {
      hide Walk, Weight, Arcs;
      ghost var hops :| Leads(n, edges, nextEdge, hops, n);
      path := [];
      var at: nat := src;
      ghost var g := Arcs(edges);
      EmptyPath(edges, src);
      assert src != dst ==> FirstEdge(n, edges, shortestD, nextEdge, src, dst);
      while at != dst
        invariant at < n && (at != dst ==> shortestD[at][dst] < INF)
        invariant forall i :: 0 <= i < |path| ==> path[i] < |edges|
        invariant Walk(g, src, PathArcs(edges, path), at)
        invariant Weight(PathArcs(edges, path)) + shortestD[at][dst] == shortestD[src][dst]
        decreases hops[at][dst]
      {
        assert FirstEdge(n, edges, shortestD, nextEdge, at, dst) && Nearer(n, edges, nextEdge, hops, n, at, dst);
        var e := nextEdge[at][dst];
        FollowEdge(n, edges, shortestD, nextEdge, at, dst);
        LongerPath(edges, src, path, at, e);
        at := edges[e].b;
        path := path + [e];
      }
    }
  }

  ghost function PathArcs(edges: seq<Edge>, path: seq<nat>): seq<Arc>
    requires forall i :: 0 <= i < |path| ==> path[i] < |edges|
  {
    seq(|path|, i requires 0 <= i < |path| => Arc(edges[path[i]].a, edges[path[i]].b, edges[path[i]].w))
  }

  lemma EmptyPath(edges: seq<Edge>, src: nat)
    ensures Walk(Arcs(edges), src, PathArcs(edges, []), src) && Weight(PathArcs(edges, [])) == 0
  {}

  lemma LongerPath(edges: seq<Edge>, src: nat, path: seq<nat>, at: nat, e: nat)
    requires (forall i :: 0 <= i < |path| ==> path[i] < |edges|) && e < |edges| && edges[e].a == at
    requires Walk(Arcs(edges), src, PathArcs(edges, path), at)
    ensures Walk(Arcs(edges), src, PathArcs(edges, path + [e]), edges[e].b)
    ensures Weight(PathArcs(edges, path + [e])) == Weight(PathArcs(edges, path)) + edges[e].w
  {
    var arc := Arc(edges[e].a, edges[e].b, edges[e].w);
    assert edges[e] in edges;
    assert arc in Arcs(edges);
    OneArc(Arcs(edges), arc);
    WalkConcat(Arcs(edges), src, PathArcs(edges, path), at, [arc], edges[e].b);
    assert PathArcs(edges, path + [e]) == PathArcs(edges, path) + [arc];
  }

  /** The first edge and the distance from its end make up the distance exactly. */
  lemma FollowEdge(n: nat, edges: seq<Edge>, d: Matrix, next: seq<seq<int>>, i: nat, j: nat)
    requires InRange(n, edges) && Exact(n, Arcs(edges), d) && Square(n, next) && FirstEdges(n, edges, d, next)
    requires i < n && j < n && i != j && d[i][j] < INF
    ensures 0 <= next[i][j] < |edges|
    ensures var e := edges[next[i][j]]; e.a == i && d[i][j] == e.w + d[e.b][j] && d[e.b][j] <= d[i][j]
  {
    assert FirstEdge(n, edges, d, next, i, j);
    var e := edges[next[i][j]];
    assert e in edges && Arc(e.a, e.b, e.w) in Arcs(edges);
    assert d[i][j] <= d[i][e.b] + d[e.b][j];
  }

  lemma PartlyStart(n: nat, d: Matrix, next: seq<seq<int>>, a: nat, w: nat, b: nat, edge: int)
    requires a < n && b < n && Square(n, d) && Square(n, next)
    ensures Partly(n, d, next, a, w, b, edge, d, next, 0, 0)
  {}

  lemma NoDetours(n: nat, d: Matrix)
    requires Square(n, d)
    ensures Triangle(n, d, 0)
  {}

  lemma RoundKeeps(n: nat, edges: seq<Edge>, d: Matrix, next: seq<seq<int>>, k: nat, d': Matrix, next': seq<seq<int>>)
    requires Seeded(n, edges, d, next, |edges|) && Triangle(n, d, k) && k < n && PathsEnd(n, edges, next, k)
    requires Relaxed(n, d, next, k, 0, k, -1, d', next')
    ensures Seeded(n, edges, d', next', |edges|) && Triangle(n, d', k + 1) && PathsEnd(n, edges, next', k + 1)
  {
    assert Sound(n, Arcs(edges), d) && edges[..|edges|] == edges;
    RelaxedPathsEnd(n, edges, d, next, k, k, 0, k, -1, edges, d', next');
    RoundAddsNode(n, d, next, k, -1, d', next');
    hide Sound, CoversArcs, Triangle, FirstEdges, Relaxed, Arcs;
    RelaxedSquare(n, d, next, k, 0, k, -1, d', next');
    RelaxedSound(n, Arcs(edges), d, next, k, 0, k, -1, d', next', []);
    RelaxedCovers(n, Arcs(edges[..|edges|]), d, next, k, 0, k, -1, d', next');
    RelaxedFirstEdges(n, Arcs(edges), edges, d, next, k, 0, k, -1, d', next');
  }

  lemma ArcsMore(edges: seq<Edge>, e: Edge)
    ensures Arcs(edges + [e]) == Arcs(edges) + {Arc(e.a, e.b, e.w)}
  {
    assert forall x :: x in edges + [e] <==> x in edges || x == e;
  }

  /** The old matrix in terms of the longer list of edges. */
  lemma MoreEdges(n: nat, edges: seq<Edge>, e: Edge, d: Matrix, next: seq<seq<int>>)
    requires InRange(n, edges) && e.a < n && e.b < n && Exact(n, Arcs(edges), d) && Square(n, next) && FirstEdges(n, edges, d, next)
    ensures InRange(n, edges + [e]) && FirstEdges(n, edges + [e], d, next) && Sound(n, Arcs(edges + [e]), d)
    ensures PathsEnd(n, edges, next, n) ==> PathsEnd(n, edges + [e], next, n)
  {
    var more := edges + [e];
    ArcsMore(edges, e);
    forall i, j | 0 <= i < n && 0 <= j < n && i != j ensures FirstEdge(n, more, d, next, i, j) {
      assert FirstEdge(n, edges, d, next, i, j);
    }
    if hops :| Leads(n, edges, next, hops, n) {
      StillLeads(n, edges, more, d, next, hops);
    }
    forall i, j | 0 <= i < n && 0 <= j < n && d[i][j] < INF ensures exists p :: Walk(Arcs(more), i, p, j) && Weight(p) == d[i][j] {
      var p :| Walk(Arcs(edges), i, p, j) && Weight(p) == d[i][j];
      WalkMore(Arcs(edges), Arcs(more), i, p, j);
    }
  }

  lemma StillLeads(n: nat, edges: seq<Edge>, more: seq<Edge>, d: Matrix, next: seq<seq<int>>, hops: Matrix)
    requires Square(n, d) && Square(n, next) && InRange(n, edges) && InRange(n, more) && edges <= more
    requires FirstEdges(n, edges, d, next) && Leads(n, edges, next, hops, n)
    ensures Leads(n, more, next, hops, n)
  {
    forall i, j | 0 <= i < n && 0 <= j < n ensures Nearer(n, more, next, hops, n, i, j) {
      assert Nearer(n, edges, next, hops, n, i, j);
      if i != j { assert FirstEdge(n, edges, d, next, i, j); }
    }
  }

  lemma NewEdgeCovered(n: nat, edges: seq<Edge>, e: Edge, d: Matrix)
    requires e.a < n && e.b < n && Exact(n, Arcs(edges), d) && Sound(n, Arcs(edges + [e]), d) && d[e.a][e.b] <= e.w
    ensures Exact(n, Arcs(edges + [e]), d)
  {
    ArcsMore(edges, e);
  }

  lemma EdgeAdded(n: nat, edges: seq<Edge>, e: Edge, d: Matrix, next: seq<seq<int>>, d': Matrix, next': seq<seq<int>>)
    requires InRange(n, edges) && e.a < n && e.b < n && Exact(n, Arcs(edges), d) && Square(n, next) && FirstEdges(n, edges, d, next)
    requires Relaxed(n, d, next, e.a, e.w, e.b, |edges|, d', next') && PathsEnd(n, edges, next, n)
    ensures InRange(n, edges + [e]) && Square(n, next')
    ensures Exact(n, Arcs(edges + [e]), d') && FirstEdges(n, edges + [e], d', next') && PathsEnd(n, edges + [e], next', n)
  {
    assert Edge(e.a, e.b, e.w) == e;
    RelaxedPathsEnd(n, edges, d, next, n, e.a, e.w, e.b, |edges|, edges + [e], d', next');
    hide Sound, CoversArcs, Triangle, FirstEdges, Relaxed, Arcs;
    var more := edges + [e];
    var arc := Arc(e.a, e.b, e.w);
    ArcsMore(edges, e);
    MoreEdges(n, edges, e, d, next);
    RelaxedSquare(n, d, next, e.a, e.w, e.b, |edges|, d', next');
    OneArc(Arcs(more), arc);
    RelaxedSound(n, Arcs(more), d, next, e.a, e.w, e.b, |edges|, d', next', [arc]);
    RelaxedTriangle(n, d, next, e.a, e.w, e.b, |edges|, d', next', n);
    RelaxedFirstEdges(n, Arcs(more), more, d, next, e.a, e.w, e.b, |edges|, d', next');
    RelaxedCovers(n, Arcs(edges), d, next, e.a, e.w, e.b, |edges|, d', next');
    CoversNewArc(n, Arcs(edges), d, next, e, |edges|, d', next');
  }

  lemma CoversNewArc(n: nat, g: set<Arc>, d: Matrix, next: seq<seq<int>>, e: Edge, edge: int, d': Matrix, next': seq<seq<int>>)
    requires e.a < n && e.b < n && Square(n, d) && Square(n, next) && Relaxed(n, d, next, e.a, e.w, e.b, edge, d', next')
    requires CoversArcs(n, g, d') && Sound(n, g, d)
    ensures CoversArcs(n, g + {Arc(e.a, e.b, e.w)}, d')
  {
    assert d[e.a][e.a] == 0 && d[e.b][e.b] == 0;
    assert RelaxedAt(n, d, next, e.a, e.w, e.b, edge, d', next', e.a, e.b);
  }
}
