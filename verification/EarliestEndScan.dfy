/**
  What one greedy scan over uses in order of their day keeps: the supplies and uses as they stand now
  are feasible, whatever later uses are added, exactly when the original ones were.
*/
module EarliestEndScan {
  import opened IntervalSupply

  ghost predicate Later(uses: seq<Use>, rest: seq<Use>) {
    forall i, j :: 0 <= i < |uses| && 0 <= j < |rest| ==> uses[i].ts <= rest[j].ts
  }

  /** `q` and `left` are what remains of `p` and `u`. */
  ghost predicate Residual(p: seq<Supply>, u: seq<Use>, q: seq<Supply>, left: seq<Use>) {
    forall rest :: Later(u, rest) ==> (Hall(p, u + rest) <==> Hall(q, left + rest))
  }

  /** Uses before `k` are served; the days are those of `u`, in order. */
  ghost predicate ServedBefore(u: seq<Use>, left: seq<Use>, k: nat) {
    && |left| == |u|
    && (forall j :: 0 <= j < |u| ==> left[j].ts == u[j].ts)
    && (forall j :: 0 <= j < k && j < |u| ==> left[j].points == 0)
    && (forall i, j :: 0 <= i < j < |u| ==> u[i].ts <= u[j].ts)
  }

  /** The heap holds every supply that is still of use on day `t` among the first `pp`. */
  ghost predicate HeapHoldsOpen(q: seq<Supply>, pp: nat, heap: set<nat>, t: int) {
    && pp <= |q|
    && (forall i :: i in heap ==> i < pp && q[i].start <= t)
    && (forall i :: 0 <= i < pp && i !in heap ==> q[i].points == 0 || q[i].end < t)
  }

  ghost predicate SameIntervals(p: seq<Supply>, q: seq<Supply>) {
    |p| == |q| && forall i :: 0 <= i < |p| ==> p[i].start == q[i].start && p[i].end == q[i].end
  }

  lemma ResidualStart(p: seq<Supply>, u: seq<Use>, q: seq<Supply>)
    requires multiset(p) == multiset(q)
    ensures Residual(p, u, q, u) && SameIntervals(q, q)
  {
    forall rest ensures Hall(p, u + rest) <==> Hall(q, u + rest) {
      HallPermutation(p, q, u + rest, u + rest);
    }
  }

  lemma ResidualStep(p: seq<Supply>, u: seq<Use>, q: seq<Supply>, left: seq<Use>, i: nat, k: nat, n: nat)
    requires Residual(p, u, q, left)
    requires k < |u| && ServedBefore(u, left, k)
    requires i < |q| && n <= q[i].points && n <= left[k].points
    requires Open(q[i], u[k].ts) && EndsFirst(q, i, u[k].ts)
    ensures Residual(p, u, TakeSupply(q, i, n), TakeUse(left, k, n))
    ensures ServedBefore(u, TakeUse(left, k, n), k)
  {
    forall rest | Later(u, rest)
      ensures Hall(p, u + rest) <==> Hall(TakeSupply(q, i, n), TakeUse(left, k, n) + rest)
    {
      assert TakeUse(left, k, n) + rest == TakeUse(left + rest, k, n);
      assert NoUseBefore(left + rest, u[k].ts);
      EarliestEndFirst(q, left + rest, i, k, n);
    }
  }

  lemma ResidualStuck(p: seq<Supply>, u: seq<Use>, q: seq<Supply>, left: seq<Use>, k: nat)
    requires Residual(p, u, q, left)
    requires k < |u| && ServedBefore(u, left, k) && 0 < left[k].points
    requires forall i :: 0 <= i < |q| && Open(q[i], u[k].ts) ==> q[i].points == 0
    ensures !Hall(p, u)
  {
    assert Later(u, []);
    assert u + [] == u && left + [] == left;
    NothingOpen(q, left, k);
  }

  lemma ResidualDone(p: seq<Supply>, u: seq<Use>, q: seq<Supply>, left: seq<Use>, rest: seq<Use>)
    requires Residual(p, u, q, left) && ServedBefore(u, left, |u|) && Later(u, rest)
    ensures Hall(p, u + rest) <==> Hall(q, rest)
  {
    DropServed(q, left, rest);
  }

  /** The scan is at use `k`, with every supply that has started by its day on the heap or spent. */
  ghost predicate Serving(p: seq<Supply>, u: seq<Use>, q: seq<Supply>, pp: nat, heap: set<nat>, left: seq<Use>, k: nat) {
    && k < |u|
    && ServedBefore(u, left, k) && left[k + 1..] == u[k + 1..]
    && HeapHoldsOpen(q, pp, heap, u[k].ts)
    && (forall i :: pp <= i < |q| ==> u[k].ts < q[i].start)
    && Residual(p, u, q, left)
  }

  /** Taking `n` units from the supply on the heap that ends first. */
  lemma ServeLeast(p: seq<Supply>, u: seq<Use>, q: seq<Supply>, pp: nat, heap: set<nat>, left: seq<Use>, k: nat, i: nat, n: nat, heap': set<nat>)
    requires Serving(p, u, q, pp, heap, left, k)
    requires i in heap && forall l :: l in heap ==> q[i].end <= q[l].end
    requires u[k].ts <= q[i].end && n <= q[i].points && n <= left[k].points
    requires heap' == heap || (heap' == heap - {i} && n == q[i].points)
    ensures Serving(p, u, TakeSupply(q, i, n), pp, heap', TakeUse(left, k, n), k)
  {
    forall l | 0 <= l < |q| && 0 < q[l].points && Open(q[l], u[k].ts) ensures q[i].end <= q[l].end {
      assert l in heap;
    }
    ResidualStep(p, u, q, left, i, k, n);
  }

  lemma HeapIndices(p: seq<Supply>, u: seq<Use>, q: seq<Supply>, pp: nat, heap: set<nat>, left: seq<Use>, k: nat)
    requires Serving(p, u, q, pp, heap, left, k)
    ensures forall i :: i in heap ==> i < |q|
  {}

  lemma EmptyHeap(q: seq<Supply>, t: int)
    ensures HeapHoldsOpen(q, 0, {}, t)
  {}

  lemma Push(q: seq<Supply>, pp: nat, heap: set<nat>, t: int)
    requires HeapHoldsOpen(q, pp, heap, t) && pp < |q| && q[pp].start <= t
    ensures HeapHoldsOpen(q, pp + 1, heap + {pp}, t)
  {}

  lemma LaterDay(q: seq<Supply>, pp: nat, heap: set<nat>, t: int, t': int)
    requires HeapHoldsOpen(q, pp, heap, t) && t <= t'
    ensures HeapHoldsOpen(q, pp, heap, t')
  {}

  lemma Served(p: seq<Supply>, u: seq<Use>, q: seq<Supply>, pp: nat, heap: set<nat>, left: seq<Use>, k: nat)
    requires Serving(p, u, q, pp, heap, left, k) && left[k].points == 0
    ensures ServedBefore(u, left, k + 1) && left[k + 1..] == u[k + 1..]
    ensures HeapHoldsOpen(q, pp, heap, u[k].ts) && Residual(p, u, q, left)
    ensures k + 1 < |u| ==> u[k].ts <= u[k + 1].ts
  {}

  lemma Stuck(p: seq<Supply>, u: seq<Use>, q: seq<Supply>, pp: nat, left: seq<Use>, k: nat)
    requires Serving(p, u, q, pp, {}, left, k) && 0 < left[k].points
    ensures !Hall(p, u)
  {
    ResidualStuck(p, u, q, left, k);
  }

  lemma DropExpired(p: seq<Supply>, u: seq<Use>, q: seq<Supply>, pp: nat, heap: set<nat>, left: seq<Use>, k: nat, i: nat)
    requires Serving(p, u, q, pp, heap, left, k)
    requires i in heap && q[i].end < u[k].ts
    ensures Serving(p, u, q, pp, heap - {i}, left, k)
  {}

  /** Serving the uses in another order is the same problem. */
  lemma ResidualOfSorted(p: seq<Supply>, u: seq<Use>, us: seq<Use>, q: seq<Supply>, left: seq<Use>, rest: seq<Use>)
    requires multiset(u) == multiset(us)
    requires Residual(p, us, q, left) && ServedBefore(us, left, |us|) && Later(u, rest)
    ensures Hall(p, u + rest) <==> Hall(q, rest)
  {
    forall j | 0 <= j < |us| ensures us[j] in u { assert us[j] in multiset(us); }
    ResidualDone(p, us, q, left, rest);
    HallPermutation(p, p, u + rest, us + rest);
  }

  lemma SameAfterTake(p: seq<Supply>, q: seq<Supply>, i: nat, n: nat)
    requires SameIntervals(p, q) && i < |q| && n <= q[i].points
    ensures SameIntervals(p, TakeSupply(q, i, n))
  {}

  /** `heappop` on the supplies' ends: some least element; ties are broken in any way. */
  method PopEarliestEnd(heap: set<nat>, q: seq<Supply>) returns (i: nat, rest: set<nat>)
    requires heap != {} && forall k :: k in heap ==> k < |q|
    ensures i in heap && rest == heap - {i}
    ensures forall k :: k in heap ==> q[i].end <= q[k].end
  {
    i :| i in heap;
    var todo := heap;
    while todo != {}
      invariant i in heap && todo <= heap
      invariant forall k :: k in heap && k !in todo ==> q[i].end <= q[k].end
    {
      var k :| k in todo;
      if q[k].end < q[i].end { i := k; }
      todo := todo - {k};
    }
    rest := heap - {i};
  }
}
