/** python/worker_scheduling.py: workers free on an interval of days with a capacity of units, and projects due on one day.
    A worker is a supply and a project is a use. */
module WorkerScheduling {
  import opened IntervalSupply
  import opened Sorting
  import opened EarliestEndScan
  import opened Sums
  import GiftPointsHeap

  /** The order of the tuples `(a, b, c)`. */
  function ByWorker(): (le: (Supply, Supply) -> bool)
    ensures TotalPreorder(le)
  {
    (x: Supply, y: Supply) =>
      x.start < y.start || (x.start == y.start && (x.end < y.end || (x.end == y.end && x.points <= y.points)))
  }

  /** The order of the tuples `(x, y)`. */
  function ByProject(): (le: (Use, Use) -> bool)
    ensures TotalPreorder(le)
  {
    (x: Use, y: Use) => x.ts < y.ts || (x.ts == y.ts && x.points <= y.points)
  }

  lemma SortedProjects(us: seq<Use>)
    requires Sorted(us, ByProject())
    ensures ServedBefore(us, us, 0)
  {
    forall i, j | 0 <= i < j < |us| ensures us[i].ts <= us[j].ts { assert ByProject()(us[i], us[j]); }
  }

  lemma LaterWorkersStartLater(q: seq<Supply>, sorted: seq<Supply>, pw: nat, t: int)
    requires Sorted(sorted, ByWorker()) && SameIntervals(sorted, q)
    requires pw <= |q| && (pw < |q| ==> t < q[pw].start)
    ensures forall i :: pw <= i < |q| ==> t < q[i].start
  {
    forall i | pw <= i < |q| ensures t < q[i].start { assert i == pw || ByWorker()(sorted[pw], sorted[i]); }
  }

  lemma SkipExpired(q: seq<Supply>, pw: nat, heap: set<nat>, t: int)
    requires HeapHoldsOpen(q, pw, heap, t) && pw < |q| && q[pw].end < t
    ensures HeapHoldsOpen(q, pw + 1, heap, t)
  {}

  /** The search bound: no day can take more than the workers free on it can give. */
  lemma AtMostAllOpen(workers: seq<Supply>, projects: seq<Use>, x: int, y: nat)
    requires Feasible(workers, projects + [Use(x, y)])
    ensures y <= Sum(workers, Held({x}))
  {
    FeasibleIffHall(workers, projects + [Use(x, y)]);
    HallPermutation(workers, workers, projects + [Use(x, y)], [Use(x, y)] + projects);
    FewerUses(workers, [Use(x, y)], projects);
    OneUse(workers, Use(x, y));
  }

  lemma FeasibleIsMonotone(workers: seq<Supply>, projects: seq<Use>, x: int, y: nat, z: nat)
    requires Feasible(workers, projects + [Use(x, y)]) && z <= y
    ensures Feasible(workers, projects + [Use(x, z)])
  {
    FeasibleIffHall(workers, projects + [Use(x, y)]);
    FeasibleIffHall(workers, projects + [Use(x, z)]);
    SmallerUse(workers, projects, x, y, z);
  }

  class Scheduler {
    var workers: seq<Supply>
    var projects: seq<Use>

    constructor ()
      ensures workers == [] && projects == []
    {
      workers, projects := [], [];
    }

    method AddWorker(a: int, b: int, c: nat)
      modifies this
      ensures workers == old(workers) + [Supply(a, b, c)] && projects == old(projects)
    {
      workers := workers + [Supply(a, b, c)];
    }

    method AddProject(x: int, y: nat)
      modifies this
      ensures projects == old(projects) + [Use(x, y)] && workers == old(workers)
    {
      projects := projects + [Use(x, y)];
    }

    /** Pushes the workers that have started by project `k`'s day and takes units from the heap's top until the
        project is served or the heap is empty.  `q[i]` is worker `i` with the units its heap entry still has. */
    static method Move(p: seq<Supply>, us: seq<Use>, sorted: seq<Supply>, q: seq<Supply>, pw: nat, heap: set<nat>, ghost left: seq<Use>, k: nat)
      returns (units: nat, q': seq<Supply>, pw': nat, heap': set<nat>, ghost left': seq<Use>)
      requires Sorted(sorted, ByWorker()) && SameIntervals(sorted, q) && Residual(p, us, q, left)
      requires k < |us| && ServedBefore(us, left, k) && left[k..] == us[k..]
      requires HeapHoldsOpen(q, pw, heap, us[k].ts)
      ensures SameIntervals(sorted, q') && Serving(p, us, q', pw', heap', left', k)
      ensures units <= us[k].points && left'[k].points == us[k].points - units
      ensures units < us[k].points ==> heap' == {}
    {
      hide Residual, HeapHoldsOpen, ServedBefore, Serving, Hall, SameIntervals, Sorted;
      var targetDay, required := us[k].ts, us[k].points;
      units, q', pw', heap', left' := 0, q, pw, heap, left;
      SameLength(sorted, q);
      while pw' < |sorted| && sorted[pw'].start <= targetDay
        invariant HeapHoldsOpen(q, pw', heap', targetDay)
      {
        SameEntry(sorted, q, pw');
        if sorted[pw'].end >= targetDay {
          Push(q, pw', heap', targetDay);
          heap' := heap' + {pw'};
        } else {
          SkipExpired(q, pw', heap', targetDay);
        }
        pw' := pw' + 1;
      }
      StartMove(p, us, sorted, q, pw', heap', left, k);
      while heap' != {} && units < required
        invariant SameIntervals(sorted, q') && Serving(p, us, q', pw', heap', left', k)
        invariant |left'| == |us| && units <= required && left'[k].points == required - units
        decreases required - units, |heap'|
      {
        HeapIndices(p, us, q', pw', heap', left', k);
        var top, rest := PopEarliestEnd(heap', q');
        if q'[top].end < targetDay {
          DropExpired(p, us, q', pw', heap', left', k, top);
          heap' := rest;
        } else {
          var delta: nat := if required - units < q'[top].points then required - units else q'[top].points;
          var next := if q'[top].points == delta then rest else heap';
          SameAfterTake(sorted, q', top, delta);
          ServeLeast(p, us, q', pw', heap', left', k, top, delta, next);
          units := units + delta;
          q', left', heap' := TakeSupply(q', top, delta), TakeUse(left', k, delta), next;
        }
      }
    }

    static lemma SameLength(p: seq<Supply>, q: seq<Supply>)
      requires SameIntervals(p, q)
      ensures |p| == |q|
    {}

    static lemma SameEntry(p: seq<Supply>, q: seq<Supply>, i: nat)
      requires SameIntervals(p, q) && i < |p|
      ensures |p| == |q| && p[i].start == q[i].start && p[i].end == q[i].end
    {}

    static lemma StartMove(p: seq<Supply>, us: seq<Use>, sorted: seq<Supply>, q: seq<Supply>, pw: nat, heap: set<nat>, left: seq<Use>, k: nat)
      requires Sorted(sorted, ByWorker()) && SameIntervals(sorted, q) && Residual(p, us, q, left)
      requires k < |us| && ServedBefore(us, left, k) && left[k..] == us[k..]
      requires HeapHoldsOpen(q, pw, heap, us[k].ts) && (pw < |sorted| ==> us[k].ts < sorted[pw].start)
      ensures Serving(p, us, q, pw, heap, left, k) && |left| == |us| && left[k] == us[k]
    {
      assert left[k..][0] == us[k..][0] && left[k..][1..] == us[k..][1..];
      LaterWorkersStartLater(q, sorted, pw, us[k].ts);
    }

    /** True iff some assignment of worker units meets every project plus `(x, y)`. */
    method CanServe(x: int, y: nat) returns (ok: bool)
      ensures ok <==> Feasible(workers, projects + [Use(x, y)])
    {
      hide Residual, HeapHoldsOpen, ServedBefore, Serving, Hall, SameIntervals, Sorted, Feasible;
      var p := workers;
      var u := projects + [Use(x, y)];
      FeasibleIffHall(p, u);
      var sorted := Sort(p, ByWorker());
      var us := Sort(u, ByProject());
      var q := sorted;
      var heap: set<nat> := {};
      var pw: nat := 0;
      ghost var left := us;
      ghost var day := if us == [] then 0 else us[0].ts;
      ResidualStart(p, us, sorted);
      SortedProjects(us);
      EmptyHeap(q, day);
      for k := 0 to |us|
        invariant SameIntervals(sorted, q) && |left| == |us|
        invariant k < |us| ==> day <= us[k].ts
        invariant HeapHoldsOpen(q, pw, heap, day)
        invariant ServedBefore(us, left, k) && left[k..] == us[k..]
        invariant Residual(p, us, q, left)
      {
        LaterDay(q, pw, heap, day, us[k].ts);
        day := us[k].ts;
        var units;
        units, q, pw, heap, left := Move(p, us, sorted, q, pw, heap, left, k);
        if units < us[k].points {
          Stuck(p, us, q, pw, left, k);
          HallPermutation(p, p, u, us);
          return false;
        }
        Served(p, us, q, pw, heap, left, k);
      }
      NothingLater(u);
      ResidualOfSorted(p, u, us, q, left, []);
      NoDemand(q, []);
      assert u + [] == u;
      ok := true;
    }

    static lemma NothingLater(u: seq<Use>)
      ensures Later(u, [])
    {}

    /** The most units a new project on day `x` can get; 0 when the current projects alone cannot be met. */
    method MaxUnitsOnDay(x: int) returns (most: nat)
      ensures Feasible(workers, projects) ==> MostOn(workers, projects, x, most)
      ensures !Feasible(workers, projects) ==> most == 0
    {
      hide Feasible;
      var maxSum := OpenSum(workers, x);
      GiftPointsHeap.SpendNothing(workers, projects, x);
      forall z: nat | maxSum < z ensures !Feasible(workers, projects + [Use(x, z)]) {
        if Feasible(workers, projects + [Use(x, z)]) { AtMostAllOpen(workers, projects, x, z); }
      }
      var low: nat, high: nat := 0, maxSum;
      while low < high
        invariant low <= high
        invariant Feasible(workers, projects) ==> Feasible(workers, projects + [Use(x, low)])
        invariant 0 < low ==> Feasible(workers, projects)
        invariant forall z: nat :: high < z ==> !Feasible(workers, projects + [Use(x, z)])
      {
        var mid := (low + high + 1) / 2;
        var ok := CanServe(x, mid);
        forall z: nat | z <= mid && ok ensures Feasible(workers, projects + [Use(x, z)]) {
          FeasibleIsMonotone(workers, projects, x, mid, z);
        }
        forall z: nat | mid <= z && !ok ensures !Feasible(workers, projects + [Use(x, z)]) {
          if Feasible(workers, projects + [Use(x, z)]) { FeasibleIsMonotone(workers, projects, x, z, mid); }
        }
        if ok {
          low := mid;
        } else {
          high := mid - 1;
        }
      }
      most := low;
    }

    static method OpenSum(workers: seq<Supply>, x: int) returns (sum: nat)
      ensures sum == Sum(workers, Held({x}))
    {
      sum := 0;
      for i := 0 to |workers|
        invariant sum == Sum(workers[..i], Held({x}))
      {
        assert workers[..i + 1] == workers[..i] + [workers[i]];
        SumConcat(workers[..i], [workers[i]], Held({x}));
        if workers[i].start <= x && x <= workers[i].end {
          assert Open(workers[i], x);
          sum := sum + workers[i].points;
        }
      }
      assert workers[..|workers|] == workers;
    }
  }

  /** The two programs answer the same question with the same number. */
  method SolversAgree(g: GiftPointsHeap.GiftPoints, s: Scheduler, ts: int) returns (spend: nat, units: nat)
    requires g.points == s.workers && g.uses == s.projects
    requires Feasible(s.workers, s.projects)
    ensures spend == units
  {
    var r := g.Query(ts);
    spend := r.value;
    units := s.MaxUnitsOnDay(ts);
  }
}
