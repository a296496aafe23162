/** python/gift_points_heapq.py: grants of points that live on an interval of days, and uses of points on a day. */
module GiftPointsHeap {
  import opened IntervalSupply
  import opened Sorting
  import opened EarliestEndScan
  import opened Sums

  datatype Result<T> = Ok(value: T) | CantMeetUses

  function ByStart(): (le: (Supply, Supply) -> bool)
    ensures TotalPreorder(le)
  {
    (x: Supply, y: Supply) => x.start <= y.start
  }

  function ByTs(): (le: (Use, Use) -> bool)
    ensures TotalPreorder(le)
  {
    (x: Use, y: Use) => x.ts <= y.ts
  }

  lemma SortedDays(us: seq<Use>)
    requires Sorted(us, ByTs())
    ensures ServedBefore(us, us, 0)
  {
    forall i, j | 0 <= i < j < |us| ensures us[i].ts <= us[j].ts { assert ByTs()(us[i], us[j]); }
  }

  lemma StartServing(p: seq<Supply>, us: seq<Use>, sorted: seq<Supply>, q: seq<Supply>, pp: nat, heap: set<nat>, left: seq<Use>, k: nat)
    requires Sorted(sorted, ByStart()) && SameIntervals(sorted, q) && Residual(p, us, q, left)
    requires k < |us| && ServedBefore(us, left, k) && left[k..] == us[k..]
    requires HeapHoldsOpen(q, pp, heap, us[k].ts) && (pp < |q| ==> us[k].ts < q[pp].start)
    ensures Serving(p, us, q, pp, heap, left, k) && left[k] == us[k]
  {
    assert left[k..][0] == us[k..][0] && left[k..][1..] == us[k..][1..];
    forall i | pp <= i < |q| ensures us[k].ts < q[i].start { assert i == pp || ByStart()(sorted[pp], sorted[i]); }
  }

  /** After the left scan left `p` and the mirrored right scan left `q`, one more use on day `ts` can be met
      iff the points still open on its mirrored day suffice. */
  lemma SpendExtra(points: seq<Supply>, uses: seq<Use>, before: seq<Use>, after: seq<Use>, p: seq<Supply>, q: seq<Supply>, ts: int, y: nat)
    requires multiset(uses) == multiset(before + after)
    requires forall u :: u in before ==> u.ts <= ts
    requires forall u :: u in after ==> ts < u.ts
    requires forall rest :: Later(before, rest) ==> (Hall(points, before + rest) <==> Hall(p, rest))
    requires forall rest :: Later(FlipUses(after), rest) ==> (Hall(Flip(p), FlipUses(after) + rest) <==> Hall(q, rest))
    ensures Feasible(points, uses + [Use(ts, y)]) <==> y <= Sum(q, Held({-ts}))
  {
    hide Feasible, Hall, Held;
    var extra := [Use(ts, y)];
    FeasibleIffHall(points, uses + extra);
    HallPermutation(points, points, uses + extra, before + (after + extra));
    assert Later(before, after + extra);
    assert Hall(points, before + (after + extra)) <==> Hall(p, after + extra);
    HallFlip(p, after + extra);
    assert FlipUses(after + extra) == FlipUses(after) + [Use(-ts, y)];
    assert Later(FlipUses(after), [Use(-ts, y)]);
    OneUse(q, Use(-ts, y));
  }

  lemma SpendNothing(points: seq<Supply>, uses: seq<Use>, ts: int)
    ensures Feasible(points, uses + [Use(ts, 0)]) <==> Feasible(points, uses)
  {
    FeasibleIffHall(points, uses);
    FeasibleIffHall(points, uses + [Use(ts, 0)]);
    HallPermutation(points, points, uses + [Use(ts, 0)], [Use(ts, 0)] + uses);
    DropServed(points, [Use(ts, 0)], uses);
  }

  class GiftPoints {
    var points: seq<Supply>
    var uses: seq<Use>

    constructor ()
      ensures points == [] && uses == []
    {
      points, uses := [], [];
    }

    method Add(n: nat, start: int, end: int)
      modifies this
      ensures points == old(points) + [Supply(start, end, n)] && uses == old(uses)
    {
      points := points + [Supply(start, end, n)];
    }

    method AddUse(ts: int, n: nat)
      modifies this
      ensures uses == old(uses) + [Use(ts, n)] && points == old(points)
    {
      uses := uses + [Use(ts, n)];
    }

    /** Serves the uses in order of their day, always from the open grant that ends first, and returns what
        is left of the grants.  Fails exactly when the uses cannot be met; otherwise what is left can serve
        any later uses exactly when the original grants could serve them on top of `u`. */
    static method Scan(p: seq<Supply>, u: seq<Use>) returns (r: Result<seq<Supply>>)
      ensures r.CantMeetUses? ==> !Hall(p, u)
      ensures r.Ok? ==> forall rest :: Later(u, rest) ==> (Hall(p, u + rest) <==> Hall(r.value, rest))
    {
      hide Residual, HeapHoldsOpen, ServedBefore, Serving, Hall, HallAt, SameIntervals, Sorted, TotalPreorder, Insert, Sort, Later;
      var sorted := Sort(p, ByStart());
      var q := sorted;
      var us := Sort(u, ByTs());
      var pp: nat := 0;
      var heap: set<nat> := {};
      ghost var left := us;
      ghost var day := if us == [] then 0 else us[0].ts;
      ResidualStart(p, us, sorted);
      SortedDays(us);
      EmptyHeap(q, day);

      for k := 0 to |us|
        invariant SameIntervals(sorted, q)
        invariant k < |us| ==> day <= us[k].ts
        invariant HeapHoldsOpen(q, pp, heap, day)
        invariant ServedBefore(us, left, k) && |left| == |us| && left[k..] == us[k..]
        invariant Residual(p, us, q, left)
      {
        LaterDay(q, pp, heap, day, us[k].ts);
        day := us[k].ts;
        while pp < |q| && q[pp].start <= us[k].ts
          invariant HeapHoldsOpen(q, pp, heap, day)
        {
          Push(q, pp, heap, day);
          heap := heap + {pp};
          pp := pp + 1;
        }
        StartServing(p, us, sorted, q, pp, heap, left, k);
        var needs := us[k].points;
        while needs > 0 && heap != {}
          invariant SameIntervals(sorted, q)
          invariant Serving(p, us, q, pp, heap, left, k) && |left| == |us| && left[k].points == needs
          decreases needs, |heap|
        {
          HeapIndices(p, us, q, pp, heap, left, k);
          var i, rest := PopEarliestEnd(heap, q);
          assert rest + {i} == heap;
          if q[i].end >= us[k].ts {
            var n: nat := if q[i].points < needs then q[i].points else needs;
            heap := if q[i].points == n then rest else rest + {i};
            SameAfterTake(sorted, q, i, n);
            ServeLeast(p, us, q, pp, rest + {i}, left, k, i, n, heap);
            needs := needs - n;
            q, left := TakeSupply(q, i, n), TakeUse(left, k, n);
          } else {
            DropExpired(p, us, q, pp, heap, left, k, i);
            heap := rest;
          }
        }
        if needs > 0 {
          Stuck(p, us, q, pp, left, k);
          HallPermutation(p, p, u, us);
          return CantMeetUses;
        }
        Served(p, us, q, pp, heap, left, k);
      }
      forall rest | Later(u, rest) ensures Hall(p, u + rest) <==> Hall(q, rest) {
        ResidualOfSorted(p, u, us, q, left, rest);
      }
      r := Ok(q);
    }

    /** The most that can still be spent on day `ts` with every use met, or a failure when the uses
        cannot all be met in the first place. */
    method Query(ts: int) returns (r: Result<nat>)
      ensures r.CantMeetUses? <==> !Feasible(points, uses)
      ensures r.Ok? ==> MostOn(points, uses, ts, r.value)
    {
      var sorted := Sort(uses, ByTs());
      var cut := BisectRight(sorted, Use(ts, 0), ByTs());
      var before, after := sorted[..cut], sorted[cut..];
      assert sorted == before + after;
      FeasibleIffHall(points, uses);
      HallPermutation(points, points, uses, sorted);

      var left := Scan(points, before);
      if left.CantMeetUses? {
        if Hall(points, sorted) { FewerUses(points, before, after); }
        return CantMeetUses;
      }
      var p := left.value;
      assert Later(before, after);
      HallFlip(p, after);

      var right := Scan(Flip(p), FlipUses(after));
      if right.CantMeetUses? { return CantMeetUses; }
      var q := right.value;
      forall y: nat ensures Feasible(points, uses + [Use(ts, y)]) <==> y <= Sum(q, Held({-ts})) {
        SpendExtra(points, uses, before, after, p, q, ts, y);
      }
      SpendNothing(points, uses, ts);
      var ans := OpenOn(q, ts);
      r := Ok(ans);
    }

    /** Flips the mirrored grants back and adds up those open on day `ts`. */
    static method OpenOn(q: seq<Supply>, ts: int) returns (ans: nat)
      ensures ans == Sum(q, Held({-ts}))
    {
      ans := 0;
      for i := 0 to |q|
        invariant ans == Sum(q[..i], Held({-ts}))
      {
        assert q[..i + 1] == q[..i] + [q[i]];
        SumConcat(q[..i], [q[i]], Held({-ts}));
        var s := FlipSupply(q[i]);
        assert Open(s, ts) <==> Hits(q[i], {-ts}) by {
          assert Open(s, ts) <==> Open(q[i], -ts);
        }
        if s.start <= ts && ts <= s.end {
          ans := ans + s.points;
        }
      }
      assert q[..|q|] == q;
    }
  }
}
