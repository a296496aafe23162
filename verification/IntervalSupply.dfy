/**
  Supplies that are open on an interval of days, demands that each fall on one day, and the question
  both python/gift_points_heapq.py and python/worker_scheduling.py answer: can every demand be met
  when a supply may be divided over any days of its interval?

  `Feasible` says what an answer is: an assignment of units.  `Hall` says it without an assignment:
  no set of days asks for more than the supplies that reach it hold.  The two agree
  (`FeasibleIffHall`), and spending from the open supply that ends first keeps `Hall` in both
  directions (`EarliestEndFirst`), which is why the greedy scans are exact.
*/
module IntervalSupply {
  import opened Sums

  datatype Supply = Supply(start: int, end: int, points: nat)
  datatype Use = Use(ts: int, points: nat)

  predicate Open(s: Supply, t: int) { s.start <= t <= s.end }

  ghost predicate Hits(s: Supply, days: set<int>) { exists t :: t in days && Open(s, t) }

  ghost function Held(days: set<int>): Supply -> int { (s: Supply) => if Hits(s, days) then s.points else 0 }

  ghost function Asked(days: set<int>): Use -> int { (u: Use) => if u.ts in days then u.points else 0 }

  ghost predicate HallAt(supplies: seq<Supply>, uses: seq<Use>, days: set<int>) {
    Sum(uses, Asked(days)) <= Sum(supplies, Held(days))
  }

  ghost predicate Hall(supplies: seq<Supply>, uses: seq<Use>) {
    forall days :: HallAt(supplies, uses, days)
  }

  function Units(): nat -> int { (n: nat) => n }

  function Column(j: nat): seq<nat> -> int { (row: seq<nat>) => if j < |row| then row[j] else 0 }

  /** `a[i][j]` units of supply `i` are spent on use `j`. */
  ghost predicate Assignment(supplies: seq<Supply>, uses: seq<Use>, a: seq<seq<nat>>) {
    && |a| == |supplies|
    && (forall i :: 0 <= i < |a| ==> |a[i]| == |uses|)
    && (forall i, j :: 0 <= i < |a| && 0 <= j < |uses| && 0 < a[i][j] ==> Open(supplies[i], uses[j].ts))
    && (forall i :: 0 <= i < |a| ==> Sum(a[i], Units()) <= supplies[i].points)
    && (forall j :: 0 <= j < |uses| ==> Sum(a, Column(j)) == uses[j].points)
  }

  ghost predicate Feasible(supplies: seq<Supply>, uses: seq<Use>) {
    exists a :: Assignment(supplies, uses, a)
  }

  function TakeSupply(supplies: seq<Supply>, i: nat, n: nat): seq<Supply>
    requires i < |supplies| && n <= supplies[i].points
  {
    supplies[i := supplies[i].(points := supplies[i].points - n)]
  }

  function TakeUse(uses: seq<Use>, j: nat, n: nat): seq<Use>
    requires j < |uses| && n <= uses[j].points
  {
    uses[j := uses[j].(points := uses[j].points - n)]
  }

  lemma TakeChangesHeld(supplies: seq<Supply>, i: nat, n: nat, days: set<int>)
    requires i < |supplies| && n <= supplies[i].points
    ensures Sum(TakeSupply(supplies, i, n), Held(days)) ==
            Sum(supplies, Held(days)) - (if Hits(supplies[i], days) then n else 0)
  {
    var x := supplies[i].(points := supplies[i].points - n);
    SumUpdate(supplies, i, x, Held(days));
    assert Hits(x, days) <==> Hits(supplies[i], days) by {
      forall t ensures Open(x, t) == Open(supplies[i], t) {}
    }
  }

  lemma TakeChangesAsked(uses: seq<Use>, j: nat, n: nat, days: set<int>)
    requires j < |uses| && n <= uses[j].points
    ensures Sum(TakeUse(uses, j, n), Asked(days)) ==
            Sum(uses, Asked(days)) - (if uses[j].ts in days then n else 0)
  {
    SumUpdate(uses, j, uses[j].(points := uses[j].points - n), Asked(days));
  }

  /** Undoing any legal spending keeps Hall's condition. */
  lemma GiveBack(supplies: seq<Supply>, uses: seq<Use>, i: nat, j: nat, n: nat)
    requires i < |supplies| && j < |uses| && n <= supplies[i].points && n <= uses[j].points
    requires Open(supplies[i], uses[j].ts)
    requires Hall(TakeSupply(supplies, i, n), TakeUse(uses, j, n))
    ensures Hall(supplies, uses)
  {
    forall days ensures HallAt(supplies, uses, days) {
      TakeChangesHeld(supplies, i, n, days);
      TakeChangesAsked(uses, j, n, days);
      assert HallAt(TakeSupply(supplies, i, n), TakeUse(uses, j, n), days);
    }
  }

  ghost predicate NoUseBefore(uses: seq<Use>, t: int) {
    forall j :: 0 <= j < |uses| && 0 < uses[j].points ==> t <= uses[j].ts
  }

  ghost predicate EndsFirst(supplies: seq<Supply>, i: nat, t: int)
    requires i < |supplies|
  {
    forall k :: 0 <= k < |supplies| && 0 < supplies[k].points && Open(supplies[k], t) ==> supplies[i].end <= supplies[k].end
  }

  /** Days before `t` carry no demand, so they can be dropped from a set of days. */
  lemma DropEarlyDays(supplies: seq<Supply>, uses: seq<Use>, t: int, days: set<int>, late: set<int>)
    requires NoUseBefore(uses, t)
    requires late == set d | d in days && t <= d
    ensures Sum(uses, Asked(days)) == Sum(uses, Asked(late))
    ensures Sum(supplies, Held(late)) <= Sum(supplies, Held(days))
  {
    SumEqual(uses, Asked(days), Asked(late));
    SumMonotone(supplies, Held(late), Held(days));
  }

  /** If the earliest use is left out of `days`, but the supply that ends first reaches `days`,
      then every non-empty supply open for that use reaches `days`, so there is slack. */
  lemma SlackBehindEarliestUse(supplies: seq<Supply>, uses: seq<Use>, i: nat, j: nat, days: set<int>)
    requires i < |supplies| && j < |uses|
    requires Hall(supplies, uses) && EndsFirst(supplies, i, uses[j].ts)
    requires uses[j].ts !in days && Hits(supplies[i], days) && forall d :: d in days ==> uses[j].ts <= d
    ensures Sum(uses, Asked(days)) + uses[j].points <= Sum(supplies, Held(days))
  {
    var t := uses[j].ts;
    var more := days + {t};
    assert HallAt(supplies, uses, more);
    assert Sum(uses, Asked(days)) + uses[j].points <= Sum(uses, Asked(more)) by {
      TakeChangesAsked(uses, j, uses[j].points, days);
      TakeChangesAsked(uses, j, uses[j].points, more);
      SumMonotone(TakeUse(uses, j, uses[j].points), Asked(days), Asked(more));
    }
    var d :| d in days && Open(supplies[i], d);
    forall s | s in supplies ensures Held(more)(s) <= Held(days)(s) {
      if Hits(s, more) && s.points > 0 {
        var e :| e in more && Open(s, e);
        if e == t {
          var k :| 0 <= k < |supplies| && supplies[k] == s;
          assert supplies[i].end <= supplies[k].end;
          assert Open(s, d);
        } else {
          assert e in days;
        }
        assert Hits(s, days);
      }
    }
    SumMonotone(supplies, Held(more), Held(days));
  }

  /** The greedy step is exact: serving the earliest use from the open supply that ends first
      keeps Hall's condition true if it was true, and false if it was false. */
  lemma EarliestEndFirst(supplies: seq<Supply>, uses: seq<Use>, i: nat, j: nat, n: nat)
    requires i < |supplies| && j < |uses| && n <= supplies[i].points && n <= uses[j].points
    requires Open(supplies[i], uses[j].ts) && NoUseBefore(uses, uses[j].ts)
    requires EndsFirst(supplies, i, uses[j].ts)
    ensures Hall(supplies, uses) <==> Hall(TakeSupply(supplies, i, n), TakeUse(uses, j, n))
  {
    var supplies', uses' := TakeSupply(supplies, i, n), TakeUse(uses, j, n);
    if Hall(supplies, uses) {
      forall days ensures HallAt(supplies', uses', days) {
        var t := uses[j].ts;
        var late := set d | d in days && t <= d;
        DropEarlyDays(supplies', uses', t, days, late);
        TakeChangesHeld(supplies, i, n, late);
        TakeChangesAsked(uses, j, n, late);
        assert HallAt(supplies, uses, late);
        if t !in late && Hits(supplies[i], late) {
          SlackBehindEarliestUse(supplies, uses, i, j, late);
        }
      }
    }
    if Hall(supplies', uses') {
      GiveBack(supplies, uses, i, j, n);
    }
  }

  /** With no open supply left, a use that still asks for something breaks Hall's condition. */
  lemma NothingOpen(supplies: seq<Supply>, uses: seq<Use>, j: nat)
    requires j < |uses| && 0 < uses[j].points
    requires forall k :: 0 <= k < |supplies| && Open(supplies[k], uses[j].ts) ==> supplies[k].points == 0
    ensures !Hall(supplies, uses)
  {
    var days := {uses[j].ts};
    TermAtMostSum(uses, j, Asked(days));
    if 0 < Sum(supplies, Held(days)) {
      var k := PositiveTerm(supplies, Held(days));
    }
    assert !HallAt(supplies, uses, days);
  }

  lemma NoDemand(supplies: seq<Supply>, uses: seq<Use>)
    requires forall u :: u in uses ==> u.points == 0
    ensures Hall(supplies, uses)
  {
    forall days ensures HallAt(supplies, uses, days) {
      SumMonotone(uses, Asked(days), _ => 0);
      SumZero(uses);
      SumNonNegative(supplies, Held(days));
    }
  }

  function Demand(): Use -> int { (u: Use) => u.points }

  /** Moving one unit in or out of a cell of an assignment. */
  lemma SetCell(supplies: seq<Supply>, uses: seq<Use>, a: seq<seq<nat>>, i: nat, j: nat)
    requires |a| == |supplies| && forall k :: 0 <= k < |a| ==> |a[k]| == |uses|
    requires i < |supplies| && j < |uses| && 0 < supplies[i].points && 0 < uses[j].points && 0 < a[i][j]
    requires Open(supplies[i], uses[j].ts)
    ensures Assignment(supplies, uses, a) <==>
            Assignment(TakeSupply(supplies, i, 1), TakeUse(uses, j, 1), a[i := a[i][j := a[i][j] - 1]])
  {
    var row := a[i][j := a[i][j] - 1];
    var b := a[i := row];
    SumUpdate(a[i], j, a[i][j] - 1, Units());
    forall k | 0 <= k < |uses|
      ensures Sum(b, Column(k)) == Sum(a, Column(k)) - (if k == j then 1 else 0)
    {
      SumUpdate(a, i, row, Column(k));
    }
    forall k, l | 0 <= k < |a| && 0 <= l < |uses| && (k != i || l != j)
      ensures a[k][l] == b[k][l]
    {}
    var supplies', uses' := TakeSupply(supplies, i, 1), TakeUse(uses, j, 1);
    assert forall k :: 0 <= k < |a| ==> Sum(b[k], Units()) == Sum(a[k], Units()) - (if k == i then 1 else 0);
    assert forall k :: 0 <= k < |a| ==> supplies'[k].points == supplies[k].points - (if k == i then 1 else 0);
    assert forall k :: 0 <= k < |uses| ==> uses'[k].points == uses[k].points - (if k == j then 1 else 0);
    if Assignment(supplies, uses, a) {
      assert Assignment(supplies', uses', b);
    }
    if Assignment(supplies', uses', b) {
      forall k, l | 0 <= k < |a| && 0 <= l < |uses| && 0 < a[k][l]
        ensures Open(supplies[k], uses[l].ts)
      {
        if k != i || l != j { assert 0 < b[k][l]; }
      }
      assert Assignment(supplies, uses, a);
    }
  }

  lemma {:induction false} AssignmentMeetsHall(supplies: seq<Supply>, uses: seq<Use>, a: seq<seq<nat>>)
    requires Assignment(supplies, uses, a)
    ensures Hall(supplies, uses)
    decreases Sum(uses, Demand())
  {
    SumNonNegative(uses, Demand());
    if j :| 0 <= j < |uses| && 0 < uses[j].points {
      var i := PositiveTerm(a, Column(j));
      assert 0 < a[i][j];
      TermAtMostSum(a[i], j, Units());
      SetCell(supplies, uses, a, i, j);
      SumUpdate(uses, j, uses[j].(points := uses[j].points - 1), Demand());
      AssignmentMeetsHall(TakeSupply(supplies, i, 1), TakeUse(uses, j, 1), a[i := a[i][j := a[i][j] - 1]]);
      GiveBack(supplies, uses, i, j, 1);
    } else {
      NoDemand(supplies, uses);
    }
  }

  lemma {:induction false} EarliestUse(uses: seq<Use>) returns (j: nat)
    requires exists k :: 0 <= k < |uses| && 0 < uses[k].points
    ensures j < |uses| && 0 < uses[j].points && NoUseBefore(uses, uses[j].ts)
  {
    j :| j < |uses| && 0 < uses[j].points;
    for k := 0 to |uses|
      invariant j < |uses| && 0 < uses[j].points
      invariant forall l :: 0 <= l < k && 0 < uses[l].points ==> uses[j].ts <= uses[l].ts
    {
      if 0 < uses[k].points && uses[k].ts < uses[j].ts { j := k; }
    }
  }

  lemma FirstToEnd(supplies: seq<Supply>, t: int) returns (i: nat)
    requires exists k :: 0 <= k < |supplies| && 0 < supplies[k].points && Open(supplies[k], t)
    ensures i < |supplies| && 0 < supplies[i].points && Open(supplies[i], t) && EndsFirst(supplies, i, t)
  {
    i :| i < |supplies| && 0 < supplies[i].points && Open(supplies[i], t);
    for k := 0 to |supplies|
      invariant i < |supplies| && 0 < supplies[i].points && Open(supplies[i], t)
      invariant forall l :: 0 <= l < k && 0 < supplies[l].points && Open(supplies[l], t) ==> supplies[i].end <= supplies[l].end
    {
      if 0 < supplies[k].points && Open(supplies[k], t) && supplies[k].end < supplies[i].end { i := k; }
    }
  }

  lemma {:induction false} HallGivesAssignment(supplies: seq<Supply>, uses: seq<Use>) returns (a: seq<seq<nat>>)
    requires Hall(supplies, uses)
    ensures Assignment(supplies, uses, a)
    decreases Sum(uses, Demand())
  {
    SumNonNegative(uses, Demand());
    if exists k :: 0 <= k < |uses| && 0 < uses[k].points {
      var j := EarliestUse(uses);
      if forall k :: 0 <= k < |supplies| && Open(supplies[k], uses[j].ts) ==> supplies[k].points == 0 {
        NothingOpen(supplies, uses, j);
      }
      var i := FirstToEnd(supplies, uses[j].ts);
      EarliestEndFirst(supplies, uses, i, j, 1);
      SumUpdate(uses, j, uses[j].(points := uses[j].points - 1), Demand());
      var b := HallGivesAssignment(TakeSupply(supplies, i, 1), TakeUse(uses, j, 1));
      a := b[i := b[i][j := b[i][j] + 1]];
      assert b[i][j := b[i][j] + 1][j := b[i][j]] == b[i];
      assert a[i := a[i][j := a[i][j] - 1]] == b;
      SetCell(supplies, uses, a, i, j);
    } else {
      a := seq(|supplies|, _ => seq(|uses|, _ => 0));
      forall i | 0 <= i < |a| ensures Sum(a[i], Units()) == 0 {
        SumEqual(a[i], Units(), _ => 0);
        SumZero(a[i]);
      }
      forall j | 0 <= j < |uses| ensures Sum(a, Column(j)) == 0 {
        SumEqual(a, Column(j), _ => 0);
        SumZero(a);
      }
    }
  }

  /** Max-flow/min-cut for divisible interval supplies. */
  lemma FeasibleIffHall(supplies: seq<Supply>, uses: seq<Use>)
    ensures Feasible(supplies, uses) <==> Hall(supplies, uses)
  {
    if Feasible(supplies, uses) {
      var a :| Assignment(supplies, uses, a);
      AssignmentMeetsHall(supplies, uses, a);
    }
    if Hall(supplies, uses) {
      var a := HallGivesAssignment(supplies, uses);
    }
  }

  lemma HallPermutation(supplies: seq<Supply>, supplies': seq<Supply>, uses: seq<Use>, uses': seq<Use>)
    requires multiset(supplies) == multiset(supplies') && multiset(uses) == multiset(uses')
    ensures Hall(supplies, uses) <==> Hall(supplies', uses')
  {
    forall days ensures HallAt(supplies, uses, days) <==> HallAt(supplies', uses', days) {
      SumPermutation(supplies, supplies', Held(days));
      SumPermutation(uses, uses', Asked(days));
    }
  }

  function FlipSupply(s: Supply): Supply { s.(start := -s.end, end := -s.start) }

  function FlipUse(u: Use): Use { u.(ts := -u.ts) }

  function Flip(supplies: seq<Supply>): seq<Supply> { seq(|supplies|, i requires 0 <= i < |supplies| => FlipSupply(supplies[i])) }

  function FlipUses(uses: seq<Use>): seq<Use> { seq(|uses|, i requires 0 <= i < |uses| => FlipUse(uses[i])) }

  function Mirror(days: set<int>): set<int> { set d | d in days :: -d }

  lemma InMirror(d: int, days: set<int>)
    ensures -d in Mirror(days) <==> d in days
  {
    if -d in Mirror(days) {
      var e :| e in days && -e == -d;
    }
  }

  lemma FlippedHits(s: Supply, days: set<int>)
    ensures Hits(FlipSupply(s), Mirror(days)) <==> Hits(s, days)
  {
    if Hits(s, days) {
      var d :| d in days && Open(s, d);
      assert -d in Mirror(days) && Open(FlipSupply(s), -d);
    }
    if Hits(FlipSupply(s), Mirror(days)) {
      var e :| e in Mirror(days) && Open(FlipSupply(s), e);
      InMirror(-e, days);
      assert -e in days && Open(s, -e);
    }
  }

  lemma {:induction false} FlippedHeld(supplies: seq<Supply>, days: set<int>)
    ensures Sum(Flip(supplies), Held(Mirror(days))) == Sum(supplies, Held(days))
  {
    if supplies != [] {
      assert Flip(supplies)[1..] == Flip(supplies[1..]);
      FlippedHits(supplies[0], days);
      FlippedHeld(supplies[1..], days);
    }
  }

  lemma {:induction false} FlippedAsked(uses: seq<Use>, days: set<int>)
    ensures Sum(FlipUses(uses), Asked(Mirror(days))) == Sum(uses, Asked(days))
  {
    if uses != [] {
      assert FlipUses(uses)[1..] == FlipUses(uses[1..]);
      InMirror(uses[0].ts, days);
      FlippedAsked(uses[1..], days);
    }
  }

  lemma MirrorTwice(days: set<int>)
    ensures Mirror(Mirror(days)) == days
  {
    forall d ensures d in days <==> d in Mirror(Mirror(days)) {
      InMirror(d, days);
      InMirror(-d, Mirror(days));
    }
  }

  /** Reversing time changes nothing. */
  lemma HallFlip(supplies: seq<Supply>, uses: seq<Use>)
    ensures Hall(Flip(supplies), FlipUses(uses)) <==> Hall(supplies, uses)
  {
    forall days ensures HallAt(Flip(supplies), FlipUses(uses), Mirror(days)) <==> HallAt(supplies, uses, days) {
      FlippedHeld(supplies, days);
      FlippedAsked(uses, days);
    }
    if Hall(supplies, uses) {
      forall days ensures HallAt(Flip(supplies), FlipUses(uses), days) {
        MirrorTwice(days);
        assert HallAt(supplies, uses, Mirror(days));
      }
    }
  }

  lemma DropServed(supplies: seq<Supply>, served: seq<Use>, rest: seq<Use>)
    requires forall u :: u in served ==> u.points == 0
    ensures Hall(supplies, served + rest) <==> Hall(supplies, rest)
  {
    forall days ensures HallAt(supplies, served + rest, days) <==> HallAt(supplies, rest, days) {
      SumConcat(served, rest, Asked(days));
      SumEqual(served, Asked(days), _ => 0);
      SumZero(served);
    }
  }

  lemma FewerUses(supplies: seq<Supply>, uses: seq<Use>, more: seq<Use>)
    requires Hall(supplies, uses + more)
    ensures Hall(supplies, uses)
  {
    forall days ensures HallAt(supplies, uses, days) {
      assert HallAt(supplies, uses + more, days);
      SumConcat(uses, more, Asked(days));
      SumNonNegative(more, Asked(days));
    }
  }

  /** A single use can be met iff the supplies open on its day hold enough. */
  lemma OneUse(supplies: seq<Supply>, u: Use)
    ensures Hall(supplies, [u]) <==> u.points <= Sum(supplies, Held({u.ts}))
  {
    if Hall(supplies, [u]) {
      assert HallAt(supplies, [u], {u.ts});
    }
    if u.points <= Sum(supplies, Held({u.ts})) {
      forall days ensures HallAt(supplies, [u], days) {
        SumNonNegative(supplies, Held(days));
        if u.ts in days {
          SumMonotone(supplies, Held({u.ts}), Held(days));
        }
      }
    }
  }

  lemma SmallerUse(supplies: seq<Supply>, uses: seq<Use>, ts: int, y: nat, z: nat)
    requires Hall(supplies, uses + [Use(ts, y)]) && z <= y
    ensures Hall(supplies, uses + [Use(ts, z)])
  {
    forall days ensures HallAt(supplies, uses + [Use(ts, z)], days) {
      assert HallAt(supplies, uses + [Use(ts, y)], days);
      SumConcat(uses, [Use(ts, y)], Asked(days));
      SumConcat(uses, [Use(ts, z)], Asked(days));
    }
  }

  /** `y` is the most that can still be spent on day `ts` with every use met. */
  ghost predicate MostOn(supplies: seq<Supply>, uses: seq<Use>, ts: int, y: nat) {
    && Feasible(supplies, uses + [Use(ts, y)])
    && forall z: nat :: Feasible(supplies, uses + [Use(ts, z)]) ==> z <= y
  }
}
