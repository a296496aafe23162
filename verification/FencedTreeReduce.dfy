/**
  binaryTreeTreadRun of cpp/reduce.cc: the binary tree reduction on one shared array, with a fence after every round.

  In round r = 1, 2, 4, ... the threads whose id is a multiple of r take part.  Those that are not a multiple of 2r add
  their value to the one below and stop; all of them meet at the fence before the next round.  `level` is the exponent
  of r.  A step is the addition, entering the fence, or leaving it.
*/
module FencedTreeReduce {
  import opened Arithmetic
  import opened FiniteSets
  import opened Sums
  import opened TreeReduce

  datatype Pc = Working | Entering | Waiting | Done

  /** `ended` is shouldEnd. */
  datatype Thread = Thread(level: nat, pc: Pc, ended: bool)

  datatype Shared = Shared(threads: seq<Thread>, values: seq<int>, round2count: map<nat, nat>)

  function Count(round2count: map<nat, nat>, level: nat): nat {
    if Pow2(level) in round2count then round2count[Pow2(level)] else 0
  }

  function Participants(n: nat, level: nat): nat { (n + Pow2(level) - 1) / Pow2(level) }

  predicate Fits(n: nat, s: Shared) { 0 < n == |s.threads| == |s.values| }

  predicate CanStep(n: nat, s: Shared, t: nat)
    requires Fits(n, s) && t < n
  {
    match s.threads[t].pc
    case Working => true
    case Entering => true
    case Waiting => Count(s.round2count, s.threads[t].level) == Participants(n, s.threads[t].level)
    case Done => false
  }

  function StepOf(n: nat, s: Shared, t: nat): Shared
    requires Fits(n, s) && t < n && CanStep(n, s, t)
  {
    var th := s.threads[t];
    match th.pc
    case Working =>
      if IsSender(t, th.level) then
        var dest := Destination(t, th.level);
        s.(threads := s.threads[t := Thread(th.level, Entering, true)], values := s.values[dest := s.values[dest] + s.values[t]])
      else
        s.(threads := s.threads[t := th.(pc := Entering)])
    case Entering =>
      s.(threads := s.threads[t := th.(pc := Waiting)],
         round2count := s.round2count[Pow2(th.level) := Count(s.round2count, th.level) + 1])
    case Waiting =>
      if th.ended || n <= Pow2(th.level + 1) then s.(threads := s.threads[t := th.(pc := Done)])
      else s.(threads := s.threads[t := Thread(th.level + 1, Working, false)])
  }

  function Start(values: seq<int>): Shared {
    Shared(seq(|values|, _ => Thread(0, if 1 < |values| then Working else Done, false)), values, map[])
  }

  ghost predicate Follows(n: nat, s: Shared, s': Shared) {
    Fits(n, s) && exists t: nat :: t < n && CanStep(n, s, t) && s' == StepOf(n, s, t)
  }

  ghost predicate Run(values: seq<int>, run: seq<Shared>) {
    && values != [] && run != [] && run[0] == Start(values)
    && forall i :: 0 <= i < |run| - 1 ==> Follows(|values|, run[i], run[i + 1])
  }

  // ---- The fence ------------------------------------------------------------------------------------------------

  ghost function Multiples(n: nat, r: nat): set<nat>
    requires 0 < r
  {
    set t: nat | t < n && t % r == 0
  }

  /** As many threads take part as the fence expects. */
  lemma {:induction false} ParticipantsAreMultiples(n: nat, r: nat)
    requires 0 < r
    ensures |Multiples(n, r)| == (n + r - 1) / r
  {
    if n == 0 {
      Remainder(r - 1, r, 0, r - 1);
    } else {
      var k := n - 1;
      ParticipantsAreMultiples(k, r);
      var q, m := k / r, k % r;
      assert k == q * r + m;
      assert (q + 1) * r == q * r + r;
      Remainder(n + r - 1, r, q + 1, m);
      if m == 0 {
        Remainder(k + r - 1, r, q, r - 1);
        assert Multiples(n, r) == Multiples(k, r) + {k};
      } else {
        Remainder(k + r - 1, r, q + 1, m - 1);
        assert Multiples(n, r) == Multiples(k, r);
      }
    }
  }

  predicate Arrived(th: Thread, level: nat) {
    level < th.level || (th.level == level && (th.pc == Waiting || th.pc == Done))
  }

  predicate Passed(th: Thread, level: nat) { level < th.level || (th.level == level && th.pc == Done) }

  ghost function ArrivedBy(threads: seq<Thread>, level: nat): set<nat> {
    set t: nat | t < |threads| && t % Pow2(level) == 0 && Arrived(threads[t], level)
  }

  predicate ThreadOk(n: nat, t: nat, th: Thread) {
    && t % Pow2(th.level) == 0
    && (th.ended ==> IsSender(t, th.level) && th.pc != Working)
    && (IsSender(t, th.level) ==> th.ended || th.pc == Working)
    && (th.pc != Done || th.level != 0 ==> Pow2(th.level) < n)
    && (th.pc == Done ==> th.ended || n <= Pow2(th.level + 1))
  }

  /** The counter of a round counts who has arrived, and whoever has passed found it complete. */
  ghost predicate FenceOk(n: nat, s: Shared, level: nat)
    requires Fits(n, s)
  {
    Pow2(level) < n ==>
      && Count(s.round2count, level) == |ArrivedBy(s.threads, level)|
      && forall t: nat :: t < n && Passed(s.threads[t], level) ==> Count(s.round2count, level) == Participants(n, level)
  }

  ghost predicate InvOf(n: nat, s: Shared) {
    && Fits(n, s)
    && (forall t: nat :: t < n ==> ThreadOk(n, t, s.threads[t]))
    && (forall level: nat :: FenceOk(n, s, level))
  }

  /** Once a thread has passed the fence of a round, everybody has arrived there. */
  lemma FenceHolds(n: nat, s: Shared, level: nat, t: nat, u: nat)
    requires InvOf(n, s) && Pow2(level) < n && t < n && u < n && u % Pow2(level) == 0
    requires level < s.threads[t].level || (s.threads[t].level == level && s.threads[t].pc == Done)
    ensures level < s.threads[u].level || (s.threads[u].level == level && (s.threads[u].pc == Waiting || s.threads[u].pc == Done))
  {
    assert FenceOk(n, s, level);
    ParticipantsAreMultiples(n, Pow2(level));
    SubsetSize(ArrivedBy(s.threads, level), Multiples(n, Pow2(level)));
    assert u in Multiples(n, Pow2(level));
  }

  /** The thread that a value is added to has not ended. */
  lemma DestinationOpen(n: nat, s: Shared, t: nat)
    requires InvOf(n, s) && t < n && s.threads[t].pc == Working && IsSender(t, s.threads[t].level)
    ensures var dest := Destination(t, s.threads[t].level); dest < t && !s.threads[dest].ended
  {
    var level := s.threads[t].level;
    Parent(t, level);
    var dest := Destination(t, level);
    var d := s.threads[dest];
    if d.ended {
      if d.level <= level {
        NoSenderBelow(dest, d.level, level + 1);
      }
      FenceHolds(n, s, level, dest, t);
    }
  }

  /** While a thread adds, no other thread that is at work touches the two cells. */
  lemma NoRace(n: nat, s: Shared, t: nat, u: nat)
    requires InvOf(n, s) && t < n && u < n && t != u && s.threads[t].pc == Working && s.threads[u].pc == Working
    requires IsSender(t, s.threads[t].level) && IsSender(u, s.threads[u].level)
    ensures var a, b := Destination(t, s.threads[t].level), Destination(u, s.threads[u].level); a != b && a != u && b != t
  {
    var i, j := s.threads[t].level, s.threads[u].level;
    Parent(t, i);
    Parent(u, j);
    if i < j {
      MultipleOfSmallerPower(u, i, j);
      FenceHolds(n, s, i, u, t);
    } else if j < i {
      MultipleOfSmallerPower(t, j, i);
      FenceHolds(n, s, j, t, u);
    } else {
      NoSenderBelow(t - Pow2(i), i, i + 1);
    }
  }

  // ---- Every step keeps the invariant ---------------------------------------------------------------------------

  lemma SameArrivals(n: nat, s: Shared, s': Shared, level: nat)
    requires Fits(n, s) && Fits(n, s') && s'.round2count == s.round2count && FenceOk(n, s, level)
    requires forall t: nat :: t < n ==> Arrived(s'.threads[t], level) == Arrived(s.threads[t], level)
    requires forall t: nat :: t < n && Passed(s'.threads[t], level) && !Passed(s.threads[t], level) ==>
               Count(s.round2count, level) == Participants(n, level)
    ensures FenceOk(n, s', level)
  {
    assert ArrivedBy(s'.threads, level) == ArrivedBy(s.threads, level);
  }

  lemma WorkKeepsInv(n: nat, s: Shared, t: nat)
    requires InvOf(n, s) && t < n && s.threads[t].pc == Working
    ensures InvOf(n, StepOf(n, s, t))
  {
    var s' := StepOf(n, s, t);
    forall level: nat ensures FenceOk(n, s', level) {
      assert FenceOk(n, s, level);
      SameArrivals(n, s, s', level);
    }
  }

  lemma EnterKeepsInv(n: nat, s: Shared, t: nat)
    requires InvOf(n, s) && t < n && s.threads[t].pc == Entering
    ensures InvOf(n, StepOf(n, s, t))
  {
    var s', own := StepOf(n, s, t), s.threads[t].level;
    forall level: nat ensures FenceOk(n, s', level) {
      assert FenceOk(n, s, level);
      if level == own {
        assert ArrivedBy(s'.threads, level) == ArrivedBy(s.threads, level) + {t};
        forall u: nat | u < n ensures !Passed(s'.threads[u], level) {
          if Passed(s.threads[u], level) { FenceHolds(n, s, level, u, t); }
        }
      } else {
        SamePower(level, own);
        assert ArrivedBy(s'.threads, level) == ArrivedBy(s.threads, level);
      }
    }
  }

  lemma SamePower(i: nat, j: nat)
    requires i != j
    ensures Pow2(i) != Pow2(j)
  {
    if i < j { Pow2Increases(i, j); } else { Pow2Increases(j, i); }
  }

  lemma LeaveKeepsInv(n: nat, s: Shared, t: nat)
    requires InvOf(n, s) && t < n && s.threads[t].pc == Waiting && CanStep(n, s, t)
    ensures InvOf(n, StepOf(n, s, t))
  {
    var s' := StepOf(n, s, t);
    assert ThreadOk(n, t, s'.threads[t]) by { assert ThreadOk(n, t, s.threads[t]); }
    forall level: nat ensures FenceOk(n, s', level) {
      assert FenceOk(n, s, level);
      SameArrivals(n, s, s', level);
    }
  }

  lemma StepOfKeepsInv(n: nat, s: Shared, t: nat)
    requires InvOf(n, s) && t < n && CanStep(n, s, t)
    ensures InvOf(n, StepOf(n, s, t))
  {
    match s.threads[t].pc
    case Working => WorkKeepsInv(n, s, t);
    case Entering => EnterKeepsInv(n, s, t);
    case Waiting => LeaveKeepsInv(n, s, t);
  }

  // ---- Nothing is lost ------------------------------------------------------------------------------------------

  /** The values that are not yet added to another. */
  function Kept(s: Shared): seq<int>
    requires |s.threads| == |s.values|
  {
    seq(|s.threads|, t requires 0 <= t < |s.threads| => if s.threads[t].ended then 0 else s.values[t])
  }

  lemma StepOfConserves(n: nat, s: Shared, t: nat)
    requires InvOf(n, s) && t < n && CanStep(n, s, t)
    ensures Sum(Kept(StepOf(n, s, t)), Units()) == Sum(Kept(s), Units())
  {
    var s', th := StepOf(n, s, t), s.threads[t];
    if th.pc == Working && IsSender(t, th.level) {
      DestinationOpen(n, s, t);
      var dest := Destination(t, th.level);
      assert ThreadOk(n, t, th);
      var without := Kept(s)[t := 0];
      SumUpdate(Kept(s), t, 0, Units());
      SumUpdate(without, dest, s.values[dest] + s.values[t], Units());
      assert Kept(s') == without[dest := s.values[dest] + s.values[t]];
    } else {
      assert ThreadOk(n, t, th);
      assert Kept(s') == Kept(s);
    }
  }

  // ---- Nobody waits for ever ------------------------------------------------------------------------------------

  lemma SlowestActive(n: nat, s: Shared) returns (t: nat)
    requires Fits(n, s) && exists u :: 0 <= u < n && s.threads[u].pc != Done
    ensures t < n && s.threads[t].pc != Done && forall u :: 0 <= u < n && s.threads[u].pc != Done ==> s.threads[t].level <= s.threads[u].level
  {
    t :| t < n && s.threads[t].pc != Done;
    for u := 0 to n
      invariant t < n && s.threads[t].pc != Done
      invariant forall v :: 0 <= v < u && s.threads[v].pc != Done ==> s.threads[t].level <= s.threads[v].level
    {
      if s.threads[u].pc != Done && s.threads[u].level < s.threads[t].level { t := u; }
    }
  }

  /** If all that are furthest behind wait at the fence, everybody has arrived there. */
  lemma FenceOpens(n: nat, s: Shared, level: nat)
    requires InvOf(n, s) && Pow2(level) < n
    requires forall u: nat :: u < n && s.threads[u].pc != Done ==> level < s.threads[u].level || (level == s.threads[u].level && s.threads[u].pc == Waiting)
    ensures Count(s.round2count, level) == Participants(n, level)
  {
    assert FenceOk(n, s, level);
    ParticipantsAreMultiples(n, Pow2(level));
    forall u: nat | u < n && u % Pow2(level) == 0 ensures Arrived(s.threads[u], level) {
      var th := s.threads[u];
      assert ThreadOk(n, u, th);
      if th.pc == Done && th.level < level {
        if th.ended {
          NoSenderBelow(u, th.level, level);
        } else if th.level + 1 < level {
          Pow2Increases(th.level + 1, level);
        }
      }
    }
    assert ArrivedBy(s.threads, level) == Multiples(n, Pow2(level));
  }

  lemma SomebodyCanStep(n: nat, s: Shared)
    requires InvOf(n, s)
    ensures (forall t :: 0 <= t < n ==> s.threads[t].pc == Done) || exists t: nat :: t < n && CanStep(n, s, t)
  {
    if exists u :: 0 <= u < n && s.threads[u].pc != Done {
      var t := SlowestActive(n, s);
      var level := s.threads[t].level;
      if u: nat :| u < n && s.threads[u].level == level && s.threads[u].pc != Done && s.threads[u].pc != Waiting {
        assert CanStep(n, s, u);
      } else {
        assert ThreadOk(n, t, s.threads[t]);
        FenceOpens(n, s, level);
        assert CanStep(n, s, t);
      }
    }
  }

  // ---- Whole runs -----------------------------------------------------------------------------------------------

  function PcRank(pc: Pc): int { match pc case Working => 0 case Entering => 1 case Waiting => 2 case Done => 3 }

  function ThreadProgress(): Thread -> int { (th: Thread) => 3 * th.level + PcRank(th.pc) }

  lemma StepProgresses(n: nat, s: Shared, t: nat)
    requires Fits(n, s) && t < n && CanStep(n, s, t)
    ensures Sum(StepOf(n, s, t).threads, ThreadProgress()) == Sum(s.threads, ThreadProgress()) + 1
  {
    SumUpdate(s.threads, t, StepOf(n, s, t).threads[t], ThreadProgress());
  }

  lemma StartInv(values: seq<int>)
    requires values != []
    ensures InvOf(|values|, Start(values)) && Sum(Kept(Start(values)), Units()) == Sum(values, Units())
  {
    var s, n := Start(values), |values|;
    assert Kept(s) == values;
    assert Pow2(0) == 1 && Pow2(1) == 2;
    forall level: nat ensures FenceOk(n, s, level) {
      if Pow2(level) < n {
        if 0 < level { Pow2Increases(0, level); }
        assert ArrivedBy(s.threads, level) == {};
      }
    }
  }

  lemma {:induction false} EveryShared(values: seq<int>, run: seq<Shared>, i: nat)
    requires Run(values, run) && i < |run|
    ensures InvOf(|values|, run[i]) && Sum(Kept(run[i]), Units()) == Sum(values, Units())
    ensures Sum(run[i].threads, ThreadProgress()) == Sum(run[0].threads, ThreadProgress()) + i
  {
    if i == 0 {
      StartInv(values);
    } else {
      EveryShared(values, run, i - 1);
      hide InvOf;
      var n := |values|;
      assert Follows(n, run[i - 1], run[i - 1 + 1]);
      var t: nat :| t < n && CanStep(n, run[i - 1], t) && run[i] == StepOf(n, run[i - 1], t);
      StepOfKeepsInv(n, run[i - 1], t);
      StepOfConserves(n, run[i - 1], t);
      StepProgresses(n, run[i - 1], t);
    }
  }

  /** When all are done only the first thread still holds a value. */
  lemma FirstHoldsAll(n: nat, s: Shared)
    requires InvOf(n, s) && forall t :: 0 <= t < n ==> s.threads[t].pc == Done
    ensures s.values[0] == Sum(Kept(s), Units())
  {
    assert ThreadOk(n, 0, s.threads[0]);
    Remainder(0, Pow2(s.threads[0].level + 1), 0, 0);
    forall t: nat | 0 < t < n ensures s.threads[t].ended {
      assert ThreadOk(n, t, s.threads[t]);
      if !s.threads[t].ended { Remainder(t, Pow2(s.threads[t].level + 1), 0, t); }
    }
    OnlyFirst(Kept(s));
  }

  lemma OnlyFirst(xs: seq<int>)
    requires xs != [] && forall i :: 0 < i < |xs| ==> xs[i] == 0
    ensures Sum(xs, Units()) == xs[0]
  {
    SumEqual(xs[1..], Units(), _ => 0);
    SumZero(xs[1..]);
  }

  lemma ProgressBounds(n: nat, s: Shared)
    requires InvOf(n, s)
    ensures 0 <= Sum(s.threads, ThreadProgress()) <= n * (3 * n + 3)
  {
    forall th | th in s.threads ensures ThreadProgress()(th) <= 3 * n + 3 {
      var t: nat :| t < n && s.threads[t] == th;
      assert ThreadOk(n, t, th);
    }
    AtMostEach(s.threads, ThreadProgress(), 3 * n + 3);
    SumNonNegative(s.threads, ThreadProgress());
  }

  /** No run is longer than this. */
  lemma RunsEnd(values: seq<int>, run: seq<Shared>)
    requires Run(values, run)
    ensures |run| <= |values| * (3 * |values| + 3) + 1
  {
    var n := |values|;
    hide InvOf, ThreadProgress;
    EveryShared(values, run, |run| - 1);
    ProgressBounds(n, run[|run| - 1]);
    EveryShared(values, run, 0);
    ProgressBounds(n, run[0]);
  }

  /** When no thread can go on the first one holds everything. */
  lemma StoppedHoldsAll(n: nat, s: Shared)
    requires InvOf(n, s) && forall t: nat :: t < n ==> !CanStep(n, s, t)
    ensures s.values[0] == Sum(Kept(s), Units())
  {
    SomebodyCanStep(n, s);
    FirstHoldsAll(n, s);
  }

  /** Every run ends, and when no thread can go on values[0] is the total of the input. */
  lemma FencedTreeReduceCorrect(values: seq<int>, run: seq<Shared>)
    requires Run(values, run)
    ensures |run| <= |values| * (3 * |values| + 3) + 1
    ensures var s, n := run[|run| - 1], |values|;
      && Fits(n, s)
      && ((forall t: nat :: t < n ==> !CanStep(n, s, t)) ==> s.values[0] == Sum(values, Units()))
  {
    var s, n := run[|run| - 1], |values|;
    RunsEnd(values, run);
    EveryShared(values, run, |run| - 1);
    if forall t: nat :: t < n ==> !CanStep(n, s, t) {
      StoppedHoldsAll(n, s);
    }
  }

  /** Every run can be continued until the total is in values[0]. */
  lemma RunsToTheEnd(values: seq<int>, run: seq<Shared>) returns (full: seq<Shared>)
    requires Run(values, run)
    ensures Run(values, full) && run <= full
    ensures var s := full[|full| - 1]; Fits(|values|, s) && s.values[0] == Sum(values, Units())
    decreases |values| * (3 * |values| + 3) + 1 - |run|
  {
    FencedTreeReduceCorrect(values, run);
    var s, n := run[|run| - 1], |values|;
    full := run;
    if t: nat :| t < n && CanStep(n, s, t) {
      var more := run + [StepOf(n, s, t)];
      hide StepOf, CanStep;
      forall i | 0 <= i < |more| - 1 ensures Follows(n, more[i], more[i + 1]) {
        if i < |run| - 1 { assert Follows(n, run[i], run[i + 1]); }
      }
      FencedTreeReduceCorrect(values, more);
      full := RunsToTheEnd(values, more);
    }
  }

  lemma SomeRunEnds(values: seq<int>) returns (full: seq<Shared>)
    requires values != []
    ensures Run(values, full) && full[0] == Start(values)
    ensures var s := full[|full| - 1]; Fits(|values|, s) && s.values[0] == Sum(values, Units())
  {
    full := RunsToTheEnd(values, [Start(values)]);
  }
}
