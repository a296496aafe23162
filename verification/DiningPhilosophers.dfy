/**
  cpp/Dining_philosophers_problem.cc: philosophers with one mutex, three states and a binary semaphore each.

  A step is one lock-protected section: asking for the forks, acquiring the own semaphore, the callback that logs
  the take, and putting the forks back.  The results hold for every interleaving of any number of philosophers.
*/
module DiningPhilosophers {
  import opened Arithmetic

  datatype Phase = THINKING | HUNGRY | EATING

  /** Where a philosopher's thread is: before takeForks, blocked on its semaphore, past it, and with forks in hand. */
  datatype Pc = Away | Acquiring | Acquired | Dining

  datatype Action = Took(pid: nat) | Put(pid: nat)

  /** The fields of PhilosophersSync. */
  datatype Table = Table(states: seq<Phase>, sems: seq<nat>)

  datatype State = State(table: Table, pcs: seq<Pc>, log: seq<Action>)

  function Right(n: nat, pid: nat): nat
    requires 0 < n
  {
    (pid + 1) % n
  }

  function Left(n: nat, pid: nat): nat
    requires 0 < n
  {
    (pid + n - 1) % n
  }

  predicate Seats(n: nat, t: Table) { 0 < n == |t.states| == |t.sems| }

  /** tryToEat: a hungry philosopher without an eating neighbour starts to eat, and its semaphore is released. */
  function TryToEat(n: nat, t: Table, pid: nat): Table
    requires Seats(n, t) && pid < n
  {
    if t.states[pid] == HUNGRY && t.states[Left(n, pid)] != EATING && t.states[Right(n, pid)] != EATING
    then Table(t.states[pid := EATING], t.sems[pid := 1])
    else t
  }

  /** The locked part of takeForks. */
  function AskForForks(n: nat, t: Table, pid: nat): Table
    requires Seats(n, t) && pid < n
  {
    TryToEat(n, t.(states := t.states[pid := HUNGRY]), pid)
  }

  function PutForks(n: nat, t: Table, pid: nat): Table
    requires Seats(n, t) && pid < n
  {
    TryToEat(n, TryToEat(n, t.(states := t.states[pid := THINKING]), Right(n, pid)), Left(n, pid))
  }

  class PhilosophersSync {
    const numPhils: nat
    var states: seq<Phase>
    var sems: seq<nat>

    function Now(): Table
      reads this
    {
      Table(states, sems)
    }

    ghost predicate Valid()
      reads this
    {
      Seats(numPhils, Now())
    }

    constructor (n: nat)
      requires 0 < n
      ensures Valid() && numPhils == n && Now() == Table(seq(n, _ => THINKING), seq(n, _ => 0))
    {
      numPhils := n;
      states, sems := seq(n, _ => THINKING), seq(n, _ => 0);
    }

    method Try(selfPid: nat)
      requires Valid() && selfPid < numPhils
      modifies this
      ensures Valid() && Now() == TryToEat(numPhils, old(Now()), selfPid)
    {
      if states[selfPid] == HUNGRY &&
         states[(selfPid + numPhils - 1) % numPhils] != EATING &&
         states[(selfPid + 1) % numPhils] != EATING {
        states := states[selfPid := EATING];
        sems := sems[selfPid := 1];
      }
    }

    method TakeForks(pid: nat)
      requires Valid() && pid < numPhils
      modifies this
      ensures Valid() && Now() == AskForForks(numPhils, old(Now()), pid)
    {
      states := states[pid := HUNGRY];
      Try(pid);
    }

    /** BinarySemaphore.acquire, once it no longer blocks. */
    method Acquire(pid: nat)
      requires Valid() && pid < numPhils && sems[pid] == 1
      modifies this
      ensures Valid() && Now() == old(Now()).(sems := old(sems)[pid := 0])
    {
      sems := sems[pid := 0];
    }

    method Release(pid: nat)
      requires Valid() && pid < numPhils
      modifies this
      ensures Valid() && Now() == PutForks(numPhils, old(Now()), pid)
    {
      states := states[pid := THINKING];
      Try((pid + 1) % numPhils);
      Try((pid + numPhils - 1) % numPhils);
    }
  }

  // ----- all interleavings -----

  predicate WellFormed(n: nat, s: State) { Seats(n, s.table) && |s.pcs| == n }

  predicate Enabled(n: nat, s: State, pid: nat)
    requires WellFormed(n, s) && pid < n
  {
    s.pcs[pid] != Acquiring || s.table.sems[pid] == 1
  }

  function Step(n: nat, s: State, pid: nat): State
    requires WellFormed(n, s) && pid < n && Enabled(n, s, pid)
  {
    match s.pcs[pid]
    case Away => s.(table := AskForForks(n, s.table, pid), pcs := s.pcs[pid := Acquiring])
    case Acquiring => s.(table := s.table.(sems := s.table.sems[pid := 0]), pcs := s.pcs[pid := Acquired])
    case Acquired => s.(pcs := s.pcs[pid := Dining], log := s.log + [Took(pid)])
    case Dining => s.(table := PutForks(n, s.table, pid), pcs := s.pcs[pid := Away], log := s.log + [Put(pid)])
  }

  function Initial(n: nat): State {
    State(Table(seq(n, _ => THINKING), seq(n, _ => 0)), seq(n, _ => Away), [])
  }

  ghost predicate Next(n: nat, s: State, s': State) {
    WellFormed(n, s) && exists pid: nat :: pid < n && Enabled(n, s, pid) && s' == Step(n, s, pid)
  }

  ghost predicate Execution(n: nat, run: seq<State>) {
    && 0 < n && run != [] && run[0] == Initial(n)
    && forall i :: 0 <= i < |run| - 1 ==> Next(n, run[i], run[i + 1])
  }

  /** No two neighbours eat. */
  ghost predicate Apart(n: nat, t: Table)
    requires Seats(n, t)
  {
    forall i: nat :: i < n && Right(n, i) != i && t.states[i] == EATING ==> t.states[Right(n, i)] != EATING
  }

  ghost predicate HasEatingNeighbour(n: nat, t: Table, i: nat)
    requires Seats(n, t) && i < n
  {
    t.states[Left(n, i)] == EATING || t.states[Right(n, i)] == EATING
  }

  /** A philosopher's own thread agrees with its state, and its semaphore is 1 only while it may eat and has not
      noticed yet. */
  predicate Agrees(phase: Phase, sem: nat, pc: Pc) {
    match pc
    case Away => phase == THINKING && sem == 0
    case Acquiring => (phase == HUNGRY && sem == 0) || (phase == EATING && sem == 1)
    case Acquired => phase == EATING && sem == 0
    case Dining => phase == EATING && sem == 0
  }

  ghost predicate Inv(n: nat, s: State) {
    && WellFormed(n, s)
    && Apart(n, s.table)
    && (forall i: nat :: i < n ==> Agrees(s.table.states[i], s.table.sems[i], s.pcs[i]))
    && (forall i: nat :: i < n && s.table.states[i] == HUNGRY ==> HasEatingNeighbour(n, s.table, i))
  }

  lemma Neighbours(n: nat, i: nat)
    requires 0 < n && i < n
    ensures Left(n, i) == if i == 0 then n - 1 else i - 1
    ensures Right(n, i) == if i == n - 1 then 0 else i + 1
    ensures Right(n, Left(n, i)) == i && Left(n, Right(n, i)) == i
  {
    ModWrap(n, i + n - 1);
    ModWrap(n, i + 1);
    ModWrap(n, (if i == 0 then n - 1 else i - 1) + 1);
    ModWrap(n, (if i == n - 1 then 0 else i + 1) + n - 1);
  }

  /** tryToEat keeps neighbours apart and takes nobody's meal away. */
  lemma TryKeepsApart(n: nat, t: Table, pid: nat)
    requires Seats(n, t) && pid < n && Apart(n, t)
    ensures Seats(n, TryToEat(n, t, pid)) && Apart(n, TryToEat(n, t, pid))
    ensures forall i :: 0 <= i < n && t.states[i] == EATING ==> TryToEat(n, t, pid).states[i] == EATING
  {
    var t' := TryToEat(n, t, pid);
    forall i: nat | i < n && Right(n, i) != i && t'.states[i] == EATING ensures t'.states[Right(n, i)] != EATING {
      Neighbours(n, i);
      Neighbours(n, pid);
    }
  }

  /** After tryToEat the philosopher is not hungry without an eating neighbour. */
  lemma TryServes(n: nat, t: Table, pid: nat)
    requires Seats(n, t) && pid < n
    ensures var t' := TryToEat(n, t, pid);
            t'.states[pid] == HUNGRY ==> HasEatingNeighbour(n, t', pid)
  {}

  lemma StillServed(n: nat, t: Table, pid: nat, i: nat)
    requires Seats(n, t) && pid < n && i < n && HasEatingNeighbour(n, t, i)
    requires t.states[pid] == EATING ==> TryToEat(n, t, pid).states[pid] == EATING
    ensures HasEatingNeighbour(n, TryToEat(n, t, pid), i)
  {}

  lemma TakeKeepsInv(n: nat, s: State, pid: nat)
    requires Inv(n, s) && pid < n && s.pcs[pid] == Away
    ensures Inv(n, Step(n, s, pid))
  {
    var t1 := s.table.(states := s.table.states[pid := HUNGRY]);
    var t2 := TryToEat(n, t1, pid);
    assert Agrees(s.table.states[pid], s.table.sems[pid], s.pcs[pid]);
    assert Apart(n, t1);
    TryKeepsApart(n, t1, pid);
    forall i: nat | i < n && t2.states[i] == HUNGRY ensures HasEatingNeighbour(n, t2, i) {
      if i != pid {
        assert HasEatingNeighbour(n, s.table, i);
        StillServed(n, t1, pid, i);
      }
    }
  }

  /** A philosopher who loses an eating neighbour is one of the two that are tried. */
  lemma PutServes(n: nat, t: Table, pid: nat, i: nat)
    requires Seats(n, t) && pid < n && i < n && t.states[pid] == EATING && Apart(n, t)
    requires t.states[i] == HUNGRY ==> HasEatingNeighbour(n, t, i)
    requires PutForks(n, t, pid).states[i] == HUNGRY
    ensures HasEatingNeighbour(n, PutForks(n, t, pid), i)
  {
    var t1 := t.(states := t.states[pid := THINKING]);
    var t2 := TryToEat(n, t1, Right(n, pid));
    Neighbours(n, pid);
    Neighbours(n, i);
    if i == Right(n, pid) {
      TryServes(n, t1, i);
      if i != Left(n, pid) { StillServed(n, t2, Left(n, pid), i); } else { TryServes(n, t2, i); }
    } else if i == Left(n, pid) {
      TryServes(n, t2, i);
    } else {
      assert Left(n, i) != pid && Right(n, i) != pid;
      assert HasEatingNeighbour(n, t1, i);
      StillServed(n, t1, Right(n, pid), i);
      StillServed(n, t2, Left(n, pid), i);
    }
  }

  /** tryToEat changes a philosopher from waiting hungry to waiting with its semaphore released, or not at all. */
  lemma TryAgrees(n: nat, t: Table, pid: nat, i: nat, pc: Pc)
    requires Seats(n, t) && pid < n && i < n && Agrees(t.states[i], t.sems[i], pc)
    ensures var t' := TryToEat(n, t, pid); Agrees(t'.states[i], t'.sems[i], pc)
  {}

  lemma PutKeepsInv(n: nat, s: State, pid: nat)
    requires Inv(n, s) && pid < n && s.pcs[pid] == Dining
    ensures Inv(n, Step(n, s, pid))
  {
    var t := s.table;
    var t1 := t.(states := t.states[pid := THINKING]);
    var t2 := TryToEat(n, t1, Right(n, pid));
    var s' := Step(n, s, pid);
    assert Agrees(t.states[pid], t.sems[pid], s.pcs[pid]);
    assert Apart(n, t1);
    TryKeepsApart(n, t1, Right(n, pid));
    TryKeepsApart(n, t2, Left(n, pid));
    forall i: nat | i < n ensures Agrees(s'.table.states[i], s'.table.sems[i], s'.pcs[i]) {
      assert Agrees(t.states[i], t.sems[i], s.pcs[i]);
      TryAgrees(n, t1, Right(n, pid), i, s'.pcs[i]);
      TryAgrees(n, t2, Left(n, pid), i, s'.pcs[i]);
    }
    forall i: nat | i < n && s'.table.states[i] == HUNGRY ensures HasEatingNeighbour(n, s'.table, i) {
      PutServes(n, t, pid, i);
    }
  }

  lemma StepKeepsInv(n: nat, s: State, pid: nat)
    requires Inv(n, s) && pid < n && Enabled(n, s, pid)
    ensures Inv(n, Step(n, s, pid))
  {
    assert Agrees(s.table.states[pid], s.table.sems[pid], s.pcs[pid]);
    match s.pcs[pid]
    case Away => TakeKeepsInv(n, s, pid);
    case Dining => PutKeepsInv(n, s, pid);
    case Acquiring =>
      var t := s.table;
      forall i: nat | i < n && t.states[i] == HUNGRY ensures HasEatingNeighbour(n, Step(n, s, pid).table, i) {
        assert HasEatingNeighbour(n, t, i);
      }
    case Acquired =>
  }

  /** Philosopher `u` eats, and its thread can take the next step towards putting the forks back. */
  predicate Serving(n: nat, s: State, u: nat)
    requires WellFormed(n, s) && u < n
  {
    s.table.states[u] == EATING && Enabled(n, s, u)
  }

  /** Only the hungry are blocked, and whoever is hungry has a neighbour that eats and can go on, whose putting the forks
      back will serve it: nobody waits for a wake-up that was lost. */
  lemma NoLostWakeUp(n: nat, s: State, pid: nat)
    requires Inv(n, s) && pid < n
    ensures !Enabled(n, s, pid) <==> s.table.states[pid] == HUNGRY
    ensures s.table.states[pid] == HUNGRY ==> Serving(n, s, Left(n, pid)) || Serving(n, s, Right(n, pid))
  {
    assert Agrees(s.table.states[pid], s.table.sems[pid], s.pcs[pid]);
    var l, r := Left(n, pid), Right(n, pid);
    assert Agrees(s.table.states[l], s.table.sems[l], s.pcs[l]);
    assert Agrees(s.table.states[r], s.table.sems[r], s.pcs[r]);
    if s.table.states[pid] == HUNGRY { assert HasEatingNeighbour(n, s.table, pid); }
  }

  // ----- the log of taken and put forks -----

  datatype Forks = InUse(forks: set<nat>) | CheckFailed

  /** checkActions: philosopher `pid` uses the forks `pid` and `pid + 1`. */
  function Replay(n: nat, log: seq<Action>): Forks
    requires 0 < n
  {
    if log == [] then InUse({}) else
      match Replay(n, log[..|log| - 1])
      case CheckFailed => CheckFailed
      case InUse(forks) =>
        match log[|log| - 1]
        case Took(pid) =>
          if pid in forks || Right(n, pid) in forks then CheckFailed else InUse(forks + {pid, Right(n, pid)})
        case Put(pid) =>
          if pid in forks && Right(n, pid) in forks then InUse(forks - {pid, Right(n, pid)}) else CheckFailed
  }

  /** Fork f lies between philosophers f - 1 and f. */
  predicate InHand(n: nat, pcs: seq<Pc>, f: nat)
    requires 0 < n == |pcs| && f < n
  {
    pcs[f] == Dining || (Left(n, f) < n && pcs[Left(n, f)] == Dining)
  }

  ghost function Held(n: nat, pcs: seq<Pc>): set<nat>
    requires 0 < n == |pcs|
  {
    set f: nat | f < n && InHand(n, pcs, f)
  }

  /** The neighbours of a philosopher who eats do not dine. */
  lemma OthersDoNotDine(n: nat, s: State, pid: nat)
    requires Inv(n, s) && pid < n && s.table.states[pid] == EATING
    ensures Left(n, pid) != pid ==> s.pcs[Left(n, pid)] != Dining
    ensures Right(n, pid) != pid ==> s.pcs[Right(n, pid)] != Dining
  {
    var l, r := Left(n, pid), Right(n, pid);
    Neighbours(n, pid);
    Neighbours(n, l);
    Neighbours(n, r);
    assert Agrees(s.table.states[l], s.table.sems[l], s.pcs[l]);
    assert Agrees(s.table.states[r], s.table.sems[r], s.pcs[r]);
  }

  lemma InHandAfterTake(n: nat, pcs: seq<Pc>, pid: nat, f: nat)
    requires 0 < n == |pcs| && pid < n && f < n && pcs[pid] != Dining
    requires Left(n, pid) != pid ==> pcs[Left(n, pid)] != Dining
    requires Right(n, pid) != pid ==> pcs[Right(n, pid)] != Dining
    ensures InHand(n, pcs[pid := Dining], f) <==> InHand(n, pcs, f) || f == pid || f == Right(n, pid)
    ensures f == pid || f == Right(n, pid) ==> !InHand(n, pcs, f)
  {
    Neighbours(n, pid);
    Neighbours(n, f);
  }

  lemma HeldAfterTake(n: nat, pcs: seq<Pc>, pid: nat)
    requires 0 < n == |pcs| && pid < n && pcs[pid] != Dining
    requires Left(n, pid) != pid ==> pcs[Left(n, pid)] != Dining
    requires Right(n, pid) != pid ==> pcs[Right(n, pid)] != Dining
    ensures pid !in Held(n, pcs) && Right(n, pid) !in Held(n, pcs)
    ensures Held(n, pcs[pid := Dining]) == Held(n, pcs) + {pid, Right(n, pid)}
  {
    hide InHand;
    Neighbours(n, pid);
    InHandAfterTake(n, pcs, pid, pid);
    InHandAfterTake(n, pcs, pid, Right(n, pid));
    forall f: nat | f < n ensures f in Held(n, pcs[pid := Dining]) <==> f in Held(n, pcs) + {pid, Right(n, pid)} {
      InHandAfterTake(n, pcs, pid, f);
    }
  }

  lemma HeldUnchanged(n: nat, pcs: seq<Pc>, pid: nat, pc: Pc)
    requires 0 < n == |pcs| && pid < n && pcs[pid] != Dining && pc != Dining
    ensures Held(n, pcs[pid := pc]) == Held(n, pcs)
  {
    forall f: nat | f < n ensures InHand(n, pcs[pid := pc], f) <==> InHand(n, pcs, f) {}
  }

  /** What one step adds to the log passes the checks. */
  lemma StepKeepsLog(n: nat, s: State, pid: nat)
    requires Inv(n, s) && pid < n && Enabled(n, s, pid)
    requires Replay(n, s.log) == InUse(Held(n, s.pcs))
    ensures var s' := Step(n, s, pid); Replay(n, s'.log) == InUse(Held(n, s'.pcs))
  {
    assert Agrees(s.table.states[pid], s.table.sems[pid], s.pcs[pid]);
    hide Inv, Held, TryToEat;
    var s' := Step(n, s, pid);
    match s.pcs[pid]
    case Away =>
      HeldUnchanged(n, s.pcs, pid, Acquiring);
    case Acquiring =>
      HeldUnchanged(n, s.pcs, pid, Acquired);
    case Acquired =>
      OthersDoNotDine(n, s, pid);
      HeldAfterTake(n, s.pcs, pid);
      assert s'.log[..|s'.log| - 1] == s.log;
    case Dining =>
      OthersDoNotDine(n, s, pid);
      HeldAfterTake(n, s'.pcs, pid);
      assert s'.pcs[pid := Dining] == s.pcs;
      assert Held(n, s.pcs) - {pid, Right(n, pid)} == Held(n, s'.pcs);
      assert s'.log[..|s'.log| - 1] == s.log;
  }

  /** Every state of every run keeps the invariant, and the log passes all checks. */
  lemma {:induction false} EveryState(n: nat, run: seq<State>, i: nat)
    requires Execution(n, run) && i < |run|
    ensures Inv(n, run[i]) && Replay(n, run[i].log) == InUse(Held(n, run[i].pcs))
  {
    hide Inv;
    if i == 0 {
      InitialInv(n);
    } else {
      EveryState(n, run, i - 1);
      assert Next(n, run[i - 1], run[i - 1 + 1]);
      var s := run[i - 1];
      var pid: nat :| pid < n && Enabled(n, s, pid) && run[i] == Step(n, s, pid);
      StepKeepsInv(n, s, pid);
      StepKeepsLog(n, s, pid);
    }
  }

  lemma InitialInv(n: nat)
    requires 0 < n
    ensures Inv(n, Initial(n)) && Replay(n, []) == InUse(Held(n, Initial(n).pcs))
  {
    assert Held(n, Initial(n).pcs) == {};
  }

  /** Safety and freedom from deadlock in every run. */
  lemma DiningSafely(n: nat, run: seq<State>, i: nat, pid: nat)
    requires Execution(n, run) && i < |run| && pid < n
    ensures WellFormed(n, run[i])
    ensures 1 < n && run[i].table.states[pid] == EATING ==> run[i].table.states[(pid + 1) % n] != EATING
    ensures Replay(n, run[i].log) != CheckFailed
    ensures !Enabled(n, run[i], pid) <==> run[i].table.states[pid] == HUNGRY
    ensures run[i].table.states[pid] == HUNGRY ==> Serving(n, run[i], (pid + n - 1) % n) || Serving(n, run[i], (pid + 1) % n)
    ensures exists other: nat :: other < n && Enabled(n, run[i], other)
  {
    EveryState(n, run, i);
    NoLostWakeUp(n, run[i], pid);
    if 1 < n { RightIsAnother(n, pid); }
    assert Enabled(n, run[i], pid) || Enabled(n, run[i], Left(n, pid)) || Enabled(n, run[i], Right(n, pid));
  }

  lemma RightIsAnother(n: nat, pid: nat)
    requires 1 < n && pid < n
    ensures Right(n, pid) != pid
  {}

  /** Nobody is ever stuck for good: every run can be continued for as long as one likes. */
  lemma RunsOn(n: nat, run: seq<State>, steps: nat) returns (longer: seq<State>)
    requires Execution(n, run)
    ensures Execution(n, longer) && run <= longer && |longer| == |run| + steps
    decreases steps
  {
    longer := run;
    if steps != 0 {
      DiningSafely(n, run, |run| - 1, 0);
      var s := run[|run| - 1];
      var pid: nat :| pid < n && Enabled(n, s, pid);
      var more := run + [Step(n, s, pid)];
      hide Step, Enabled;
      forall i | 0 <= i < |more| - 1 ensures Next(n, more[i], more[i + 1]) {
        if i < |run| - 1 { assert Next(n, run[i], run[i + 1]); }
      }
      longer := RunsOn(n, more, steps - 1);
    }
  }

  lemma SomeRunIsLong(n: nat, steps: nat) returns (run: seq<State>)
    requires 0 < n
    ensures Execution(n, run) && run[0] == Initial(n) && |run| == steps + 1
  {
    run := RunsOn(n, [Initial(n)], steps);
  }

  /** What the check on the log is: no fork is taken that is in use, and none is put back that is not. */
  lemma LogIsChecked(n: nat, log: seq<Action>, forks: set<nat>, pid: nat)
    requires 0 < n && pid < n && Replay(n, log) == InUse(forks)
    ensures Replay(n, log + [Took(pid)]) == CheckFailed <==> forks * {pid, (pid + 1) % n} != {}
    ensures Replay(n, log + [Put(pid)]) == CheckFailed <==> !({pid, (pid + 1) % n} <= forks)
  {
    assert (log + [Took(pid)])[..|log|] == log && (log + [Put(pid)])[..|log|] == log;
  }
}
