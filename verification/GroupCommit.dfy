/**
  GroupCommit of python/group_commit.py: the first thread to find the queue empty leads, takes the whole queue, merges
  the data and commits it under a semaphore, while the others wait for their event.

  A step is one section under the queue lock, one operation on the semaphore or an event, or the commit itself; the
  results hold for every interleaving of any number of submissions.
*/
module GroupCommits {
  import opened FiniteSets
  import opened Sums

  /** A group taken from the queue, and which one it was. */
  datatype Batch = Batch(number: nat, members: seq<nat>)

  /** Where a thread is in `commit`. */
  datatype Pc =
    | Idle
    | Waiting
    | Leading
    | Merged(batch: Batch)
    | Committing(batch: Batch)
    | Committed(batch: Batch)
    | Waking(batch: Batch, next: nat)
    | Returned(commits: nat)

  datatype Commit<D> = Commit(batch: Batch, merged: D)

  /** What the threads submit, how data merge, and how many commits may run at once. */
  datatype Params<!D> = Params(data: seq<D>, merge: (D, D) -> D, maxCommits: nat)

  /** `arrivals` and `cuts` record who joined the queue and where it was taken: group g is arrivals[cuts[g]..cuts[g + 1]]. */
  datatype State<D> = State(queue: seq<nat>, pcs: seq<Pc>, events: seq<bool>, permits: nat, log: seq<Commit<D>>,
                            arrivals: seq<nat>, cuts: seq<nat>)

  // ---- Merging --------------------------------------------------------------------------------------------------

  predicate Known<D>(p: Params<D>, members: seq<nat>) { forall i :: 0 <= i < |members| ==> members[i] < |p.data| }

  /** The data of a group merged in queue order. */
  function MergedData<D>(p: Params<D>, members: seq<nat>): D
    requires members != [] && Known(p, members)
  {
    if |members| == 1 then p.data[members[0]]
    else p.merge(MergedData(p, members[..|members| - 1]), p.data[members[|members| - 1]])
  }

  /** The loop of the leader over its group. */
  method Merge<D>(p: Params<D>, members: seq<nat>) returns (merged: D)
    requires members != [] && Known(p, members)
    ensures merged == MergedData(p, members)
  {
    merged := p.data[members[0]];
    assert members[..1] == [members[0]];
    for i := 1 to |members|
      invariant merged == MergedData(p, members[..i])
    {
      assert members[..i + 1][..i] == members[..i];
      merged := p.merge(merged, p.data[members[i]]);
    }
    assert members[..|members|] == members;
  }

  // ---- Steps ----------------------------------------------------------------------------------------------------

  predicate PcKnown<D>(p: Params<D>, pc: Pc) {
    match pc
    case Merged(b) => b.members != [] && Known(p, b.members)
    case Committing(b) => b.members != [] && Known(p, b.members)
    case Committed(b) => b.members != [] && Known(p, b.members)
    case Waking(b, next) => b.members != [] && Known(p, b.members) && 1 <= next <= |b.members|
    case _ => true
  }

  predicate Shape<D>(p: Params<D>, s: State<D>) {
    && |s.pcs| == |s.events| == |p.data| && s.cuts != []
    && Known(p, s.queue) && forall t :: 0 <= t < |s.pcs| ==> PcKnown(p, s.pcs[t])
  }

  predicate Enabled<D>(p: Params<D>, s: State<D>, t: nat)
    requires Shape(p, s) && t < |p.data|
  {
    match s.pcs[t]
    case Waiting => s.events[t]
    case Merged(_) => 0 < s.permits
    case Leading => s.queue != []
    case Returned(_) => false
    case _ => true
  }

  function Step<D>(p: Params<D>, s: State<D>, t: nat): State<D>
    requires Shape(p, s) && t < |p.data| && Enabled(p, s, t)
  {
    match s.pcs[t]
    case Idle =>
      var pc := if s.queue == [] then Leading else Waiting;
      s.(queue := s.queue + [t], pcs := s.pcs[t := pc], arrivals := s.arrivals + [t])
    case Leading =>
      s.(queue := [], pcs := s.pcs[t := Merged(Batch(|s.cuts| - 1, s.queue))], cuts := s.cuts + [|s.arrivals|])
    case Merged(b) =>
      s.(pcs := s.pcs[t := Committing(b)], permits := s.permits - 1)
    case Committing(b) =>
      s.(pcs := s.pcs[t := Committed(b)], log := s.log + [Commit(b, MergedData(p, b.members))])
    case Committed(b) =>
      s.(pcs := s.pcs[t := Waking(b, 1)], permits := s.permits + 1)
    case Waking(b, next) =>
      if next < |b.members| then
        s.(pcs := s.pcs[t := Waking(b, next + 1)], events := s.events[b.members[next] := true])
      else
        s.(pcs := s.pcs[t := Returned(|b.members|)])
    case Waiting =>
      s.(pcs := s.pcs[t := Returned(0)])
  }

  function Initial<D>(p: Params<D>): State<D> {
    State([], seq(|p.data|, _ => Idle), seq(|p.data|, _ => false), p.maxCommits, [], [], [0])
  }

  ghost predicate Next<D>(p: Params<D>, s: State<D>, s': State<D>) {
    Shape(p, s) && exists t: nat :: t < |p.data| && Enabled(p, s, t) && s' == Step(p, s, t)
  }

  ghost predicate Execution<D>(p: Params<D>, run: seq<State<D>>) {
    && run != [] && run[0] == Initial(p)
    && forall i :: 0 <= i < |run| - 1 ==> Next(p, run[i], run[i + 1])
  }

  // ---- The groups -----------------------------------------------------------------------------------------------

  /** The cuts split what arrived; what comes after the last is the queue. */
  ghost predicate Cuts<D>(s: State<D>) {
    && s.cuts != [] && s.cuts[0] == 0
    && (forall g, h :: 0 <= g < h < |s.cuts| ==> s.cuts[g] < s.cuts[h])
    && (forall g :: 0 <= g < |s.cuts| ==> s.cuts[g] <= |s.arrivals|)
    && s.queue == s.arrivals[s.cuts[|s.cuts| - 1]..]
  }

  ghost predicate Arrived<D>(p: Params<D>, s: State<D>) {
    && |s.pcs| == |s.events| == |p.data| && Known(p, s.arrivals) && Distinct(s.arrivals)
    && forall t :: 0 <= t < |p.data| ==> (t in s.arrivals <==> s.pcs[t] != Idle)
  }

  ghost predicate Ok<D>(p: Params<D>, s: State<D>) { Cuts(s) && Arrived(p, s) }

  ghost function Last<D>(s: State<D>): nat
    requires s.cuts != []
  {
    s.cuts[|s.cuts| - 1]
  }

  ghost predicate IsGroup<D>(s: State<D>, g: nat) { g + 1 < |s.cuts| }

  ghost function Members<D>(s: State<D>, g: nat): seq<nat>
    requires Cuts(s) && IsGroup(s, g)
  {
    s.arrivals[s.cuts[g]..s.cuts[g + 1]]
  }

  ghost function LeaderPc<D>(p: Params<D>, s: State<D>, g: nat): Pc
    requires Ok(p, s) && IsGroup(s, g)
  {
    s.pcs[s.arrivals[s.cuts[g]]]
  }

  /** The thread that took the group is in one of these places. */
  ghost predicate Leads(pc: Pc, b: Batch) {
    match pc
    case Merged(c) => c == b
    case Committing(c) => c == b
    case Committed(c) => c == b
    case Waking(c, next) => c == b && 1 <= next <= |b.members|
    case Returned(commits) => commits == |b.members|
    case _ => false
  }

  /** Its commit has been done. */
  ghost predicate Past(pc: Pc) { pc.Committed? || pc.Waking? || pc.Returned? }

  /** It has set the event of the member at place `k`. */
  ghost predicate Woke(pc: Pc, k: nat) { (pc.Waking? && k < pc.next) || pc.Returned? }

  ghost predicate GroupOk<D>(p: Params<D>, s: State<D>, g: nat)
    requires Ok(p, s)
  {
    IsGroup(s, g) ==> Leads(LeaderPc(p, s, g), Batch(g, Members(s, g)))
  }

  /** A member that does not lead waits until it is woken, and returns 0. */
  ghost predicate MemberOk<D>(p: Params<D>, s: State<D>, g: nat, j: nat)
    requires Ok(p, s)
  {
    IsGroup(s, g) && s.cuts[g] < j < s.cuts[g + 1] ==>
      var x := s.arrivals[j];
      && s.events[x] == Woke(LeaderPc(p, s, g), j - s.cuts[g])
      && (s.pcs[x] == Waiting || (s.pcs[x] == Returned(0) && s.events[x]))
  }

  /** The first in the queue leads it, the others wait. */
  ghost predicate QueuedOk<D>(p: Params<D>, s: State<D>, j: nat)
    requires Ok(p, s)
  {
    Last(s) <= j < |s.arrivals| ==>
      var x := s.arrivals[j];
      !s.events[x] && s.pcs[x] == if j == Last(s) then Leading else Waiting
  }

  ghost predicate Groups<D>(p: Params<D>, s: State<D>) {
    && Ok(p, s)
    && (forall g: nat :: GroupOk(p, s, g))
    && (forall g: nat, j: nat :: MemberOk(p, s, g, j))
    && (forall j: nat :: QueuedOk(p, s, j))
  }

  /** An entry of the log is a whole group that is past its commit, merged in queue order. */
  ghost predicate EntryOk<D>(p: Params<D>, s: State<D>, i: nat)
    requires Ok(p, s)
  {
    i < |s.log| ==>
      var b := s.log[i].batch;
      && IsGroup(s, b.number) && b.members == Members(s, b.number) && Past(LeaderPc(p, s, b.number))
      && b.members != [] && Known(p, b.members) && s.log[i].merged == MergedData(p, b.members)
  }

  ghost predicate InLog<D>(s: State<D>, g: nat) { exists i :: 0 <= i < |s.log| && s.log[i].batch.number == g }

  ghost predicate Logged<D>(p: Params<D>, s: State<D>, g: nat)
    requires Ok(p, s)
  {
    IsGroup(s, g) && Past(LeaderPc(p, s, g)) ==> InLog(s, g)
  }

  ghost predicate Log<D>(p: Params<D>, s: State<D>)
    requires Ok(p, s)
  {
    && (forall i: nat :: EntryOk(p, s, i))
    && (forall g: nat :: Logged(p, s, g))
    && (forall i, j :: 0 <= i < j < |s.log| ==> s.log[i].batch.number != s.log[j].batch.number)
  }

  // ---- Who a thread is ------------------------------------------------------------------------------------------

  /** A place in what arrived belongs to a group or to the queue. */
  lemma FindGroup<D>(s: State<D>, j: nat) returns (g: nat)
    requires Cuts(s) && j < Last(s)
    ensures IsGroup(s, g) && s.cuts[g] <= j < s.cuts[g + 1]
  {
    g := 0;
    while s.cuts[g + 1] <= j
      invariant g + 1 < |s.cuts| && s.cuts[g] <= j
      decreases |s.cuts| - g
    {
      assert g + 1 != |s.cuts| - 1;
      g := g + 1;
    }
  }

  /** The place and group of a thread whose pc only a leader has. */
  lemma LeaderOf<D>(p: Params<D>, s: State<D>, t: nat) returns (g: nat)
    requires Groups(p, s) && t < |p.data|
    requires !s.pcs[t].Idle? && !s.pcs[t].Waiting? && !s.pcs[t].Leading? && s.pcs[t] != Returned(0)
    ensures IsGroup(s, g) && s.cuts[g] < |s.arrivals| && s.arrivals[s.cuts[g]] == t
    ensures Leads(s.pcs[t], Batch(g, Members(s, g))) && t in Members(s, g)
  {
    var j: nat :| j < |s.arrivals| && s.arrivals[j] == t;
    assert QueuedOk(p, s, j);
    g := FindGroup(s, j);
    assert GroupOk(p, s, g) && MemberOk(p, s, g, j);
    assert Members(s, g)[0] == t;
  }

  lemma WaiterOf<D>(p: Params<D>, s: State<D>, t: nat) returns (j: nat)
    requires Groups(p, s) && t < |p.data| && s.pcs[t].Waiting?
    ensures j < |s.arrivals| && s.arrivals[j] == t
    ensures Last(s) <= j ==> !s.events[t] && j != Last(s)
    ensures forall g: nat :: IsGroup(s, g) ==> s.cuts[g] != j
  {
    j :| j < |s.arrivals| && s.arrivals[j] == t;
    assert QueuedOk(p, s, j);
    forall g: nat | IsGroup(s, g) ensures s.cuts[g] != j { assert GroupOk(p, s, g); }
  }

  /** The thread that joined at place `j` does something, and nobody else does. */
  ghost predicate PcChanged<D>(s: State<D>, s': State<D>, j: nat, pc: Pc) {
    && j < |s.arrivals| && s.arrivals[j] < |s.pcs| && s'.pcs == s.pcs[s.arrivals[j] := pc]
    && s'.queue == s.queue && s'.arrivals == s.arrivals && s'.cuts == s.cuts && |s'.events| == |s.events|
  }

  lemma PcChangedAt<D>(p: Params<D>, s: State<D>, s': State<D>, j: nat, pc: Pc, k: nat)
    requires Ok(p, s) && PcChanged(s, s', j, pc) && !pc.Idle? && k < |s.arrivals|
    ensures Ok(p, s') && s'.arrivals == s.arrivals && s'.cuts == s.cuts
    ensures s.arrivals[k] < |s.pcs| == |s'.pcs| == |s.events| == |s'.events|
    ensures s'.pcs[s.arrivals[k]] == if k == j then pc else s.pcs[s.arrivals[k]]
  {
    assert s.pcs[s.arrivals[j]] != Idle;
  }

  lemma GroupPlaces<D>(s: State<D>, g: nat)
    requires Cuts(s) && IsGroup(s, g)
    ensures s.cuts[g] < s.cuts[g + 1] <= Last(s) <= |s.arrivals|
    ensures |Members(s, g)| == s.cuts[g + 1] - s.cuts[g]
    ensures forall k :: 0 <= k < |Members(s, g)| ==> Members(s, g)[k] == s.arrivals[s.cuts[g] + k]
  {}

  lemma OnlyOneGroup<D>(s: State<D>, g: nat, h: nat, j: nat)
    requires Cuts(s) && IsGroup(s, g) && IsGroup(s, h) && s.cuts[g] <= j < s.cuts[g + 1] && s.cuts[h] <= j < s.cuts[h + 1]
    ensures g == h
  {}

  // ---- The steps keep the groups --------------------------------------------------------------------------------

  lemma GroupStays<D>(p: Params<D>, s: State<D>, s': State<D>, j: nat, pc: Pc, h: nat)
    requires Ok(p, s) && PcChanged(s, s', j, pc) && !pc.Idle? && Ok(p, s') && GroupOk(p, s, h)
    requires IsGroup(s, h) && s.cuts[h] == j ==> Leads(pc, Batch(h, Members(s, h)))
    ensures GroupOk(p, s', h)
    ensures IsGroup(s, h) ==> LeaderPc(p, s', h) == if s.cuts[h] == j then pc else LeaderPc(p, s, h)
  {
    if IsGroup(s, h) {
      GroupPlaces(s, h);
      PcChangedAt(p, s, s', j, pc, s.cuts[h]);
    }
  }

  /** The leader of a group goes on, and wakes the members that the events say. */
  lemma LeaderMoves<D>(p: Params<D>, s: State<D>, s': State<D>, g: nat, pc: Pc)
    requires Groups(p, s) && IsGroup(s, g) && PcChanged(s, s', s.cuts[g], pc) && Leads(pc, Batch(g, Members(s, g)))
    requires forall k: nat :: 0 < k < |Members(s, g)| ==> s'.events[s.arrivals[s.cuts[g] + k]] == Woke(pc, k)
    requires forall k: nat :: k < |s.arrivals| && !(s.cuts[g] < k < s.cuts[g + 1]) ==> s'.events[s.arrivals[k]] == s.events[s.arrivals[k]]
    requires forall k: nat :: Woke(LeaderPc(p, s, g), k) ==> Woke(pc, k)
    ensures Groups(p, s')
    ensures forall h: nat :: IsGroup(s, h) ==> LeaderPc(p, s', h) == if h == g then pc else LeaderPc(p, s, h)
  {
    GroupPlaces(s, g);
    PcChangedAt(p, s, s', s.cuts[g], pc, s.cuts[g]);
    forall h: nat
      ensures GroupOk(p, s', h)
      ensures IsGroup(s, h) ==> LeaderPc(p, s', h) == if h == g then pc else LeaderPc(p, s, h)
    {
      assert GroupOk(p, s, h);
      if IsGroup(s, h) && s.cuts[h] == s.cuts[g] { assert h == g; }
      hide Ok;
      GroupStays(p, s, s', s.cuts[g], pc, h);
    }
    forall h: nat, j: nat ensures MemberOk(p, s', h, j) {
      LeaderMovesMember(p, s, s', g, pc, h, j);
    }
    forall j: nat ensures QueuedOk(p, s', j) {
      assert QueuedOk(p, s, j);
      hide Ok;
      if Last(s) <= j < |s.arrivals| { PcChangedAt(p, s, s', s.cuts[g], pc, j); }
    }
  }

  lemma LeaderMovesMember<D>(p: Params<D>, s: State<D>, s': State<D>, g: nat, pc: Pc, h: nat, j: nat)
    requires Groups(p, s) && Ok(p, s') && IsGroup(s, g) && PcChanged(s, s', s.cuts[g], pc) && Leads(pc, Batch(g, Members(s, g)))
    requires forall k: nat :: 0 < k < |Members(s, g)| ==> s'.events[s.arrivals[s.cuts[g] + k]] == Woke(pc, k)
    requires forall k: nat :: k < |s.arrivals| && !(s.cuts[g] < k < s.cuts[g + 1]) ==> s'.events[s.arrivals[k]] == s.events[s.arrivals[k]]
    requires forall k: nat :: Woke(LeaderPc(p, s, g), k) ==> Woke(pc, k)
    ensures MemberOk(p, s', h, j)
  {
    assert MemberOk(p, s, h, j) && GroupOk(p, s, h);
    if IsGroup(s, h) && s.cuts[h] < j < s.cuts[h + 1] {
      GroupPlaces(s, g);
      GroupPlaces(s, h);
      assert s.cuts[g] == s.cuts[h] ==> g == h;
      if s.cuts[g] <= j < s.cuts[g + 1] { OnlyOneGroup(s, g, h, j); }
      hide Ok, Groups;
      GroupStays(p, s, s', s.cuts[g], pc, h);
      PcChangedAt(p, s, s', s.cuts[g], pc, j);
      if g == h {
        var k := j - s.cuts[g];
        assert s.cuts[g] + k == j;
      }
    }
  }

  lemma FollowerReturns<D>(p: Params<D>, s: State<D>, s': State<D>, t: nat)
    requires Groups(p, s) && t < |p.data| && s.pcs[t].Waiting? && s.events[t]
    requires s' == s.(pcs := s.pcs[t := Returned(0)])
    ensures Groups(p, s')
    ensures forall h: nat :: IsGroup(s, h) ==> LeaderPc(p, s', h) == LeaderPc(p, s, h)
  {
    var j := WaiterOf(p, s, t);
    assert PcChanged(s, s', j, Returned(0));
    PcChangedAt(p, s, s', j, Returned(0), j);
    forall h: nat
      ensures GroupOk(p, s', h)
      ensures IsGroup(s, h) ==> LeaderPc(p, s', h) == LeaderPc(p, s, h)
    {
      assert GroupOk(p, s, h);
      hide Ok;
      GroupStays(p, s, s', j, Returned(0), h);
    }
    forall h: nat, i: nat ensures MemberOk(p, s', h, i) {
      assert MemberOk(p, s, h, i) && GroupOk(p, s, h);
      if IsGroup(s, h) && s.cuts[h] < i < s.cuts[h + 1] {
        GroupPlaces(s, h);
        hide Ok;
        GroupStays(p, s, s', j, Returned(0), h);
        PcChangedAt(p, s, s', j, Returned(0), i);
      }
    }
    forall i: nat ensures QueuedOk(p, s', i) {
      assert QueuedOk(p, s, i) && QueuedOk(p, s, j);
      hide Ok;
      if Last(s) <= i < |s.arrivals| { PcChangedAt(p, s, s', j, Returned(0), i); }
    }
  }

  ghost predicate Joined<D>(s: State<D>, s': State<D>, t: nat) {
    && t < |s.pcs| && t < |s.events|
    && s' == s.(queue := s.queue + [t], pcs := s.pcs[t := if s.queue == [] then Leading else Waiting], arrivals := s.arrivals + [t])
  }

  lemma JoinedAt<D>(p: Params<D>, s: State<D>, s': State<D>, t: nat, j: nat)
    requires Ok(p, s) && Joined(s, s', t) && s.pcs[t].Idle?
    ensures Ok(p, s') && s'.cuts == s.cuts && |s'.arrivals| == |s.arrivals| + 1
    ensures j < |s.arrivals| ==> s'.arrivals[j] == s.arrivals[j] < |s.pcs| == |s'.pcs| && s'.pcs[s.arrivals[j]] == s.pcs[s.arrivals[j]]
  {
    assert t !in s.arrivals;
  }

  lemma JoinedGroup<D>(p: Params<D>, s: State<D>, s': State<D>, t: nat, h: nat)
    requires Ok(p, s) && Ok(p, s') && Joined(s, s', t) && s.pcs[t].Idle? && IsGroup(s, h)
    ensures Members(s', h) == Members(s, h) && LeaderPc(p, s', h) == LeaderPc(p, s, h)
  {
    GroupPlaces(s, h);
    JoinedAt(p, s, s', t, s.cuts[h]);
  }

  /** A new thread joins the queue, and leads it if it is the first. */
  lemma Joins<D>(p: Params<D>, s: State<D>, s': State<D>, t: nat)
    requires Groups(p, s) && t < |p.data| && s.pcs[t].Idle? && !s.events[t] && Joined(s, s', t)
    ensures Groups(p, s')
    ensures forall h: nat :: IsGroup(s, h) ==> Members(s', h) == Members(s, h) && LeaderPc(p, s', h) == LeaderPc(p, s, h)
  {
    JoinedAt(p, s, s', t, 0);
    assert |s.queue| == |s.arrivals| - Last(s);
    hide Ok, LeaderPc, Members;
    forall h: nat ensures GroupOk(p, s', h) && (IsGroup(s, h) ==> Members(s', h) == Members(s, h) && LeaderPc(p, s', h) == LeaderPc(p, s, h)) {
      assert GroupOk(p, s, h);
      if IsGroup(s, h) { JoinedGroup(p, s, s', t, h); }
    }
    forall h: nat, j: nat ensures MemberOk(p, s', h, j) {
      assert MemberOk(p, s, h, j);
      if IsGroup(s, h) {
        GroupPlaces(s, h);
        JoinedAt(p, s, s', t, j);
        JoinedGroup(p, s, s', t, h);
      }
    }
    forall j: nat ensures QueuedOk(p, s', j) {
      assert QueuedOk(p, s, j);
      JoinedAt(p, s, s', t, j);
    }
  }

  /** The leader takes the queue: one more group, of those who were waiting. */
  lemma Takes<D>(p: Params<D>, s: State<D>, s': State<D>, t: nat)
    requires Groups(p, s) && t < |p.data| && s.pcs[t].Leading? && s.queue != []
    requires s' == s.(queue := [], pcs := s.pcs[t := Merged(Batch(|s.cuts| - 1, s.queue))], cuts := s.cuts + [|s.arrivals|])
    ensures Groups(p, s')
    ensures forall h: nat :: IsGroup(s, h) ==> Members(s', h) == Members(s, h) && LeaderPc(p, s', h) == LeaderPc(p, s, h)
    ensures Last(s) < |s.arrivals| && s.arrivals[Last(s)] == t && LeaderPc(p, s', |s.cuts| - 1).Merged?
  {
    var last := |s.cuts| - 1;
    LeadingIsFirst(p, s, t);
    assert Ok(p, s');
    assert forall h: nat :: IsGroup(s', h) <==> IsGroup(s, h) || h == last;
    assert Members(s', last) == s.queue;
    assert LeaderPc(p, s', last) == Merged(Batch(last, s.queue));
    forall h: nat | IsGroup(s, h) ensures Members(s', h) == Members(s, h) && LeaderPc(p, s', h) == LeaderPc(p, s, h) {
      GroupPlaces(s, h);
    }
    forall h: nat ensures GroupOk(p, s', h) { assert GroupOk(p, s, h); }
    forall h: nat, j: nat ensures MemberOk(p, s', h, j) {
      assert MemberOk(p, s, h, j) && QueuedOk(p, s, j);
      if IsGroup(s, h) { GroupPlaces(s, h); }
    }
    forall j: nat ensures QueuedOk(p, s', j) {}
  }

  lemma LeadingIsFirst<D>(p: Params<D>, s: State<D>, t: nat)
    requires Groups(p, s) && t < |p.data| && s.pcs[t].Leading?
    ensures Last(s) < |s.arrivals| && s.arrivals[Last(s)] == t
  {
    var j: nat :| j < |s.arrivals| && s.arrivals[j] == t;
    assert QueuedOk(p, s, j);
    if j < Last(s) {
      var g := FindGroup(s, j);
      NoneLeadsTheQueue(p, s, g, j);
    }
  }

  lemma NoneLeadsTheQueue<D>(p: Params<D>, s: State<D>, g: nat, j: nat)
    requires Groups(p, s) && IsGroup(s, g) && s.cuts[g] <= j < s.cuts[g + 1]
    ensures !s.pcs[s.arrivals[j]].Leading?
  {
    assert GroupOk(p, s, g) && MemberOk(p, s, g, j);
  }

  // ---- The steps keep the log -----------------------------------------------------------------------------------

  ghost predicate SameGroup<D>(p: Params<D>, s: State<D>, s': State<D>, h: nat)
    requires Ok(p, s) && Ok(p, s')
  {
    IsGroup(s, h) ==> IsGroup(s', h) && Members(s', h) == Members(s, h) && (Past(LeaderPc(p, s, h)) ==> Past(LeaderPc(p, s', h)))
  }

  /** Steps that commit nothing leave the log as it is. */
  lemma LogStays<D>(p: Params<D>, s: State<D>, s': State<D>)
    requires Ok(p, s) && Ok(p, s') && Log(p, s) && s'.log == s.log
    requires forall h: nat :: SameGroup(p, s, s', h)
    requires forall h: nat :: IsGroup(s', h) && Past(LeaderPc(p, s', h)) ==> IsGroup(s, h) && Past(LeaderPc(p, s, h))
    ensures Log(p, s')
  {
    hide Ok, Members, LeaderPc, Past;
    forall i: nat ensures EntryOk(p, s', i) {
      assert EntryOk(p, s, i);
      if i < |s.log| { assert SameGroup(p, s, s', s.log[i].batch.number); }
    }
    forall h: nat ensures Logged(p, s', h) {
      assert Logged(p, s, h);
      if InLog(s, h) { assert InLog(s', h); }
    }
  }

  /** A commit adds its group, which was not in the log. */
  lemma LogGrows<D>(p: Params<D>, s: State<D>, s': State<D>, g: nat, b: Batch)
    requires Ok(p, s) && Ok(p, s') && Log(p, s) && IsGroup(s, g) && b == Batch(g, Members(s, g)) && b.members != [] && Known(p, b.members)
    requires s'.log == s.log + [Commit(b, MergedData(p, b.members))] && s'.cuts == s.cuts && s'.arrivals == s.arrivals
    requires !Past(LeaderPc(p, s, g))
    requires forall h: nat :: IsGroup(s, h) ==> Past(LeaderPc(p, s', h)) == (h == g || Past(LeaderPc(p, s, h)))
    ensures Log(p, s')
  {
    hide Ok, Past, LeaderPc;
    forall i: nat ensures EntryOk(p, s', i) { assert EntryOk(p, s, i); }
    forall h: nat ensures Logged(p, s', h) {
      assert Logged(p, s, h);
      if InLog(s, h) {
        var i :| 0 <= i < |s.log| && s.log[i].batch.number == h;
        assert s'.log[i].batch.number == h;
      }
      assert s'.log[|s.log|].batch.number == g;
    }
    forall i, j | 0 <= i < j < |s'.log| ensures s'.log[i].batch.number != s'.log[j].batch.number { assert EntryOk(p, s, i); }
  }

  // ---- Conservation ---------------------------------------------------------------------------------------------

  function Holds(pc: Pc): int { if pc.Committing? || pc.Committed? then 1 else 0 }

  /** The submissions a leader answers for, and in the end the number that `commit` returns. */
  function Share(pc: Pc): int {
    match pc
    case Merged(b) => |b.members|
    case Committing(b) => |b.members|
    case Committed(b) => |b.members|
    case Waking(b, _) => |b.members|
    case Returned(commits) => commits
    case _ => 0
  }

  function Came(pc: Pc): int { if pc.Idle? then 0 else 1 }

  ghost predicate Counts<D>(p: Params<D>, s: State<D>) {
    && s.permits + Sum(s.pcs, Holds) == p.maxCommits
    && Sum(s.pcs, Share) + |s.queue| == |s.arrivals|
    && Sum(s.pcs, Came) == |s.arrivals|
  }

  lemma StepKeepsCounts<D>(p: Params<D>, s: State<D>, t: nat)
    requires Shape(p, s) && t < |p.data| && Enabled(p, s, t) && Counts(p, s)
    ensures Counts(p, Step(p, s, t))
  {
    var pc := Step(p, s, t).pcs[t];
    assert Step(p, s, t).pcs == s.pcs[t := pc];
    SumUpdate(s.pcs, t, pc, Holds);
    SumUpdate(s.pcs, t, pc, Share);
    SumUpdate(s.pcs, t, pc, Came);
  }

  // ---- The invariant --------------------------------------------------------------------------------------------

  ghost predicate NotWokenEarly<D>(s: State<D>) {
    |s.events| == |s.pcs| && forall t :: 0 <= t < |s.pcs| && s.pcs[t].Idle? ==> !s.events[t]
  }

  ghost predicate Inv<D>(p: Params<D>, s: State<D>) { Groups(p, s) && Log(p, s) && NotWokenEarly(s) && Counts(p, s) }

  lemma InvShape<D>(p: Params<D>, s: State<D>)
    requires Groups(p, s)
    ensures Shape(p, s)
  {
    forall t: nat | t < |s.pcs| ensures PcKnown(p, s.pcs[t]) {
      if s.pcs[t].Merged? || s.pcs[t].Committing? || s.pcs[t].Committed? || s.pcs[t].Waking? {
        var g := LeaderOf(p, s, t);
        GroupPlaces(s, g);
      }
    }
  }

  /** A step of a leader sets the events that its new place stands for. */
  lemma EventsOfStep<D>(p: Params<D>, s: State<D>, t: nat, g: nat)
    requires Groups(p, s) && Shape(p, s) && t < |p.data| && Enabled(p, s, t) && IsGroup(s, g) && s.arrivals[s.cuts[g]] == t
    requires Leads(s.pcs[t], Batch(g, Members(s, g)))
    ensures var s', start := Step(p, s, t), s.cuts[g];
      && PcChanged(s, s', start, s'.pcs[t])
      && (forall k: nat :: 0 < k < |Members(s, g)| ==> s'.events[s.arrivals[start + k]] == Woke(s'.pcs[t], k))
      && (forall k: nat :: k < |s.arrivals| && !(start < k < s.cuts[g + 1]) ==> s'.events[s.arrivals[k]] == s.events[s.arrivals[k]])
  {
    GroupPlaces(s, g);
    var pc, s' := s.pcs[t], Step(p, s, t);
    var more := pc.Waking? && pc.next < |Members(s, g)|;
    var j := if more then s.cuts[g] + pc.next else s.cuts[g];
    assert s'.events == if more then s.events[s.arrivals[j] := true] else s.events;
    forall k: nat | 0 < k < |Members(s, g)| ensures s'.events[s.arrivals[s.cuts[g] + k]] == Woke(s'.pcs[t], k) {
      var i := s.cuts[g] + k;
      assert s.arrivals[i] == s.arrivals[j] ==> i == j;
      assert MemberOk(p, s, g, i);
    }
    forall k: nat | k < |s.arrivals| && !(s.cuts[g] < k < s.cuts[g + 1]) ensures s'.events[s.arrivals[k]] == s.events[s.arrivals[k]] {
      assert s.arrivals[k] == s.arrivals[j] ==> k == j;
    }
  }

  /** A step of a leader, apart from what it does to the log. */
  lemma LeaderSteps<D>(p: Params<D>, s: State<D>, t: nat) returns (g: nat)
    requires Groups(p, s) && Shape(p, s) && t < |p.data| && Enabled(p, s, t)
    requires !s.pcs[t].Idle? && !s.pcs[t].Waiting? && !s.pcs[t].Leading?
    ensures var s' := Step(p, s, t);
      && Groups(p, s') && IsGroup(s, g) && LeaderPc(p, s, g) == s.pcs[t] && s'.cuts == s.cuts && s'.arrivals == s.arrivals
      && (forall h: nat :: IsGroup(s, h) ==> LeaderPc(p, s', h) == if h == g then s'.pcs[t] else LeaderPc(p, s, h))
      && Leads(s.pcs[t], Batch(g, Members(s, g)))
  {
    g := LeaderOf(p, s, t);
    GroupPlaces(s, g);
    var s' := Step(p, s, t);
    EventsOfStep(p, s, t, g);
    LeadsOn(p, s, t, Batch(g, Members(s, g)));
    hide Step, Ok, GroupOk, MemberOk, QueuedOk, Members, Woke, Leads;
    LeaderMoves(p, s, s', g, s'.pcs[t]);
  }

  lemma LeadsOn<D>(p: Params<D>, s: State<D>, t: nat, b: Batch)
    requires Shape(p, s) && t < |p.data| && Enabled(p, s, t) && Leads(s.pcs[t], b)
    ensures Leads(Step(p, s, t).pcs[t], b)
    ensures forall k: nat :: Woke(s.pcs[t], k) ==> Woke(Step(p, s, t).pcs[t], k)
  {}

  lemma EarlyStays<D>(p: Params<D>, s: State<D>, t: nat)
    requires Groups(p, s) && NotWokenEarly(s) && Shape(p, s) && t < |p.data| && Enabled(p, s, t)
    ensures NotWokenEarly(Step(p, s, t))
  {
    var pc := s.pcs[t];
    if pc.Waking? && pc.next < |pc.batch.members| {
      var g := LeaderOf(p, s, t);
      assert pc.batch.members[pc.next] in s.arrivals;
    }
  }

  /** The steps that leave the log alone keep it right. */
  lemma QuietStep<D>(p: Params<D>, s: State<D>, t: nat)
    requires Groups(p, s) && Log(p, s) && NotWokenEarly(s) && Shape(p, s) && t < |p.data| && Enabled(p, s, t) && !s.pcs[t].Committing?
    ensures Groups(p, Step(p, s, t)) && Log(p, Step(p, s, t))
  {
    var s' := Step(p, s, t);
    if s.pcs[t].Idle? {
      Joins(p, s, s', t);
      hide Ok, LeaderPc, Members, GroupOk, MemberOk, QueuedOk, Log;
      LogStays(p, s, s');
    } else if s.pcs[t].Leading? {
      TakeStep(p, s, t);
    } else if s.pcs[t].Waiting? {
      FollowerReturns(p, s, s', t);
      hide Ok, LeaderPc, Members, GroupOk, MemberOk, QueuedOk, Log;
      SameMembers(s, s');
      LogStays(p, s, s');
    } else {
      var g := LeaderSteps(p, s, t);
      hide Ok, LeaderPc, Members, GroupOk, MemberOk, QueuedOk, Log;
      SameMembers(s, s');
      LogStays(p, s, s');
    }
  }

  lemma SameMembers<D>(s: State<D>, s': State<D>)
    requires Cuts(s) && Cuts(s') && s'.arrivals == s.arrivals && s'.cuts == s.cuts
    ensures forall h: nat :: IsGroup(s, h) ==> IsGroup(s', h) && Members(s', h) == Members(s, h)
    ensures forall h: nat :: IsGroup(s', h) ==> IsGroup(s, h)
  {}

  lemma TakeStep<D>(p: Params<D>, s: State<D>, t: nat)
    requires Groups(p, s) && Log(p, s) && Shape(p, s) && t < |p.data| && Enabled(p, s, t) && s.pcs[t].Leading?
    ensures Groups(p, Step(p, s, t)) && Log(p, Step(p, s, t))
  {
    var s' := Step(p, s, t);
    Takes(p, s, s', t);
    hide Ok, LeaderPc, Members, GroupOk, MemberOk, QueuedOk, Log;
    forall h: nat | IsGroup(s', h) && Past(LeaderPc(p, s', h)) ensures IsGroup(s, h) && Past(LeaderPc(p, s, h)) {
      assert h != |s.cuts| - 1;
    }
    LogStays(p, s, s');
  }

  lemma CommitStep<D>(p: Params<D>, s: State<D>, t: nat)
    requires Groups(p, s) && Log(p, s) && Shape(p, s) && t < |p.data| && Enabled(p, s, t) && s.pcs[t].Committing?
    ensures Groups(p, Step(p, s, t)) && Log(p, Step(p, s, t))
  {
    var s' := Step(p, s, t);
    var g := LeaderSteps(p, s, t);
    hide Ok, LeaderPc, GroupOk, MemberOk, QueuedOk, Log;
    LogGrows(p, s, s', g, s.pcs[t].batch);
  }

  lemma StepKeepsInv<D>(p: Params<D>, s: State<D>, t: nat)
    requires Inv(p, s) && Shape(p, s) && t < |p.data| && Enabled(p, s, t)
    ensures Inv(p, Step(p, s, t))
  {
    StepKeepsCounts(p, s, t);
    EarlyStays(p, s, t);
    hide Counts, NotWokenEarly, Groups, Log;
    if s.pcs[t].Committing? { CommitStep(p, s, t); } else { QuietStep(p, s, t); }
  }

  // ---- Whole runs -----------------------------------------------------------------------------------------------

  lemma {:induction false} SameTerms<X>(n: nat, x: X, f: X -> int)
    ensures Sum(seq(n, _ => x), f) == n * f(x)
  {
    if n != 0 {
      assert seq(n, _ => x)[1..] == seq(n - 1, _ => x);
      SameTerms(n - 1, x, f);
      assert n * f(x) == (n - 1) * f(x) + f(x);
    }
  }

  lemma InitialInv<D>(p: Params<D>)
    ensures Inv(p, Initial(p))
  {
    var s := Initial(p);
    SameTerms(|p.data|, Idle, Holds);
    SameTerms(|p.data|, Idle, Share);
    SameTerms(|p.data|, Idle, Came);
    assert Ok(p, s);
    assert forall g: nat :: !IsGroup(s, g);
  }

  lemma {:induction false} EveryState<D>(p: Params<D>, run: seq<State<D>>, i: nat)
    requires Execution(p, run) && i < |run|
    ensures Inv(p, run[i]) && Shape(p, run[i])
  {
    if i == 0 {
      InitialInv(p);
    } else {
      EveryState(p, run, i - 1);
      hide Inv;
      assert Next(p, run[i - 1], run[i - 1 + 1]);
      var t: nat :| t < |p.data| && Enabled(p, run[i - 1], t) && run[i] == Step(p, run[i - 1], t);
      StepKeepsInv(p, run[i - 1], t);
    }
    assert Groups(p, run[i]);
    InvShape(p, run[i]);
  }

  ghost predicate InEntry<D>(s: State<D>, i: nat, t: nat) { i < |s.log| && t in s.log[i].batch.members }

  /** No datum is committed twice. */
  lemma CommittedOnce<D>(p: Params<D>, s: State<D>)
    requires Inv(p, s)
    ensures forall i: nat :: i < |s.log| ==> Distinct(s.log[i].batch.members)
    ensures forall i: nat, j: nat, t: nat :: InEntry(s, i, t) && InEntry(s, j, t) ==> i == j
  {
    forall i: nat | i < |s.log| ensures Distinct(s.log[i].batch.members) {
      assert EntryOk(p, s, i);
      GroupPlaces(s, s.log[i].batch.number);
    }
    forall i: nat, j: nat, t: nat | InEntry(s, i, t) && InEntry(s, j, t) ensures i == j { SameEntry(p, s, i, j, t); }
  }

  lemma SameEntry<D>(p: Params<D>, s: State<D>, i: nat, j: nat, t: nat)
    requires Groups(p, s) && Log(p, s) && InEntry(s, i, t) && InEntry(s, j, t)
    ensures i == j
  {
    assert EntryOk(p, s, i) && EntryOk(p, s, j);
    var g, h := s.log[i].batch.number, s.log[j].batch.number;
    GroupPlaces(s, g);
    GroupPlaces(s, h);
    var k :| 0 <= k < |Members(s, g)| && Members(s, g)[k] == t;
    var l :| 0 <= l < |Members(s, h)| && Members(s, h)[l] == t;
    assert s.cuts[g] + k == s.cuts[h] + l;
    OnlyOneGroup(s, g, h, s.cuts[g] + k);
  }

  /** The group of a thread that came back is in the log; its leader returns its size, every other member 0. */
  lemma ReturnedIsCommitted<D>(p: Params<D>, s: State<D>, t: nat) returns (i: nat)
    requires Inv(p, s) && t < |p.data| && s.pcs[t].Returned?
    ensures InEntry(s, i, t)
    ensures s.pcs[t].commits == if s.log[i].batch.members[0] == t then |s.log[i].batch.members| else 0
  {
    var j: nat :| j < |s.arrivals| && s.arrivals[j] == t;
    assert QueuedOk(p, s, j);
    var g := FindGroup(s, j);
    GroupPlaces(s, g);
    assert GroupOk(p, s, g) && MemberOk(p, s, g, j) && Logged(p, s, g);
    assert Members(s, g)[j - s.cuts[g]] == t;
    i :| i < |s.log| && s.log[i].batch.number == g;
    assert EntryOk(p, s, i);
    assert Members(s, g)[0] == s.arrivals[s.cuts[g]];
  }

  /** At most `maxCommits` threads are between taking and giving back the semaphore. */
  lemma FewCommitAtOnce<D>(p: Params<D>, s: State<D>)
    requires Inv(p, s)
    ensures Sum(s.pcs, Holds) <= p.maxCommits
  {}

  lemma HolderCanGoOn<D>(p: Params<D>, s: State<D>) returns (t: nat)
    requires Inv(p, s) && Shape(p, s) && s.permits == 0 && 0 < p.maxCommits
    ensures t < |p.data| && Enabled(p, s, t)
  {
    t := PositiveTerm(s.pcs, Holds);
  }

  /** A waiting thread that is not woken yet has a leader, of its own group or of the queue it is in, that has not returned
      and can go on unless it waits for the semaphore. */
  lemma WaiterIsServed<D>(p: Params<D>, s: State<D>, t: nat) returns (u: nat)
    requires Inv(p, s) && Shape(p, s) && t < |p.data| && s.pcs[t].Waiting? && !s.events[t]
    ensures (exists g: nat :: IsGroup(s, g) && t in Members(s, g) && u == Members(s, g)[0]) || (t in s.queue && u == s.queue[0])
    ensures u < |p.data| && !s.pcs[u].Returned? && !s.pcs[u].Waiting? && !s.pcs[u].Idle?
    ensures Enabled(p, s, u) || s.pcs[u].Merged?
  {
    var j := WaiterOf(p, s, t);
    if Last(s) <= j {
      u := s.arrivals[Last(s)];
      assert QueuedOk(p, s, Last(s));
      assert s.queue[j - Last(s)] == t;
    } else {
      var g := FindGroup(s, j);
      GroupPlaces(s, g);
      u := s.arrivals[s.cuts[g]];
      assert GroupOk(p, s, g) && MemberOk(p, s, g, j);
      assert Members(s, g)[j - s.cuts[g]] == t && Members(s, g)[0] == u;
    }
  }

  /** As long as not all have returned, some thread can go on. */
  lemma NoDeadlock<D>(p: Params<D>, s: State<D>, t: nat) returns (u: nat)
    requires Inv(p, s) && Shape(p, s) && 0 < p.maxCommits && t < |p.data| && !s.pcs[t].Returned?
    ensures u < |p.data| && Enabled(p, s, u)
  {
    u := t;
    if s.pcs[t].Waiting? && !s.events[t] { u := WaiterIsServed(p, s, t); }
    if s.pcs[u].Leading? { LeadingIsFirst(p, s, u); }
    if s.pcs[u].Merged? && s.permits == 0 { u := HolderCanGoOn(p, s); }
  }

  ghost predicate AllReturned<D>(s: State<D>) { forall t :: 0 <= t < |s.pcs| ==> s.pcs[t].Returned? }

  lemma QueueIsEmpty<D>(p: Params<D>, s: State<D>)
    requires Inv(p, s) && AllReturned(s)
    ensures s.queue == []
  {
    assert QueuedOk(p, s, Last(s));
  }

  function Returns(pc: Pc): int { if pc.Returned? then pc.commits else 0 }

  ghost predicate IsCommitted<D>(s: State<D>, t: nat) { exists i: nat :: InEntry(s, i, t) }

  /** In the end the results add up to the number of submissions, and each of these is in one group. */
  lemma AllCommitted<D>(p: Params<D>, s: State<D>)
    requires Inv(p, s) && AllReturned(s)
    ensures Sum(s.pcs, Returns) == |p.data|
    ensures forall t: nat :: t < |p.data| ==> IsCommitted(s, t)
  {
    QueueIsEmpty(p, s);
    ResultsAddUp(p, s);
    hide Inv;
    forall t: nat | t < |p.data| ensures IsCommitted(s, t) { var i := ReturnedIsCommitted(p, s, t); }
  }

  lemma ResultsAddUp<D>(p: Params<D>, s: State<D>)
    requires Counts(p, s) && Shape(p, s) && AllReturned(s) && s.queue == []
    ensures Sum(s.pcs, Returns) == |p.data|
  {
    SumEqual(s.pcs, Returns, Share);
    SumEqual(s.pcs, Came, _ => 1);
    Ones(s.pcs);
  }

  lemma {:induction false} Ones<X>(s: seq<X>)
    ensures Sum(s, _ => 1) == |s|
  {
    if s != [] { Ones(s[1..]); }
  }

  /** The entry is a stretch of what arrived, merged in this order. */
  ghost predicate MergedInOrder<D>(p: Params<D>, s: State<D>, e: nat)
    requires e < |s.log|
  {
    var c := s.log[e];
    && (exists a, b :: 0 <= a < b <= |s.arrivals| && c.batch.members == s.arrivals[a..b])
    && c.batch.members != [] && Known(p, c.batch.members) && c.merged == MergedData(p, c.batch.members)
  }

  /** `t` got its result from the group in entry `e`. */
  ghost predicate ReturnOk<D>(s: State<D>, e: nat, t: nat)
    requires t < |s.pcs| && s.pcs[t].Returned?
  {
    InEntry(s, e, t) &&
    s.pcs[t].commits == if s.log[e].batch.members[0] == t then |s.log[e].batch.members| else 0
  }

  ghost predicate ReturnsResult<D>(s: State<D>, t: nat)
    requires t < |s.pcs| && s.pcs[t].Returned?
  {
    exists e: nat :: ReturnOk(s, e, t)
  }

  /** Every run keeps the promises. */
  lemma GroupCommitCorrect<D>(p: Params<D>, run: seq<State<D>>, i: nat)
    requires Execution(p, run) && i < |run|
    ensures var s := run[i];
      && Shape(p, s) && Sum(s.pcs, Holds) <= p.maxCommits
      && Distinct(s.arrivals) && (forall e: nat :: e < |s.log| ==> MergedInOrder(p, s, e))
      && (forall e: nat, f: nat, t: nat :: InEntry(s, e, t) && InEntry(s, f, t) ==> e == f)
      && (forall t: nat :: t < |p.data| && s.pcs[t].Returned? ==> ReturnsResult(s, t))
      && (AllReturned(s) ==> Sum(s.pcs, Returns) == |p.data|)
      && (0 < p.maxCommits && !AllReturned(s) ==> exists t: nat :: t < |p.data| && Enabled(p, s, t))
  {
    var s := run[i];
    EveryState(p, run, i);
    CommittedOnce(p, s);
    forall e: nat | e < |s.log| ensures MergedInOrder(p, s, e) {
      assert EntryOk(p, s, e);
      GroupPlaces(s, s.log[e].batch.number);
    }
    hide Groups, Log;
    forall t: nat | t < |p.data| && s.pcs[t].Returned? ensures ReturnsResult(s, t) {
      var e := ReturnedIsCommitted(p, s, t);
      assert ReturnOk(s, e, t);
    }
    if AllReturned(s) {
      AllCommitted(p, s);
    } else if 0 < p.maxCommits {
      var t: nat :| t < |s.pcs| && !s.pcs[t].Returned?;
      var u := NoDeadlock(p, s, t);
    }
  }

  // ---- Every run ends -------------------------------------------------------------------------------------------

  /** How many steps a thread has made. */
  function Steps(pc: Pc): int {
    match pc
    case Idle => 0
    case Waiting => 1
    case Leading => 1
    case Merged(_) => 2
    case Committing(_) => 3
    case Committed(_) => 4
    case Waking(_, next) => 4 + next
    case Returned(commits) => if commits == 0 then 2 else 5 + commits
  }

  lemma StepCounts<D>(p: Params<D>, s: State<D>, t: nat)
    requires Inv(p, s) && Shape(p, s) && t < |p.data| && Enabled(p, s, t)
    ensures Sum(Step(p, s, t).pcs, Steps) == Sum(s.pcs, Steps) + 1
  {
    var s' := Step(p, s, t);
    assert s'.pcs == s.pcs[t := s'.pcs[t]];
    SumUpdate(s.pcs, t, s'.pcs[t], Steps);
  }

  lemma {:induction false} RunCounts<D>(p: Params<D>, run: seq<State<D>>, i: nat)
    requires Execution(p, run) && i < |run|
    ensures Sum(run[i].pcs, Steps) == i
  {
    if i == 0 {
      SameTerms(|p.data|, Idle, Steps);
    } else {
      RunCounts(p, run, i - 1);
      EveryState(p, run, i - 1);
      assert Next(p, run[i - 1], run[i - 1 + 1]);
      hide Inv;
      var t: nat :| t < |p.data| && Enabled(p, run[i - 1], t) && run[i] == Step(p, run[i - 1], t);
      StepCounts(p, run[i - 1], t);
    }
  }

  lemma FewArrive<D>(p: Params<D>, s: State<D>)
    requires Ok(p, s)
    ensures |s.arrivals| <= |p.data|
  {
    DistinctSize(s.arrivals);
    SubsetSize(ElementsOf(s.arrivals), UpTo(|p.data|));
  }

  lemma FewSteps<D>(p: Params<D>, s: State<D>, t: nat)
    requires Groups(p, s) && t < |p.data|
    ensures Steps(s.pcs[t]) <= |p.data| + 5
  {
    FewArrive(p, s);
    var pc := s.pcs[t];
    if !pc.Idle? && !pc.Waiting? && !pc.Leading? && pc != Returned(0) {
      var g := LeaderOf(p, s, t);
      GroupPlaces(s, g);
    }
  }

  /** No run goes on for ever, and one that cannot go on has all its threads returned. */
  lemma GroupCommitEnds<D>(p: Params<D>, run: seq<State<D>>)
    requires Execution(p, run)
    ensures |run| <= |p.data| * (|p.data| + 5) + 1
    ensures var s := run[|run| - 1];
      Shape(p, s) && (0 < p.maxCommits && (forall t: nat :: t < |p.data| ==> !Enabled(p, s, t)) ==> AllReturned(s))
  {
    var s := run[|run| - 1];
    EveryState(p, run, |run| - 1);
    RunCounts(p, run, |run| - 1);
    forall pc | pc in s.pcs ensures Steps(pc) <= |p.data| + 5 {
      var t: nat :| t < |s.pcs| && s.pcs[t] == pc;
      FewSteps(p, s, t);
    }
    AtMostEach(s.pcs, Steps, |p.data| + 5);
    if 0 < p.maxCommits && !AllReturned(s) {
      var t: nat :| t < |s.pcs| && !s.pcs[t].Returned?;
      var u := NoDeadlock(p, s, t);
    }
  }

  // ---- Adding numbers -------------------------------------------------------------------------------------------

  ghost predicate Adds(p: Params<int>) { forall a, b :: p.merge(a, b) == a + b }

  function DataOf(p: Params<int>): nat -> int { (t: nat) => if t < |p.data| then p.data[t] else 0 }

  function Pending(p: Params<int>): Pc -> int {
    (pc: Pc) => if pc.Merged? || pc.Committing? then Sum(pc.batch.members, DataOf(p)) else 0
  }

  function Value(c: Commit<int>): int { c.merged }

  /** What is committed, taken and queued is what arrived. */
  ghost predicate Conserved(p: Params<int>, s: State<int>) {
    Sum(s.log, Value) + Sum(s.pcs, Pending(p)) + Sum(s.queue, DataOf(p)) == Sum(s.arrivals, DataOf(p))
  }

  lemma OneTerm<X>(x: X, f: X -> int)
    ensures Sum([x], f) == f(x)
  {
    assert [x][1..] == [];
  }

  lemma {:induction false} MergedIsSum(p: Params<int>, members: seq<nat>)
    requires Adds(p) && members != [] && Known(p, members)
    ensures MergedData(p, members) == Sum(members, DataOf(p))
  {
    var n := |members| - 1;
    assert members == members[..n] + [members[n]];
    OneTerm(members[n], DataOf(p));
    SumConcat(members[..n], [members[n]], DataOf(p));
    if 0 < n { MergedIsSum(p, members[..n]); }
  }

  lemma StepConserves(p: Params<int>, s: State<int>, t: nat)
    requires Adds(p) && Shape(p, s) && t < |p.data| && Enabled(p, s, t) && Conserved(p, s)
    ensures Conserved(p, Step(p, s, t))
  {
    var s' := Step(p, s, t);
    assert s'.pcs == s.pcs[t := s'.pcs[t]];
    SumUpdate(s.pcs, t, s'.pcs[t], Pending(p));
    match s.pcs[t]
    case Idle =>
      OneTerm(t, DataOf(p));
      SumConcat(s.queue, [t], DataOf(p));
      SumConcat(s.arrivals, [t], DataOf(p));
    case Committing(b) =>
      MergedIsSum(p, b.members);
      OneTerm(s'.log[|s.log|], Value);
      SumConcat(s.log, [s'.log[|s.log|]], Value);
    case _ =>
  }

  lemma {:induction false} AlwaysConserved(p: Params<int>, run: seq<State<int>>, i: nat)
    requires Adds(p) && Execution(p, run) && i < |run|
    ensures Conserved(p, run[i])
  {
    if i == 0 {
      SameTerms(|p.data|, Idle, Pending(p));
    } else {
      AlwaysConserved(p, run, i - 1);
      assert Next(p, run[i - 1], run[i - 1 + 1]);
      var t: nat :| t < |p.data| && Enabled(p, run[i - 1], t) && run[i] == Step(p, run[i - 1], t);
      StepConserves(p, run[i - 1], t);
    }
  }

  function Numbers(n: nat): (ns: seq<nat>)
    ensures |ns| == n && forall i :: 0 <= i < n ==> ns[i] == i
  {
    if n == 0 then [] else Numbers(n - 1) + [n - 1]
  }

  function Itself(x: int): int { x }

  lemma {:induction false} NumberedSum(p: Params<int>, n: nat)
    requires n <= |p.data|
    ensures Sum(Numbers(n), DataOf(p)) == Sum(p.data[..n], Itself)
  {
    if n != 0 {
      NumberedSum(p, n - 1);
      SumConcat<nat>(Numbers(n - 1), [n - 1], DataOf(p));
      OneTerm<nat>(n - 1, DataOf(p));
      SumConcat(p.data[..n - 1], [p.data[n - 1]], Itself);
      OneTerm(p.data[n - 1], Itself);
      assert p.data[..n] == p.data[..n - 1] + [p.data[n - 1]];
    }
  }

  lemma {:induction false} DistinctIsSet(xs: seq<nat>, x: nat)
    requires Distinct(xs)
    ensures multiset(xs)[x] == if x in xs then 1 else 0
  {
    if xs != [] {
      DistinctIsSet(xs[1..], x);
      assert xs == [xs[0]] + xs[1..];
    }
  }

  /** Distinct numbers that are all numbers below n are these in some order. */
  lemma AllNumbers(xs: seq<nat>, n: nat)
    requires Distinct(xs) && forall x: nat :: x in xs <==> x < n
    ensures multiset(xs) == multiset(Numbers(n))
  {
    forall x: nat ensures multiset(xs)[x] == multiset(Numbers(n))[x] {
      DistinctIsSet(xs, x);
      DistinctIsSet(Numbers(n), x);
      assert x < n ==> Numbers(n)[x] == x;
    }
  }

  /** When all have returned, the commits add up to what was submitted. */
  lemma CommitsAddUp(p: Params<int>, run: seq<State<int>>, i: nat)
    requires Adds(p) && Execution(p, run) && i < |run| && AllReturned(run[i])
    ensures Sum(run[i].log, Value) == Sum(p.data, Itself)
  {
    var s, n := run[i], |p.data|;
    EveryState(p, run, i);
    AlwaysConserved(p, run, i);
    QueueIsEmpty(p, s);
    SumEqual(s.pcs, Pending(p), _ => 0);
    SumZero(s.pcs);
    AllNumbers(s.arrivals, n);
    SumPermutation(s.arrivals, Numbers(n), DataOf(p));
    NumberedSum(p, n);
    assert p.data[..n] == p.data;
  }

  // ---- The order of merging ---------------------------------------------------------------------------------------

  /** Thread t submits [t], and data are merged by concatenation. */
  ghost predicate WritesDown(p: Params<seq<nat>>) {
    && (forall t :: 0 <= t < |p.data| ==> p.data[t] == [t])
    && forall a, b :: p.merge(a, b) == a + b
  }

  /** Merging then writes the members down in queue order. */
  lemma {:induction false} MergesInQueueOrder(p: Params<seq<nat>>, members: seq<nat>)
    requires members != [] && Known(p, members) && WritesDown(p)
    ensures MergedData(p, members) == members
  {
    var n := |members| - 1;
    assert members == members[..n] + [members[n]];
    if n != 0 { MergesInQueueOrder(p, members[..n]); }
  }

  /** With subtraction, where brackets matter, all others are taken from the first. */
  lemma {:induction false} MergesFromTheLeft(p: Params<int>, members: seq<nat>)
    requires members != [] && Known(p, members) && forall a, b :: p.merge(a, b) == a - b
    ensures MergedData(p, members) == p.data[members[0]] - Sum(members[1..], DataOf(p))
  {
    var n := |members| - 1;
    if n != 0 {
      MergesFromTheLeft(p, members[..n]);
      assert members[1..] == members[..n][1..] + [members[n]];
      SumConcat(members[..n][1..], [members[n]], DataOf(p));
      OneTerm(members[n], DataOf(p));
    }
  }

  /** The queue is in the order in which the threads joined it, in every run. */
  lemma {:induction false} JoinedInOrder<D>(p: Params<D>, run: seq<State<D>>, i: nat, j: nat)
    requires Execution(p, run) && i <= j < |run|
    ensures run[i].arrivals <= run[j].arrivals
    ensures |run[i].pcs| == |p.data| && forall t: nat :: t < |p.data| ==> (t in run[i].arrivals <==> !run[i].pcs[t].Idle?)
    decreases j - i
  {
    EveryState(p, run, i);
    if i < j {
      JoinedInOrder(p, run, i + 1, j);
      assert Next(p, run[i], run[i + 1]);
    }
    JoinedIsNotIdle(p, run[i]);
  }

  lemma JoinedIsNotIdle<D>(p: Params<D>, s: State<D>)
    requires Inv(p, s) && Shape(p, s)
    ensures forall t: nat :: t < |p.data| ==> (t in s.arrivals <==> !s.pcs[t].Idle?)
  {}

  /** Every commit of every run: a stretch of those who joined, written down in that order. */
  lemma CommitsInQueueOrder(p: Params<seq<nat>>, run: seq<State<seq<nat>>>, i: nat, e: nat)
    requires WritesDown(p) && Execution(p, run) && i < |run| && e < |run[i].log|
    ensures run[i].log[e].merged == run[i].log[e].batch.members
    ensures exists a, b :: 0 <= a < b <= |run[i].arrivals| && run[i].log[e].merged == run[i].arrivals[a..b]
  {
    GroupCommitCorrect(p, run, i);
    assert MergedInOrder(p, run[i], e);
    MergesInQueueOrder(p, run[i].log[e].batch.members);
  }

  // ---- Runs that end ----------------------------------------------------------------------------------------------

  /** Every run can be continued until all have returned. */
  lemma RunsToTheEnd<D>(p: Params<D>, run: seq<State<D>>) returns (full: seq<State<D>>)
    requires Execution(p, run) && 0 < p.maxCommits
    ensures Execution(p, full) && run <= full
    ensures var s := full[|full| - 1]; |s.pcs| == |p.data| && AllReturned(s)
    decreases |p.data| * (|p.data| + 5) + 1 - |run|
  {
    GroupCommitEnds(p, run);
    var s := run[|run| - 1];
    full := run;
    if t: nat :| t < |p.data| && Enabled(p, s, t) {
      var more := run + [Step(p, s, t)];
      hide Step, Enabled;
      forall i | 0 <= i < |more| - 1 ensures Next(p, more[i], more[i + 1]) {
        if i < |run| - 1 { assert Next(p, run[i], run[i + 1]); }
      }
      GroupCommitEnds(p, more);
      full := RunsToTheEnd(p, more);
    }
  }

  lemma SomeRunEnds<D>(p: Params<D>) returns (full: seq<State<D>>)
    requires 0 < p.maxCommits
    ensures Execution(p, full) && full[0] == Initial(p)
    ensures var s := full[|full| - 1]; |s.pcs| == |p.data| && AllReturned(s)
  {
    full := RunsToTheEnd(p, [Initial(p)]);
  }
}
