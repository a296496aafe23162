/**
  cpp/reduce.cc, ringAllReduceThreadRun: `n` threads in a ring add up `n` vectors of `n` chunks.  Each thread runs
  2(n-1) rounds of send, receive and fence; the first n-1 rounds scatter and add, the others share the sums.

  The threads, the per-destination FIFO queues of cpp/message_queue.h and the fence's counters form one state, and
  a step is one lock-protected section of one thread.  The results hold for every interleaving.
*/
module RingAllReduce {
  import opened Arithmetic
  import opened FiniteSets
  import opened Sums

  datatype Message = Message(v: int, from: nat)

  datatype Pc = Sending | Receiving | Entering | Waiting

  /** `round` counts the rounds of both phases: r in the first, n - 1 + r in the second. */
  datatype Thread = Thread(round: nat, pc: Pc)

  datatype State = State(threads: seq<Thread>, values: seq<seq<int>>, queues: seq<seq<Message>>, round2count: map<nat, nat>)

  function ChunkToSend(n: nat, t: nat, round: nat): nat
    requires 0 < n && t < n && round < 2 * (n - 1)
  {
    if round < n - 1 then (t + n - round) % n else (t + 1 + n - (round - (n - 1))) % n
  }

  function ChunkToRecv(n: nat, t: nat, round: nat): nat
    requires 0 < n && t < n && round < 2 * (n - 1)
  {
    (ChunkToSend(n, t, round) + n - 1) % n
  }

  /** The key of the round's counter in the fence. */
  function FenceKey(n: nat, round: nat): nat
    requires 0 < n
  {
    if round < n - 1 then round else round - (n - 1) + n
  }

  function Count(m: map<nat, nat>, key: nat): nat { if key in m then m[key] else 0 }

  predicate WellFormed(n: nat, s: State) {
    && 0 < n == |s.threads| == |s.values| == |s.queues|
    && forall t :: 0 <= t < n ==> |s.values[t]| == n
  }

  /** Whether thread `t` can take its next step without blocking. */
  predicate Enabled(n: nat, s: State, t: nat)
    requires WellFormed(n, s) && t < n
  {
    var th := s.threads[t];
    && th.round < 2 * (n - 1)
    && match th.pc
       case Sending => true
       case Receiving => s.queues[t] != []
       case Entering => true
       case Waiting => Count(s.round2count, FenceKey(n, th.round)) == n
  }

  function Step(n: nat, s: State, t: nat): State
    requires WellFormed(n, s) && t < n && Enabled(n, s, t)
  {
    var th := s.threads[t];
    match th.pc
    case Sending =>
      var c := ChunkToSend(n, t, th.round);
      var next := (t + 1) % n;
      s.(threads := s.threads[t := th.(pc := Receiving)],
         queues := s.queues[next := s.queues[next] + [Message(s.values[t][c], c)]])
    case Receiving =>
      var c := ChunkToRecv(n, t, th.round);
      var msg := s.queues[t][0];
      var v := if th.round < n - 1 then s.values[t][c] + msg.v else msg.v;
      s.(threads := s.threads[t := th.(pc := Entering)],
         values := s.values[t := s.values[t][c := v]],
         queues := s.queues[t := s.queues[t][1..]])
    case Entering =>
      var key := FenceKey(n, th.round);
      s.(threads := s.threads[t := th.(pc := Waiting)],
         round2count := s.round2count[key := Count(s.round2count, key) + 1])
    case Waiting =>
      s.(threads := s.threads[t := Thread(th.round + 1, Sending)])
  }

  function Initial(n: nat, init: seq<seq<int>>): State {
    State(seq(n, _ => Thread(0, Sending)), init, seq(n, _ => []), map[])
  }

  predicate Input(n: nat, init: seq<seq<int>>) {
    0 < n == |init| && forall t :: 0 <= t < n ==> |init[t]| == n
  }

  ghost predicate Next(n: nat, s: State, s': State) {
    WellFormed(n, s) && exists t: nat :: t < n && Enabled(n, s, t) && s' == Step(n, s, t)
  }

  ghost predicate Execution(n: nat, init: seq<seq<int>>, run: seq<State>) {
    && Input(n, init) && run != [] && run[0] == Initial(n, init)
    && forall i :: 0 <= i < |run| - 1 ==> Next(n, run[i], run[i + 1])
  }

  // ----- what the values and the messages are -----

  /** The ring distance from thread `c`, where chunk `c` starts, to thread `t`. */
  function Distance(n: nat, c: nat, t: nat): nat
    requires t < n && c < n
  {
    if c <= t then t - c else t + n - c
  }

  function Wrap(n: nat, x: nat): nat
    requires x < 2 * n
  {
    if x < n then x else x - n
  }

  /** Chunk `c` added up over threads c, c+1, ..., c+d around the ring. */
  function Partial(n: nat, init: seq<seq<int>>, c: nat, d: nat): int
    requires Input(n, init) && c < n && d < n
  {
    (if d == 0 then 0 else Partial(n, init, c, d - 1)) + init[Wrap(n, c + d)][c]
  }

  /** What thread `t` holds for chunk `c` once it has received `received` messages. */
  function Held(n: nat, init: seq<seq<int>>, t: nat, c: nat, received: nat): int
    requires Input(n, init) && t < n && c < n
  {
    var d := Distance(n, c, t);
    if d + n - 1 < received then Partial(n, init, c, n - 1)
    else if d <= received then Partial(n, init, c, d)
    else init[t][c]
  }

  /** The message thread `t` sends in a round. */
  function Sent(n: nat, init: seq<seq<int>>, t: nat, round: nat): Message
    requires Input(n, init) && t < n && round < 2 * (n - 1)
  {
    var c := ChunkToSend(n, t, round);
    Message(Partial(n, init, c, if round < n - 1 then round else n - 1), c)
  }

  function NumSent(th: Thread): nat { if th.pc == Sending then th.round else th.round + 1 }

  function NumReceived(th: Thread): nat { if th.pc == Entering || th.pc == Waiting then th.round + 1 else th.round }

  predicate Entered(th: Thread, round: nat) { round < th.round || (round == th.round && th.pc == Waiting) }

  ghost function EnteredBy(threads: seq<Thread>, round: nat): set<nat> { set t: nat | t < |threads| && Entered(threads[t], round) }

  predicate InRounds(n: nat, th: Thread)
    requires 0 < n
  {
    th.round < 2 * (n - 1) || (th.round == 2 * (n - 1) && th.pc == Sending)
  }

  /** The queue from `t` to its successor holds, in order, what was sent and not yet received. */
  ghost predicate QueueInv(n: nat, init: seq<seq<int>>, s: State, t: nat)
    requires Input(n, init) && WellFormed(n, s) && t < n && InRounds(n, s.threads[t])
  {
    var next := Wrap(n, t + 1);
    var first, last := NumReceived(s.threads[next]), NumSent(s.threads[t]);
    && first <= last
    && |s.queues[next]| == last - first
    && forall i :: 0 <= i < last - first ==> s.queues[next][i] == Sent(n, init, t, first + i)
  }

  ghost predicate FenceInv(n: nat, s: State)
    requires WellFormed(n, s)
  {
    && (forall round: nat :: Count(s.round2count, FenceKey(n, round)) == |EnteredBy(s.threads, round)|)
    && (forall t, u :: 0 <= t < n && 0 <= u < n && s.threads[u].round < s.threads[t].round ==> Entered(s.threads[u], s.threads[t].round - 1))
  }

  ghost predicate Shape(n: nat, init: seq<seq<int>>, s: State) {
    && Input(n, init) && WellFormed(n, s)
    && forall t :: 0 <= t < n ==> InRounds(n, s.threads[t])
  }

  ghost predicate ValuesInv(n: nat, init: seq<seq<int>>, s: State)
    requires Shape(n, init, s)
  {
    forall t, c :: 0 <= t < n && 0 <= c < n ==> s.values[t][c] == Held(n, init, t, c, NumReceived(s.threads[t]))
  }

  ghost predicate QueuesInv(n: nat, init: seq<seq<int>>, s: State)
    requires Shape(n, init, s)
  {
    forall t :: 0 <= t < n ==> QueueInv(n, init, s, t)
  }

  ghost predicate Inv(n: nat, init: seq<seq<int>>, s: State) {
    && Shape(n, init, s)
    && ValuesInv(n, init, s)
    && QueuesInv(n, init, s)
    && FenceInv(n, s)
  }

  /** Which chunks go where: what `t` sends is what its successor expects, one step further around the ring. */
  lemma ChunksScattered(n: nat, t: nat, round: nat)
    requires 0 < n && t < n && round < n - 1
    ensures var c := ChunkToSend(n, t, round); var next := Wrap(n, t + 1);
            && next == (t + 1) % n
            && c < n && ChunkToRecv(n, next, round) == c
            && Distance(n, c, t) == round && Distance(n, c, next) == round + 1
  {
    var next := Wrap(n, t + 1);
    ModWrap(n, t + 1);
    ModWrap(n, t + n - round);
    ModWrap(n, next + n - round);
    ModWrap(n, ChunkToSend(n, next, round) + n - 1);
  }

  lemma ChunksShared(n: nat, t: nat, round: nat)
    requires 0 < n && t < n && n - 1 <= round < 2 * (n - 1)
    ensures var c := ChunkToSend(n, t, round); var next := Wrap(n, t + 1);
            && next == (t + 1) % n
            && c < n && ChunkToRecv(n, next, round) == c
            && Distance(n, c, next) == round - (n - 1)
            && Distance(n, c, t) == if round == n - 1 then n - 1 else round - n
  {
    var next := Wrap(n, t + 1);
    var r := round - (n - 1);
    ModWrap(n, t + 1);
    ModWrap(n, t + 1 + n - r);
    ModWrap(n, next + 1 + n - r);
    ModWrap(n, ChunkToSend(n, next, round) + n - 1);
  }

  function Predecessor(n: nat, t: nat): (p: nat)
    requires t < n
    ensures p < n && Wrap(n, p + 1) == t
  {
    if t == 0 then n - 1 else t - 1
  }

  /** A thread that sends holds the value `Sent` names. */
  lemma SendsWhatItHolds(n: nat, init: seq<seq<int>>, t: nat, round: nat)
    requires Input(n, init) && t < n && round < 2 * (n - 1)
    ensures var c := ChunkToSend(n, t, round);
            c < n && Sent(n, init, t, round) == Message(Held(n, init, t, c, round), c)
  {
    if round < n - 1 { ChunksScattered(n, t, round); } else { ChunksShared(n, t, round); }
  }

  /** Receiving the predecessor's message brings the chunk it is for, and only that one, up to date. */
  lemma ReceiveUpdates(n: nat, init: seq<seq<int>>, t: nat, round: nat, c: nat)
    requires Input(n, init) && t < n && round < 2 * (n - 1) && c < n
    ensures var msg := Sent(n, init, Predecessor(n, t), round);
            && msg.from == ChunkToRecv(n, t, round)
            && Held(n, init, t, c, round + 1) ==
               if c != msg.from then Held(n, init, t, c, round)
               else if round < n - 1 then Held(n, init, t, c, round) + msg.v else msg.v
  {
    var p := Predecessor(n, t);
    if round < n - 1 { ChunksScattered(n, p, round); } else { ChunksShared(n, p, round); }
  }

  /** Only the values of `t`, if any, are touched, and `t` has received as much as before. */
  lemma ValuesUntouched(n: nat, init: seq<seq<int>>, s: State, s': State)
    requires Shape(n, init, s) && ValuesInv(n, init, s) && Shape(n, init, s')
    requires s'.values == s.values
    requires forall t :: 0 <= t < n ==> NumReceived(s'.threads[t]) == NumReceived(s.threads[t])
    ensures ValuesInv(n, init, s')
  {}

  lemma QueueUntouched(n: nat, init: seq<seq<int>>, s: State, s': State, t: nat)
    requires Shape(n, init, s) && Shape(n, init, s') && t < n && QueueInv(n, init, s, t)
    requires var next := Wrap(n, t + 1);
             s'.queues[next] == s.queues[next] && NumReceived(s'.threads[next]) == NumReceived(s.threads[next])
    requires NumSent(s'.threads[t]) == NumSent(s.threads[t])
    ensures QueueInv(n, init, s', t)
  {}

  lemma QueuesUntouched(n: nat, init: seq<seq<int>>, s: State, s': State)
    requires Shape(n, init, s) && QueuesInv(n, init, s) && Shape(n, init, s')
    requires s'.queues == s.queues
    requires forall t :: 0 <= t < n ==> NumReceived(s'.threads[t]) == NumReceived(s.threads[t])
    requires forall t :: 0 <= t < n ==> NumSent(s'.threads[t]) == NumSent(s.threads[t])
    ensures QueuesInv(n, init, s')
  {
    hide QueueInv;
    forall t | 0 <= t < n ensures QueueInv(n, init, s', t) {
      QueueUntouched(n, init, s, s', t);
    }
  }

  lemma FenceUntouched(n: nat, s: State, s': State)
    requires WellFormed(n, s) && FenceInv(n, s) && WellFormed(n, s')
    requires s'.round2count == s.round2count
    requires forall t :: 0 <= t < n ==> s'.threads[t].round == s.threads[t].round
    requires forall t :: 0 <= t < n ==> (s'.threads[t].pc == Waiting <==> s.threads[t].pc == Waiting)
    ensures FenceInv(n, s')
  {
    forall round: nat ensures EnteredBy(s'.threads, round) == EnteredBy(s.threads, round) {}
  }

  lemma SendKeepsQueue(n: nat, init: seq<seq<int>>, s: State, t: nat)
    requires Shape(n, init, s) && t < n && QueueInv(n, init, s, t)
    requires Enabled(n, s, t) && s.threads[t].pc == Sending
    requires var round := s.threads[t].round; var c := ChunkToSend(n, t, round);
             c < n && Message(s.values[t][c], c) == Sent(n, init, t, round)
    ensures Shape(n, init, Step(n, s, t)) && QueueInv(n, init, Step(n, s, t), t)
  {
    hide Sent, ChunkToSend;
    ModWrap(n, t + 1);
  }

  lemma SendsHeld(n: nat, init: seq<seq<int>>, s: State, t: nat)
    requires Shape(n, init, s) && ValuesInv(n, init, s) && t < n && Enabled(n, s, t) && s.threads[t].pc == Sending
    ensures var round := s.threads[t].round; var c := ChunkToSend(n, t, round);
            c < n && Message(s.values[t][c], c) == Sent(n, init, t, round)
  {
    SendsWhatItHolds(n, init, t, s.threads[t].round);
  }

  lemma SendKeepsQueues(n: nat, init: seq<seq<int>>, s: State, t: nat)
    requires Shape(n, init, s) && ValuesInv(n, init, s) && QueuesInv(n, init, s)
    requires t < n && Enabled(n, s, t) && s.threads[t].pc == Sending
    ensures Shape(n, init, Step(n, s, t)) && QueuesInv(n, init, Step(n, s, t))
  {
    hide QueueInv, ValuesInv;
    var s' := Step(n, s, t);
    ModWrap(n, t + 1);
    SendsHeld(n, init, s, t);
    SendKeepsQueue(n, init, s, t);
    forall u | 0 <= u < n ensures QueueInv(n, init, s', u) {
      if u != t {
        QueueUntouched(n, init, s, s', u);
      }
    }
  }

  lemma ReceiveHead(n: nat, init: seq<seq<int>>, s: State, t: nat)
    requires Shape(n, init, s) && QueuesInv(n, init, s)
    requires t < n && Enabled(n, s, t) && s.threads[t].pc == Receiving
    ensures s.queues[t][0] == Sent(n, init, Predecessor(n, t), s.threads[t].round)
  {
    assert QueueInv(n, init, s, Predecessor(n, t));
  }

  lemma ReceiveKeepsValues(n: nat, init: seq<seq<int>>, s: State, t: nat)
    requires Shape(n, init, s) && ValuesInv(n, init, s) && QueuesInv(n, init, s)
    requires t < n && Enabled(n, s, t) && s.threads[t].pc == Receiving
    ensures Shape(n, init, Step(n, s, t)) && ValuesInv(n, init, Step(n, s, t))
    ensures s.queues[t][0].from == ChunkToRecv(n, t, s.threads[t].round)
  {
    hide QueuesInv;
    var s' := Step(n, s, t);
    var round := s.threads[t].round;
    ReceiveHead(n, init, s, t);
    ReceiveUpdates(n, init, t, round, 0);
    forall c | 0 <= c < n ensures s'.values[t][c] == Held(n, init, t, c, round + 1) {
      ReceiveUpdates(n, init, t, round, c);
      assert s.values[t][c] == Held(n, init, t, c, round);
    }
  }

  lemma ReceiveKeepsQueue(n: nat, init: seq<seq<int>>, s: State, t: nat)
    requires Shape(n, init, s) && t < n && QueueInv(n, init, s, Predecessor(n, t))
    requires Enabled(n, s, t) && s.threads[t].pc == Receiving && Shape(n, init, Step(n, s, t))
    ensures QueueInv(n, init, Step(n, s, t), Predecessor(n, t))
  {}

  lemma ReceiveKeepsQueues(n: nat, init: seq<seq<int>>, s: State, t: nat)
    requires Shape(n, init, s) && QueuesInv(n, init, s)
    requires t < n && Enabled(n, s, t) && s.threads[t].pc == Receiving && Shape(n, init, Step(n, s, t))
    ensures QueuesInv(n, init, Step(n, s, t))
  {
    hide QueueInv;
    var s' := Step(n, s, t);
    ReceiveKeepsQueue(n, init, s, t);
    forall u | 0 <= u < n ensures QueueInv(n, init, s', u) {
      if u != Predecessor(n, t) {
        QueueUntouched(n, init, s, s', u);
      }
    }
  }

  lemma EnterCounts(n: nat, s: State, t: nat, r: nat)
    requires WellFormed(n, s) && t < n && Enabled(n, s, t) && s.threads[t].pc == Entering
    requires Count(s.round2count, FenceKey(n, r)) == |EnteredBy(s.threads, r)|
    ensures var s' := Step(n, s, t); Count(s'.round2count, FenceKey(n, r)) == |EnteredBy(s'.threads, r)|
  {
    var s' := Step(n, s, t);
    var round := s.threads[t].round;
    if r == round {
      assert EnteredBy(s'.threads, r) == EnteredBy(s.threads, r) + {t};
    } else {
      assert EnteredBy(s'.threads, r) == EnteredBy(s.threads, r);
      assert FenceKey(n, r) != FenceKey(n, round);
    }
  }

  lemma EnterKeepsFence(n: nat, s: State, t: nat)
    requires WellFormed(n, s) && FenceInv(n, s) && t < n && Enabled(n, s, t) && s.threads[t].pc == Entering
    ensures FenceInv(n, Step(n, s, t))
  {
    var s' := Step(n, s, t);
    forall r: nat ensures Count(s'.round2count, FenceKey(n, r)) == |EnteredBy(s'.threads, r)| {
      EnterCounts(n, s, t, r);
    }
    forall u, w | 0 <= u < n && 0 <= w < n && s'.threads[w].round < s'.threads[u].round
      ensures Entered(s'.threads[w], s'.threads[u].round - 1)
    {
      assert Entered(s.threads[w], s.threads[u].round - 1);
    }
  }

  /** The fence opens only when all have entered. */
  lemma AllEntered(n: nat, s: State, round: nat)
    requires WellFormed(n, s) && FenceInv(n, s) && Count(s.round2count, FenceKey(n, round)) == n
    ensures forall t :: 0 <= t < n ==> Entered(s.threads[t], round)
  {
    SubsetSize(EnteredBy(s.threads, round), UpTo(n));
    forall t: nat | t < n ensures Entered(s.threads[t], round) { assert t in UpTo(n); }
  }

  lemma PassKeepsFence(n: nat, s: State, t: nat)
    requires WellFormed(n, s) && FenceInv(n, s) && t < n && Enabled(n, s, t) && s.threads[t].pc == Waiting
    ensures FenceInv(n, Step(n, s, t))
  {
    var s' := Step(n, s, t);
    var round := s.threads[t].round;
    AllEntered(n, s, round);
    forall u, r: nat | 0 <= u < n ensures Entered(s'.threads[u], r) <==> Entered(s.threads[u], r) {}
    forall r: nat ensures EnteredBy(s'.threads, r) == EnteredBy(s.threads, r) {}
  }

  /** One step of any thread keeps the invariant, and a received message is always for the expected chunk. */
  lemma StepKeepsInv(n: nat, init: seq<seq<int>>, s: State, t: nat)
    requires Inv(n, init, s) && t < n && Enabled(n, s, t)
    ensures Inv(n, init, Step(n, s, t))
    ensures s.threads[t].pc == Receiving ==> s.queues[t][0].from == ChunkToRecv(n, t, s.threads[t].round)
  {
    hide ValuesInv, QueuesInv, FenceInv;
    var s' := Step(n, s, t);
    match s.threads[t].pc
    case Sending =>
      SendKeepsQueues(n, init, s, t);
      ValuesUntouched(n, init, s, s');
      FenceUntouched(n, s, s');
    case Receiving =>
      ReceiveKeepsValues(n, init, s, t);
      ReceiveKeepsQueues(n, init, s, t);
      FenceUntouched(n, s, s');
    case Entering =>
      ValuesUntouched(n, init, s, s');
      QueuesUntouched(n, init, s, s');
      EnterKeepsFence(n, s, t);
    case Waiting =>
      ValuesUntouched(n, init, s, s');
      QueuesUntouched(n, init, s, s');
      PassKeepsFence(n, s, t);
  }

  // ----- every run -----

  lemma InitialInv(n: nat, init: seq<seq<int>>)
    requires Input(n, init)
    ensures Inv(n, init, Initial(n, init))
  {
    var s := Initial(n, init);
    forall round: nat ensures EnteredBy(s.threads, round) == {} {}
  }

  lemma NextKeepsInv(n: nat, init: seq<seq<int>>, s: State, s': State)
    requires Inv(n, init, s) && Next(n, s, s')
    ensures Inv(n, init, s')
    ensures Progress(s'.threads) == Progress(s.threads) + 1
  {
    hide ValuesInv, QueuesInv, FenceInv;
    var t: nat :| t < n && Enabled(n, s, t) && s' == Step(n, s, t);
    StepKeepsInv(n, init, s, t);
    ProgressUpdate(s.threads, t, s'.threads[t]);
  }

  /** The invariant holds in every state of every run, and each step makes progress. */
  lemma {:induction false} EveryStateInv(n: nat, init: seq<seq<int>>, run: seq<State>, i: nat)
    requires Execution(n, init, run) && i < |run|
    ensures Inv(n, init, run[i]) && Progress(run[i].threads) == i
  {
    hide Inv, Next;
    if i == 0 {
      InitialInv(n, init);
      NoProgress(n);
    } else {
      EveryStateInv(n, init, run, i - 1);
      assert Next(n, run[i - 1], run[i - 1 + 1]);
      NextKeepsInv(n, init, run[i - 1], run[i]);
    }
  }

  predicate Done(n: nat, th: Thread)
    requires 0 < n
  {
    th.round == 2 * (n - 1)
  }

  /** The CHECK_EQ on the chunk of a received message never fails. */
  lemma CheckNeverFails(n: nat, init: seq<seq<int>>, run: seq<State>, i: nat, t: nat)
    requires Execution(n, init, run) && i < |run| && t < n
    requires WellFormed(n, run[i]) && Enabled(n, run[i], t) && run[i].threads[t].pc == Receiving
    ensures run[i].queues[t][0].from == ChunkToRecv(n, t, run[i].threads[t].round)
  {
    EveryStateInv(n, init, run, i);
    StepKeepsInv(n, init, run[i], t);
  }

  lemma SlowestThread(n: nat, s: State) returns (t: nat)
    requires WellFormed(n, s)
    ensures t < n && forall u :: 0 <= u < n ==> s.threads[t].round <= s.threads[u].round
  {
    t := 0;
    for u := 1 to n
      invariant t < n && forall w :: 0 <= w < u ==> s.threads[t].round <= s.threads[w].round
    {
      if s.threads[u].round < s.threads[t].round { t := u; }
    }
  }

  /** A thread in the slowest round that waits for a message gets it, unless its predecessor can still send. */
  lemma MessageOrSender(n: nat, init: seq<seq<int>>, s: State, t: nat)
    requires Inv(n, init, s) && t < n && s.threads[t].pc == Receiving
    requires forall u :: 0 <= u < n ==> s.threads[t].round <= s.threads[u].round
    ensures Enabled(n, s, t) || Enabled(n, s, Predecessor(n, t))
  {
    var p := Predecessor(n, t);
    assert QueueInv(n, init, s, p);
  }

  /** Some thread can move unless all are done: no thread blocks forever. */
  lemma NoDeadlock(n: nat, init: seq<seq<int>>, s: State)
    requires Inv(n, init, s)
    ensures (forall t :: 0 <= t < n ==> Done(n, s.threads[t])) || exists t: nat :: t < n && Enabled(n, s, t)
  {
    var slow := SlowestThread(n, s);
    var round := s.threads[slow].round;
    if round < 2 * (n - 1) && !Enabled(n, s, slow) {
      if s.threads[slow].pc == Receiving {
        MessageOrSender(n, init, s, slow);
      } else {
        assert Count(s.round2count, FenceKey(n, round)) == |EnteredBy(s.threads, round)|;
        if forall u: nat :: u < n ==> Entered(s.threads[u], round) {
          assert EnteredBy(s.threads, round) == UpTo(n);
        } else {
          var u: nat :| u < n && !Entered(s.threads[u], round);
          if s.threads[u].pc == Receiving {
            MessageOrSender(n, init, s, u);
          } else {
            assert Enabled(n, s, u);
          }
        }
      }
    } else if round == 2 * (n - 1) {
      forall t | 0 <= t < n ensures Done(n, s.threads[t]) { assert InRounds(n, s.threads[t]); }
    } else {
      assert InRounds(n, s.threads[slow]);
    }
  }

  function Column(n: nat, init: seq<seq<int>>, c: nat, lo: nat, hi: nat): int
    requires Input(n, init) && c < n && lo <= hi <= n
  {
    if lo == hi then 0 else Column(n, init, c, lo, hi - 1) + init[hi - 1][c]
  }

  /** The sum of chunk `c` over all threads. */
  function ColumnSum(n: nat, init: seq<seq<int>>, c: nat): int
    requires Input(n, init) && c < n
  {
    Column(n, init, c, 0, n)
  }

  /** The entry of a vector in one column. */
  function EntryAt(c: nat): seq<int> -> int { (row: seq<int>) => if c < |row| then row[c] else 0 }

  lemma {:induction false} ColumnIsSum(n: nat, init: seq<seq<int>>, c: nat, hi: nat)
    requires Input(n, init) && c < n && hi <= n
    ensures Column(n, init, c, 0, hi) == Sum(init[..hi], EntryAt(c))
  {
    if hi != 0 {
      ColumnIsSum(n, init, c, hi - 1);
      assert init[..hi] == init[..hi - 1] + [init[hi - 1]] && [init[hi - 1]][1..] == [];
      SumConcat(init[..hi - 1], [init[hi - 1]], EntryAt(c));
    }
  }

  lemma {:induction false} ColumnSplit(n: nat, init: seq<seq<int>>, c: nat, lo: nat, mid: nat, hi: nat)
    requires Input(n, init) && c < n && lo <= mid <= hi <= n
    ensures Column(n, init, c, lo, hi) == Column(n, init, c, lo, mid) + Column(n, init, c, mid, hi)
  {
    if mid < hi { ColumnSplit(n, init, c, lo, mid, hi - 1); }
  }

  lemma {:induction false} PartialIsArc(n: nat, init: seq<seq<int>>, c: nat, d: nat)
    requires Input(n, init) && c < n && d < n
    ensures Partial(n, init, c, d) ==
            if c + d < n then Column(n, init, c, c, c + d + 1)
            else Column(n, init, c, c, n) + Column(n, init, c, 0, c + d + 1 - n)
  {
    if d > 0 { PartialIsArc(n, init, c, d - 1); }
  }

  lemma FullCircle(n: nat, init: seq<seq<int>>, c: nat)
    requires Input(n, init) && c < n
    ensures Partial(n, init, c, n - 1) == ColumnSum(n, init, c)
  {
    PartialIsArc(n, init, c, n - 1);
    ColumnSplit(n, init, c, 0, c, n);
  }

  /** After the first phase thread `t` holds the full sum of chunk (t + 1) mod n. */
  lemma ScatterPhase(n: nat, init: seq<seq<int>>, s: State, t: nat)
    requires Inv(n, init, s) && t < n && n - 1 <= s.threads[t].round
    ensures (t + 1) % n < n && s.values[t][(t + 1) % n] == ColumnSum(n, init, (t + 1) % n)
  {
    ModWrap(n, t + 1);
    FullCircle(n, init, Wrap(n, t + 1));
  }

  /** When all threads are done every vector is the vector of column sums. */
  lemma AllReduced(n: nat, init: seq<seq<int>>, s: State, t: nat, c: nat)
    requires Inv(n, init, s) && t < n && c < n && Done(n, s.threads[t])
    ensures s.values[t][c] == ColumnSum(n, init, c)
  {
    FullCircle(n, init, c);
  }

  function PcRank(pc: Pc): nat {
    match pc case Sending => 0 case Receiving => 1 case Entering => 2 case Waiting => 3
  }

  function Progress(threads: seq<Thread>): nat {
    if threads == [] then 0 else 4 * threads[0].round + PcRank(threads[0].pc) + Progress(threads[1..])
  }

  lemma {:induction false} ProgressUpdate(threads: seq<Thread>, t: nat, th: Thread)
    requires t < |threads|
    ensures Progress(threads[t := th]) == Progress(threads)
            - (4 * threads[t].round + PcRank(threads[t].pc)) + (4 * th.round + PcRank(th.pc))
  {
    if t == 0 {
      assert threads[0 := th][1..] == threads[1..];
    } else {
      assert threads[t := th][1..] == threads[1..][t - 1 := th];
      ProgressUpdate(threads[1..], t - 1, th);
    }
  }

  lemma AddOne(b: int, k: int)
    ensures b * (k + 1) == b * k + b
  {}

  lemma {:induction false} ProgressBound(n: nat, threads: seq<Thread>)
    requires 0 < n && forall t :: 0 <= t < |threads| ==> InRounds(n, threads[t])
    ensures Progress(threads) <= 8 * (n - 1) * |threads|
  {
    if threads != [] {
      assert InRounds(n, threads[0]);
      ProgressBound(n, threads[1..]);
      AddOne(8 * (n - 1), |threads[1..]|);
    }
  }

  lemma {:induction false} NoProgress(n: nat)
    ensures Progress(seq(n, _ => Thread(0, Sending))) == 0
  {
    if n > 0 {
      assert seq(n, _ => Thread(0, Sending))[1..] == seq(n - 1, _ => Thread(0, Sending));
      NoProgress(n - 1);
    }
  }

  /** Every interleaving ends after at most 8(n-1)n steps, and one that cannot go on has given
      every thread the column sums. */
  lemma RingAllReduceCorrect(n: nat, init: seq<seq<int>>, run: seq<State>)
    requires Execution(n, init, run)
    ensures |run| <= 8 * (n - 1) * n + 1
    ensures var s := run[|run| - 1];
            && WellFormed(n, s)
            && ((forall t: nat :: t < n ==> !Enabled(n, s, t)) ==>
                forall t, c :: 0 <= t < n && 0 <= c < n ==> s.values[t][c] == Sum(init, EntryAt(c)))
  {
    hide ValuesInv, QueuesInv, FenceInv;
    EveryStateInv(n, init, run, |run| - 1);
    var s := run[|run| - 1];
    ProgressBound(n, s.threads);
    NoDeadlock(n, init, s);
    if forall t: nat :: t < n ==> !Enabled(n, s, t) {
      forall t, c | 0 <= t < n && 0 <= c < n ensures s.values[t][c] == Sum(init, EntryAt(c)) {
        AllReduced(n, init, s, t, c);
        ColumnIsSum(n, init, c, n);
        assert init[..n] == init;
      }
    }
  }

  /** Every run can be continued until every thread has the column sums. */
  lemma RunsToTheEnd(n: nat, init: seq<seq<int>>, run: seq<State>) returns (full: seq<State>)
    requires Execution(n, init, run)
    ensures Execution(n, init, full) && run <= full
    ensures var s := full[|full| - 1];
      WellFormed(n, s) && forall t, c :: 0 <= t < n && 0 <= c < n ==> s.values[t][c] == Sum(init, EntryAt(c))
    decreases 8 * (n - 1) * n + 1 - |run|
  {
    RingAllReduceCorrect(n, init, run);
    var s := run[|run| - 1];
    full := run;
    if t: nat :| t < n && Enabled(n, s, t) {
      var more := run + [Step(n, s, t)];
      hide Step, Enabled;
      forall i | 0 <= i < |more| - 1 ensures Next(n, more[i], more[i + 1]) {
        if i < |run| - 1 { assert Next(n, run[i], run[i + 1]); }
      }
      RingAllReduceCorrect(n, init, more);
      full := RunsToTheEnd(n, init, more);
    }
  }

  lemma SomeRunEnds(n: nat, init: seq<seq<int>>) returns (full: seq<State>)
    requires 0 < n == |init| && forall t :: 0 <= t < n ==> |init[t]| == n
    ensures Execution(n, init, full) && full[0] == Initial(n, init)
    ensures var s := full[|full| - 1];
      WellFormed(n, s) && forall t, c :: 0 <= t < n && 0 <= c < n ==> s.values[t][c] == Sum(init, EntryAt(c))
  {
    full := RunsToTheEnd(n, init, [Initial(n, init)]);
  }
}
