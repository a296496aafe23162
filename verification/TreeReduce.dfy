/**
  cpp/reduce.cc: the binary tree reduction, sequential (simulateBinaryTreeReduce) and with one thread per value and
  messages (binaryTreeTreadRunWithMsg).

  A thread loops over r = 1, 2, 4, ... while r < n.  If its id is not a multiple of 2r it sends its value to the
  multiple of 2r below and stops; otherwise, if `id + r` is a thread, it waits for one message, from whichever
  child was first.  `level` is the exponent of r.
*/
module TreeReduce {
  import opened Arithmetic
  import opened FiniteSets
  import opened Sums

  datatype Message = Message(v: int, from: nat)

  datatype Node = Node(level: nat, sent: bool)

  /** `got[t]` records the senders of the messages thread `t` has received; no step looks at it. */
  datatype State = State(nodes: seq<Node>, values: seq<int>, queues: seq<seq<Message>>, got: seq<set<nat>>)

  predicate WellFormed(n: nat, s: State) {
    0 < n == |s.nodes| == |s.values| == |s.queues| == |s.got|
  }

  predicate Active(n: nat, node: Node) { !node.sent && Pow2(node.level) < n }

  predicate IsSender(t: nat, level: nat) { t % Pow2(level + 1) != 0 }

  predicate Enabled(n: nat, s: State, t: nat)
    requires WellFormed(n, s) && t < n
  {
    && Active(n, s.nodes[t])
    && (IsSender(t, s.nodes[t].level) || n <= t + Pow2(s.nodes[t].level) || s.queues[t] != [])
  }

  function Destination(t: nat, level: nat): (dest: nat)
    ensures dest <= t
  {
    ModAtMost(t, Pow2(level + 1));
    t - t % Pow2(level + 1)
  }

  function Step(n: nat, s: State, t: nat): State
    requires WellFormed(n, s) && t < n && Enabled(n, s, t)
  {
    var node := s.nodes[t];
    if IsSender(t, node.level) then
      var dest := Destination(t, node.level);
      s.(nodes := s.nodes[t := node.(sent := true)],
         queues := s.queues[dest := s.queues[dest] + [Message(s.values[t], t)]])
    else if t + Pow2(node.level) < n then
      var msg := s.queues[t][0];
      s.(nodes := s.nodes[t := node.(level := node.level + 1)],
         values := s.values[t := s.values[t] + msg.v],
         queues := s.queues[t := s.queues[t][1..]],
         got := s.got[t := s.got[t] + {msg.from}])
    else
      s.(nodes := s.nodes[t := node.(level := node.level + 1)])
  }

  function Initial(values: seq<int>): State {
    State(seq(|values|, _ => Node(0, false)), values, seq(|values|, _ => []), seq(|values|, _ => {}))
  }

  ghost predicate Next(n: nat, s: State, s': State) {
    WellFormed(n, s) && exists t: nat :: t < n && Enabled(n, s, t) && s' == Step(n, s, t)
  }

  ghost predicate Execution(values: seq<int>, run: seq<State>) {
    && values != [] && run != [] && run[0] == Initial(values)
    && forall i :: 0 <= i < |run| - 1 ==> Next(|values|, run[i], run[i + 1])
  }

  // ----- invariant -----

  function Units(): int -> int { (x: int) => x }

  function MessageValue(): Message -> int { (m: Message) => m.v }

  function QueueValue(): seq<Message> -> int { (q: seq<Message>) => Sum(q, MessageValue()) }

  /** The values of the threads that have not sent theirs away. */
  function Live(s: State): seq<int>
    requires |s.nodes| == |s.values|
  {
    seq(|s.nodes|, t requires 0 <= t < |s.nodes| => if s.nodes[t].sent then 0 else s.values[t])
  }

  /** What is held plus what is in flight. */
  function Total(s: State): int
    requires |s.nodes| == |s.values|
  {
    Sum(Live(s), Units()) + Sum(s.queues, QueueValue())
  }

  ghost function Froms(q: seq<Message>): set<nat> { set m | m in q :: m.from }

  /** The children a thread at `level` should have heard from. */
  ghost function Children(n: nat, t: nat, level: nat): set<nat> {
    if level == 0 then {} else
      Children(n, t, level - 1) + if t + Pow2(level - 1) < n then {t + Pow2(level - 1)} else {}
  }

  ghost function SentTo(nodes: seq<Node>, t: nat): set<nat> {
    set c: nat | c < |nodes| && nodes[c].sent && c - Pow2(nodes[c].level) == t
  }

  predicate NodeInv(t: nat, node: Node) {
    t % Pow2(node.level) == 0 && (node.sent ==> IsSender(t, node.level))
  }

  /** Thread `t` has received `got` and still has `queue` from those who have sent to it, one message each. */
  ghost predicate MailInv(n: nat, nodes: seq<Node>, queue: seq<Message>, got: set<nat>, t: nat)
    requires t < |nodes|
  {
    && |got| == |Children(n, t, nodes[t].level)|
    && got !! Froms(queue)
    && got + Froms(queue) == SentTo(nodes, t)
    && |Froms(queue)| == |queue|
  }

  ghost predicate Inv(n: nat, s: State) {
    && WellFormed(n, s)
    && (forall t :: 0 <= t < n ==> NodeInv(t, s.nodes[t]))
    && (forall t :: 0 <= t < n ==> MailInv(n, s.nodes, s.queues[t], s.got[t], t))
  }

  lemma Parent(t: nat, level: nat)
    requires t % Pow2(level) == 0 && IsSender(t, level)
    ensures Destination(t, level) == t - Pow2(level) >= 0
    ensures (t - Pow2(level)) % Pow2(level + 1) == 0
  {
    HalfStep(t, Pow2(level));
    DropRemainder(t, Pow2(level));
  }

  lemma NoSenderBelow(x: nat, a: nat, b: nat)
    requires a < b && x % Pow2(b) == 0
    ensures !IsSender(x, a)
  {
    MultipleOfSmallerPower(x, a + 1, b);
  }

  lemma {:induction false} ChildrenBounds(n: nat, t: nat, level: nat, c: nat)
    requires c in Children(n, t, level)
    ensures t < c < n && c < t + Pow2(level)
  {
    if c in Children(n, t, level - 1) {
      ChildrenBounds(n, t, level - 1, c);
    } else {
      Pow2Increases(level - 1, level);
    }
  }

  lemma {:induction false} ChildAt(n: nat, t: nat, level: nat, j: nat)
    requires j < level && t + Pow2(j) < n
    ensures t + Pow2(j) in Children(n, t, level)
  {
    if j < level - 1 { ChildAt(n, t, level - 1, j); }
  }

  lemma {:induction false} ChildLevel(n: nat, t: nat, level: nat, c: nat) returns (j: nat)
    requires c in Children(n, t, level)
    ensures j < level && c == t + Pow2(j)
  {
    if c in Children(n, t, level - 1) { j := ChildLevel(n, t, level - 1, c); } else { j := level - 1; }
  }

  lemma MoreChildren(n: nat, t: nat, level: nat)
    ensures |Children(n, t, level + 1)| == |Children(n, t, level)| + if t + Pow2(level) < n then 1 else 0
  {
    if t + Pow2(level) in Children(n, t, level) { ChildrenBounds(n, t, level, t + Pow2(level)); }
  }

  /** Who has sent to `t`: its children, one level each. */
  lemma SenderIsChild(n: nat, s: State, t: nat, c: nat)
    requires Inv(n, s) && c in SentTo(s.nodes, t)
    ensures c == t + Pow2(s.nodes[c].level) && t % Pow2(s.nodes[c].level + 1) == 0
  {
    Parent(c, s.nodes[c].level);
  }

  lemma {:induction false} FromsConcat(q: seq<Message>, m: Message)
    ensures Froms(q + [m]) == Froms(q) + {m.from}
  {
    assert forall x :: x in q + [m] <==> x in q || x == m;
  }

  lemma SplitFroms(q: seq<Message>)
    requires q != []
    ensures Froms(q) == {q[0].from} + Froms(q[1..])
    ensures |Froms(q)| == |q| ==> q[0].from !in Froms(q[1..]) && |Froms(q[1..])| == |q| - 1
  {
    assert forall x :: x in q <==> x == q[0] || x in q[1..];
    FromsAtMost(q[1..]);
    if q[0].from in Froms(q[1..]) {
      assert Froms(q) == Froms(q[1..]);
    }
  }

  lemma {:induction false} FromsAtMost(q: seq<Message>)
    ensures |Froms(q)| <= |q|
  {
    if q == [] {
      assert Froms(q) == {};
    } else {
      assert forall x :: x in q <==> x == q[0] || x in q[1..];
      assert Froms(q) == {q[0].from} + Froms(q[1..]);
      FromsAtMost(q[1..]);
    }
  }

  lemma SendAddsSender(nodes: seq<Node>, t: nat, u: nat)
    requires t < |nodes| && !nodes[t].sent
    ensures t !in SentTo(nodes, u)
    ensures SentTo(nodes[t := nodes[t].(sent := true)], u) ==
            SentTo(nodes, u) + if t - Pow2(nodes[t].level) == u then {t} else {}
  {}

  lemma SendKeepsMail(n: nat, nodes: seq<Node>, queue: seq<Message>, got: set<nat>, u: nat, t: nat, v: int)
    requires u < |nodes| && t < |nodes| && MailInv(n, nodes, queue, got, u) && !nodes[t].sent
    ensures var nodes' := nodes[t := nodes[t].(sent := true)];
            MailInv(n, nodes', if t - Pow2(nodes[t].level) == u then queue + [Message(v, t)] else queue, got, u)
  {
    hide Pow2, Children, SentTo, Froms;
    SendAddsSender(nodes, t, u);
    FromsConcat(queue, Message(v, t));
    assert t !in Froms(queue) && t !in got;
  }

  lemma ClimbKeepsSenders(nodes: seq<Node>, t: nat, u: nat)
    requires t < |nodes| && !nodes[t].sent
    ensures SentTo(nodes[t := nodes[t].(level := nodes[t].level + 1)], u) == SentTo(nodes, u)
  {}

  lemma ReceiveKeepsMail(n: nat, nodes: seq<Node>, queue: seq<Message>, got: set<nat>, t: nat)
    requires t < |nodes| && MailInv(n, nodes, queue, got, t) && !nodes[t].sent
    requires queue != [] && t + Pow2(nodes[t].level) < n
    ensures var nodes' := nodes[t := nodes[t].(level := nodes[t].level + 1)];
            MailInv(n, nodes', queue[1..], got + {queue[0].from}, t)
  {
    hide Pow2, Children, SentTo;
    ClimbKeepsSenders(nodes, t, t);
    SplitFroms(queue);
    MoreChildren(n, t, nodes[t].level);
  }

  lemma SkipKeepsMail(n: nat, nodes: seq<Node>, queue: seq<Message>, got: set<nat>, t: nat)
    requires t < |nodes| && MailInv(n, nodes, queue, got, t) && !nodes[t].sent
    requires n <= t + Pow2(nodes[t].level)
    ensures MailInv(n, nodes[t := nodes[t].(level := nodes[t].level + 1)], queue, got, t)
  {
    hide Pow2, Children, SentTo;
    ClimbKeepsSenders(nodes, t, t);
    MoreChildren(n, t, nodes[t].level);
  }

  lemma ClimbKeepsNode(t: nat, level: nat)
    requires !IsSender(t, level)
    ensures NodeInv(t, Node(level + 1, false))
  {}

  lemma StepKeepsInv(n: nat, s: State, t: nat)
    requires Inv(n, s) && t < n && Enabled(n, s, t)
    ensures Inv(n, Step(n, s, t))
  {
    hide MailInv, SentTo, Pow2;
    var s' := Step(n, s, t);
    var level := s.nodes[t].level;
    assert NodeInv(t, s.nodes[t]);
    if IsSender(t, level) {
      Parent(t, level);
      forall u | 0 <= u < n ensures MailInv(n, s'.nodes, s'.queues[u], s'.got[u], u) {
        SendKeepsMail(n, s.nodes, s.queues[u], s.got[u], u, t, s.values[t]);
      }
    } else {
      ClimbKeepsNode(t, level);
      forall u | 0 <= u < n ensures MailInv(n, s'.nodes, s'.queues[u], s'.got[u], u) {
        if u != t {
          OtherClimbs(n, s.nodes, s.queues[u], s.got[u], u, t);
        } else if t + Pow2(level) < n {
          ReceiveKeepsMail(n, s.nodes, s.queues[t], s.got[t], t);
        } else {
          SkipKeepsMail(n, s.nodes, s.queues[t], s.got[t], t);
        }
      }
    }
  }

  lemma OtherClimbs(n: nat, nodes: seq<Node>, queue: seq<Message>, got: set<nat>, u: nat, t: nat)
    requires u < |nodes| && t < |nodes| && u != t && MailInv(n, nodes, queue, got, u) && !nodes[t].sent
    ensures MailInv(n, nodes[t := nodes[t].(level := nodes[t].level + 1)], queue, got, u)
  {
    hide Pow2, Children, SentTo;
    ClimbKeepsSenders(nodes, t, u);
  }

  /** Nothing is lost or counted twice: held plus in-flight value is conserved by every step. */
  lemma StepConserves(n: nat, s: State, t: nat)
    requires WellFormed(n, s) && t < n && Enabled(n, s, t)
    ensures Total(Step(n, s, t)) == Total(s)
  {
    var s' := Step(n, s, t);
    var level := s.nodes[t].level;
    if IsSender(t, level) {
      var dest := Destination(t, level);
      var q := s.queues[dest] + [Message(s.values[t], t)];
      assert Live(s') == Live(s)[t := 0];
      SumUpdate(Live(s), t, 0, Units());
      SumUpdate(s.queues, dest, q, QueueValue());
      SumConcat(s.queues[dest], [Message(s.values[t], t)], MessageValue());
    } else if t + Pow2(level) < n {
      var v := s.values[t] + s.queues[t][0].v;
      assert Live(s') == Live(s)[t := v];
      SumUpdate(Live(s), t, v, Units());
      SumUpdate(s.queues, t, s.queues[t][1..], QueueValue());
    } else {
      assert Live(s') == Live(s);
    }
  }

  /** A sender's level is below its parent's. */
  lemma SenderLevel(n: nat, s: State, t: nat, c: nat)
    requires Inv(n, s) && t < n && c in SentTo(s.nodes, t)
    requires IsSender(t, s.nodes[t].level) || n <= Pow2(s.nodes[t].level)
    ensures c in Children(n, t, s.nodes[t].level)
  {
    var level := s.nodes[t].level;
    SenderIsChild(n, s, t, c);
    var j := s.nodes[c].level;
    if level <= j {
      if IsSender(t, level) { NoSenderBelow(t, level, j + 1); }
      else if level < j { Pow2Increases(level, j); }
    }
    ChildAt(n, t, level, j);
  }

  /** Before a thread sends, and at the end, it has received exactly its children's messages. */
  lemma HeardFromAllChildren(n: nat, s: State, t: nat)
    requires Inv(n, s) && t < n
    requires IsSender(t, s.nodes[t].level) || n <= Pow2(s.nodes[t].level)
    ensures s.got[t] == Children(n, t, s.nodes[t].level) && s.queues[t] == []
    ensures SentTo(s.nodes, t) == s.got[t]
  {
    hide Children, Pow2;
    var level := s.nodes[t].level;
    assert MailInv(n, s.nodes, s.queues[t], s.got[t], t);
    forall c | c in SentTo(s.nodes, t) ensures c in Children(n, t, level) {
      SenderLevel(n, s, t, c);
    }
    SubsetSize(s.got[t], Children(n, t, level));
    assert Froms(s.queues[t]) == {};
  }

  lemma InactiveHasSent(n: nat, s: State, c: nat)
    requires Inv(n, s) && 0 < c < n && !Active(n, s.nodes[c])
    ensures s.nodes[c].sent
  {
    assert NodeInv(c, s.nodes[c]);
    if n <= Pow2(s.nodes[c].level) { Remainder(c, Pow2(s.nodes[c].level), 0, c); }
  }

  /** A child above the last active thread has sent its message. */
  lemma ChildHasSent(n: nat, s: State, t: nat, c: nat)
    requires Inv(n, s) && t < n && !IsSender(t, s.nodes[t].level)
    requires c in Children(n, t, s.nodes[t].level + 1) && forall u :: t < u < n ==> !Active(n, s.nodes[u])
    ensures c in SentTo(s.nodes, t)
  {
    var level := s.nodes[t].level;
    ChildrenBounds(n, t, level + 1, c);
    var j := ChildLevel(n, t, level + 1, c);
    InactiveHasSent(n, s, c);
    ChildBit(t, level, j);
    assert NodeInv(c, s.nodes[c]);
    var k := s.nodes[c].level;
    if j < k { NoSenderBelow(c, j, k); } else if k < j { NoSenderBelow(c, k, j); }
  }

  /** The active thread with the largest id can always move. */
  lemma LargestActiveMoves(n: nat, s: State, t: nat)
    requires Inv(n, s) && t < n && Active(n, s.nodes[t])
    requires forall c :: t < c < n ==> !Active(n, s.nodes[c])
    ensures Enabled(n, s, t)
  {
    var level := s.nodes[t].level;
    if !IsSender(t, level) && t + Pow2(level) < n && s.queues[t] == [] {
      hide Children, SentTo, Pow2;
      assert MailInv(n, s.nodes, s.queues[t], s.got[t], t);
      assert Froms(s.queues[t]) == {};
      forall c | c in Children(n, t, level + 1) ensures c in s.got[t] {
        ChildHasSent(n, s, t, c);
      }
      SubsetSize(Children(n, t, level + 1), s.got[t]);
      MoreChildren(n, t, level);
    }
  }

  lemma ChildBit(t: nat, level: nat, j: nat)
    requires !IsSender(t, level) && j <= level
    ensures (t + Pow2(j)) % Pow2(j) == 0 && IsSender(t + Pow2(j), j)
  {
    MultipleOfSmallerPower(t, j + 1, level + 1);
    AddBit(t, Pow2(j));
  }

  lemma NoDeadlock(n: nat, s: State)
    requires Inv(n, s)
    ensures (forall t :: 0 <= t < n ==> !Active(n, s.nodes[t])) || exists t: nat :: t < n && Enabled(n, s, t)
  {
    var t := n;
    while 0 < t && !Active(n, s.nodes[t - 1])
      invariant 0 <= t <= n == |s.nodes| && forall c :: t <= c < n ==> !Active(n, s.nodes[c])
    {
      t := t - 1;
    }
    if 0 < t { LargestActiveMoves(n, s, t - 1); }
  }

  // ----- every run -----

  lemma InitialInv(values: seq<int>)
    requires values != []
    ensures Inv(|values|, Initial(values))
    ensures Total(Initial(values)) == Sum(values, Units())
  {
    var s := Initial(values);
    forall t | 0 <= t < |values| ensures NodeInv(t, s.nodes[t]) && MailInv(|values|, s.nodes, [], {}, t) {
      assert Froms([]) == {} && SentTo(s.nodes, t) == {};
      Remainder(t, 1, t, 0);
    }
    assert Live(s) == values;
    SumEqual(s.queues, QueueValue(), _ => 0);
    SumZero(s.queues);
    NoProgress(|values|);
  }

  function NodeProgress(): Node -> int { (node: Node) => node.level + if node.sent then 1 else 0 }

  function Progress(s: State): int { Sum(s.nodes, NodeProgress()) }

  lemma {:induction false} NoProgress(n: nat)
    ensures Sum(seq(n, _ => Node(0, false)), NodeProgress()) == 0
  {
    SumEqual(seq(n, _ => Node(0, false)), NodeProgress(), _ => 0);
    SumZero(seq(n, _ => Node(0, false)));
  }

  predicate Climbs(n: nat, s: State) {
    forall t :: 0 <= t < |s.nodes| ==> s.nodes[t].level <= n
  }

  lemma NextKeepsInv(n: nat, s: State, s': State)
    requires Inv(n, s) && Climbs(n, s) && Next(n, s, s')
    ensures Inv(n, s') && Climbs(n, s') && Total(s') == Total(s) && Progress(s') == Progress(s) + 1
  {
    hide Inv, Total;
    var t: nat :| t < n && Enabled(n, s, t) && s' == Step(n, s, t);
    StepKeepsInv(n, s, t);
    StepConserves(n, s, t);
    SumUpdate(s.nodes, t, s'.nodes[t], NodeProgress());
  }

  lemma {:induction false} EveryState(values: seq<int>, run: seq<State>, i: nat)
    requires Execution(values, run) && i < |run|
    ensures Inv(|values|, run[i]) && Climbs(|values|, run[i])
    ensures Total(run[i]) == Sum(values, Units()) && Progress(run[i]) == i
  {
    hide Inv, Next, Total;
    InitialInv(values);
    if i == 0 {
      NoProgress(|values|);
    } else {
      EveryState(values, run, i - 1);
      assert Next(|values|, run[i - 1], run[i - 1 + 1]);
      NextKeepsInv(|values|, run[i - 1], run[i]);
    }
  }

  lemma {:induction false} ProgressBound(nodes: seq<Node>, n: nat)
    requires forall t :: 0 <= t < |nodes| ==> nodes[t].level <= n
    ensures Sum(nodes, NodeProgress()) <= |nodes| * (n + 1)
  {
    if nodes != [] {
      ProgressBound(nodes[1..], n);
      assert |nodes| * (n + 1) == |nodes[1..]| * (n + 1) + (n + 1);
    }
  }

  lemma DoneThreads(n: nat, s: State, t: nat)
    requires Inv(n, s) && t < n && !Active(n, s.nodes[t])
    ensures s.queues[t] == [] && (0 < t ==> s.nodes[t].sent) && !s.nodes[0].sent
  {
    assert NodeInv(t, s.nodes[t]) && NodeInv(0, s.nodes[0]);
    if 0 < t { InactiveHasSent(n, s, t); }
    HeardFromAllChildren(n, s, t);
  }

  lemma RootHoldsTotal(s: State)
    requires |s.nodes| == |s.values| && s.nodes != [] && !s.nodes[0].sent
    requires forall t :: 0 < t < |s.nodes| ==> s.nodes[t].sent
    requires forall q :: q in s.queues ==> q == []
    ensures Total(s) == s.values[0]
  {
    var live := Live(s);
    assert live == [s.values[0]] + live[1..];
    SumEqual(live[1..], Units(), _ => 0);
    SumZero(live[1..]);
    SumEqual(s.queues, QueueValue(), _ => 0);
    SumZero(s.queues);
  }

  /** When every thread is done, all that is left is held by thread 0. */
  lemma OnlyRootIsLive(n: nat, s: State)
    requires Inv(n, s) && forall t :: 0 <= t < n ==> !Active(n, s.nodes[t])
    ensures Total(s) == s.values[0]
    ensures forall t :: 0 <= t < n ==> s.queues[t] == []
  {
    hide Total, MailInv, NodeInv;
    forall t | 0 <= t < n ensures s.queues[t] == [] && (0 < t ==> s.nodes[t].sent) && !s.nodes[0].sent {
      DoneThreads(n, s, t);
    }
    RootHoldsTotal(s);
  }

  /** Every interleaving ends, and when it does `values[0]` is the sum of all the values. */
  lemma TreeReduceCorrect(values: seq<int>, run: seq<State>)
    requires Execution(values, run)
    ensures |run| <= |values| * (|values| + 1) + 1
    ensures var s := run[|run| - 1]; var n := |values|;
            && WellFormed(n, s)
            && ((forall t: nat :: t < n ==> !Enabled(n, s, t)) ==> s.values[0] == Sum(values, Units()))
  {
    hide MailInv, NodeInv, Total;
    var s, n := run[|run| - 1], |values|;
    EveryState(values, run, |run| - 1);
    ProgressBound(s.nodes, n);
    NoDeadlock(n, s);
    if forall t: nat :: t < n ==> !Enabled(n, s, t) {
      OnlyRootIsLive(n, s);
    }
  }

  // ----- the sequential simulation -----

  /** `values[i]` for each multiple i of r is the sum of the r inputs from i on. */
  ghost predicate Reduced(input: seq<int>, values: seq<int>, r: nat)
    requires 0 < r && |values| == |input|
  {
    forall i :: 0 <= i < |input| && i % r == 0 ==> values[i] == Segment(input, i, i + r)
  }

  function Segment(input: seq<int>, lo: nat, hi: nat): int
    requires lo <= |input| && lo <= hi
  {
    Sum(input[lo..if hi < |input| then hi else |input|], Units())
  }

  lemma SegmentSplit(input: seq<int>, lo: nat, mid: nat, hi: nat)
    requires lo <= mid <= hi && mid < |input|
    ensures Segment(input, lo, hi) == Segment(input, lo, mid) + Segment(input, mid, hi)
  {
    var end := if hi < |input| then hi else |input|;
    assert input[lo..end] == input[lo..mid] + input[mid..end];
    SumConcat(input[lo..mid], input[mid..end], Units());
  }

  lemma PairUp(input: seq<int>, r: nat, i: nat)
    requires 0 < r && i < |input|
    ensures Segment(input, i, i + 2 * r) == Segment(input, i, i + r) + if i + r < |input| then Segment(input, i + r, i + 2 * r) else 0
  {
    if i + r < |input| { SegmentSplit(input, i, i + r, i + 2 * r); }
  }

  /** The inner loop has paired up the multiples of 2r below `i`. */
  ghost predicate Halfway(input: seq<int>, values: seq<int>, r: nat, i: nat)
    requires 0 < r && |values| == |input|
  {
    && i % (r * 2) == 0
    && (forall k :: 0 <= k < |input| && k % r == 0 && (k >= i || k % (r * 2) != 0) ==> values[k] == Segment(input, k, k + r))
    && (forall k :: 0 <= k < i && k < |input| && k % (r * 2) == 0 ==> values[k] == Segment(input, k, k + r * 2))
  }

  lemma HalfwayStart(input: seq<int>, values: seq<int>, r: nat)
    requires 0 < r && |values| == |input| && Reduced(input, values, r)
    ensures Halfway(input, values, r, 0)
  {}

  lemma HalfwayStep(input: seq<int>, values: seq<int>, r: nat, i: nat)
    requires 0 < r && |values| == |input| && Halfway(input, values, r, i) && i + r < |input|
    ensures Halfway(input, values[i := values[i] + values[i + r]], r, i + r * 2)
  {
    hide Segment;
    NextPair(i, r);
    PairUp(input, r, i);
  }

  lemma HalfwayDone(input: seq<int>, values: seq<int>, r: nat, i: nat)
    requires 0 < r && |values| == |input| && Halfway(input, values, r, i) && |input| <= i + r
    ensures Reduced(input, values, r * 2)
  {
    forall k | 0 <= k < |input| && k % (r * 2) == 0 ensures values[k] == Segment(input, k, k + r * 2) {
      MultipleOfHalf(k, r);
      if i <= k { PairUp(input, r, k); }
    }
  }

  lemma ReducedStart(input: seq<int>)
    ensures Reduced(input, input, 1)
  {
    forall i | 0 <= i < |input| ensures input[i] == Segment(input, i, i + 1) {
      var one := input[i..i + 1];
      assert one[1..] == [] && Sum(one[1..], Units()) == 0;
    }
  }

  lemma ReducedEnd(input: seq<int>, values: seq<int>, r: nat)
    requires 0 < |input| <= r && |values| == |input| && Reduced(input, values, r)
    ensures values[0] == Sum(input, Units())
  {
    assert input[0..|input|] == input;
    Remainder(0, r, 0, 0);
  }

  /** The same total as every run of the threads ends with. */
  method SimulateBinaryTreeReduce(values: array<int>) returns (total: int)
    requires 0 < values.Length
    modifies values
    ensures total == values[0] == Sum(old(values[..]), Units())
  {
    hide Halfway, Reduced;
    ghost var input := values[..];
    var n := values.Length;
    var r := 1;
    ReducedStart(input);
    while r < n
      invariant 0 < r && Reduced(input, values[..], r)
      decreases n - r
    {
      var rr := r * 2;
      var i := 0;
      HalfwayStart(input, values[..], r);
      while i + r < n
        invariant 0 <= i && Halfway(input, values[..], r, i)
        decreases n - i
      {
        HalfwayStep(input, values[..], r, i);
        ghost var before := values[..];
        values[i] := values[i] + values[i + r];
        assert values[..] == before[i := before[i] + before[i + r]];
        i := i + rr;
      }
      HalfwayDone(input, values[..], r, i);
      r := rr;
    }
    ReducedEnd(input, values[..], r);
    total := values[0];
  }

  lemma NextPair(i: nat, r: nat)
    requires 0 < r && i % (r * 2) == 0
    ensures (i + r) % r == 0 && i % r == 0 && (i + r) % (r * 2) != 0 && (i + r * 2) % (r * 2) == 0
    ensures forall k :: i < k < i + r * 2 ==> k % (r * 2) != 0
  {
    AddBit(i, r);
    MultipleOfHalf(i, r);
    var q := i / (r * 2);
    forall k | i <= k < i + r * 2 ensures k % (r * 2) == k - i { Remainder(k, r * 2, q, k - i); }
    Remainder(i + r * 2, r * 2, q + 1, 0);
  }

  lemma MultipleOfHalf(k: nat, r: nat)
    requires 0 < r && k % (r * 2) == 0
    ensures k % r == 0
  {
    var q := k / (r * 2);
    assert k == (q * 2) * r + 0;
    Remainder(k, r, q * 2, 0);
  }

  // ----- runs that end -----

  /** Every run can be continued until the total is in values[0]. */
  lemma RunsToTheEnd(values: seq<int>, run: seq<State>) returns (full: seq<State>)
    requires Execution(values, run)
    ensures Execution(values, full) && run <= full
    ensures var s := full[|full| - 1]; WellFormed(|values|, s) && s.values[0] == Sum(values, Units())
    decreases |values| * (|values| + 1) + 1 - |run|
  {
    TreeReduceCorrect(values, run);
    var s, n := run[|run| - 1], |values|;
    full := run;
    if t: nat :| t < n && Enabled(n, s, t) {
      var more := run + [Step(n, s, t)];
      hide Step, Enabled;
      forall i | 0 <= i < |more| - 1 ensures Next(n, more[i], more[i + 1]) {
        if i < |run| - 1 { assert Next(n, run[i], run[i + 1]); }
      }
      TreeReduceCorrect(values, more);
      full := RunsToTheEnd(values, more);
    }
  }

  lemma SomeRunEnds(values: seq<int>) returns (full: seq<State>)
    requires values != []
    ensures Execution(values, full) && full[0] == Initial(values)
    ensures var s := full[|full| - 1]; WellFormed(|values|, s) && s.values[0] == Sum(values, Units())
  {
    full := RunsToTheEnd(values, [Initial(values)]);
  }
}
