/**
  The one-pass algorithm of cpp/Strongly-connected-components.cc and python/Strongly-connected-components.py:
  Tarjan's strongly connected components with an explicit stack, one edge iterator per node, and low links that
  are taken from the neighbour's low link.
*/
module Tarjan {
  import opened Reachability

  const IN_ANOTHER_SCC := -1
  const UNVISITED := 0

  /** The variables of the algorithm. */
  datatype State = State(stack: seq<nat>, order: seq<nat>, flags: seq<int>, low: seq<int>, next: seq<nat>, gOrder: int, scc: seq<seq<nat>>)

  predicate Shape(adj: seq<seq<nat>>, s: State) {
    && |s.flags| == |s.low| == |s.next| == |adj|
    && (forall v :: 0 <= v < |adj| ==> s.next[v] <= |adj[v]|)
    && (forall i :: 0 <= i < |s.stack| ==> s.stack[i] < |adj|)
    && (forall i :: 0 <= i < |s.order| ==> s.order[i] < |adj|)
  }

  /** `order` holds the nodes that are seen but in no component yet, in the order they were first seen, and
      `stack` is the part of it that is still being explored. */
  ghost predicate Orders(adj: seq<seq<nat>>, s: State)
    requires Shape(adj, s)
  {
    && 0 <= s.gOrder
    && (forall v :: 0 <= v < |adj| ==> -1 <= s.flags[v] <= s.gOrder)
    && (forall v :: 0 <= v < |adj| ==> (v in s.order <==> 0 < s.flags[v]))
    && (forall i, j :: 0 <= i < j < |s.order| ==> s.flags[s.order[i]] < s.flags[s.order[j]])
    && (forall i :: 0 <= i < |s.stack| ==> s.stack[i] in s.order)
    && (forall i, j :: 0 <= i < j < |s.stack| ==> s.flags[s.stack[i]] < s.flags[s.stack[j]])
    && (forall x :: x in s.order ==> s.stack != [] && s.flags[s.stack[0]] <= s.flags[x])
  }

  /** `stack[i]` is the last node on the stack that was seen no later than `x`. */
  predicate Owns(adj: seq<seq<nat>>, s: State, i: nat, x: nat)
    requires Shape(adj, s) && i < |s.stack| && x < |adj|
  {
    && s.flags[s.stack[i]] <= s.flags[x]
    && (i + 1 < |s.stack| ==> s.flags[x] < s.flags[s.stack[i + 1]])
  }

  /** A stack node reaches the next one and all it owns, and its low link is no larger than theirs. */
  ghost predicate Tree(adj: seq<seq<nat>>, s: State)
    requires Shape(adj, s)
  {
    && (forall i :: 0 <= i < |s.stack| - 1 ==> Reach(adj, s.stack[i], s.stack[i + 1]))
    && (forall i, x :: 0 <= i < |s.stack| && x in s.order && Owns(adj, s, i, x) ==>
          Reach(adj, s.stack[i], x) && s.low[s.stack[i]] <= s.low[x])
  }

  ghost predicate LowIsReached(adj: seq<seq<nat>>, s: State, x: nat)
    requires Shape(adj, s) && x < |adj|
  {
    exists y :: y in s.order && s.flags[y] == s.low[x] && Reach(adj, x, y)
  }

  /** A low link names a seen node that is reached; it is smaller than the own number once the node is explored. */
  ghost predicate LowOk(adj: seq<seq<nat>>, s: State, x: nat)
    requires Shape(adj, s) && x < |adj|
  {
    && s.low[x] <= s.flags[x] && LowIsReached(adj, s, x)
    && (x !in s.stack ==> s.low[x] < s.flags[x])
  }

  ghost predicate Lows(adj: seq<seq<nat>>, s: State)
    requires Shape(adj, s)
  {
    forall x :: x in s.order ==> LowOk(adj, s, x)
  }

  /** What is known about the edges of a seen node: those looked at lead to seen nodes, and the low link is no
      larger than the number of any that is in no component yet. */
  ghost predicate EdgesOk(adj: seq<seq<nat>>, s: State, x: nat)
    requires Shape(adj, s) && x < |adj|
  {
    && (forall k :: 0 <= k < s.next[x] ==>
          adj[x][k] < |adj| && s.flags[adj[x][k]] != UNVISITED &&
          (s.flags[adj[x][k]] != IN_ANOTHER_SCC ==> s.low[x] <= s.flags[adj[x][k]]))
    && (x !in s.stack ==> s.next[x] == |adj[x]|)
  }

  ghost predicate Edges(adj: seq<seq<nat>>, s: State)
    requires Shape(adj, s)
  {
    && (forall x :: x in s.order ==> EdgesOk(adj, s, x))
    && (forall v :: 0 <= v < |adj| && s.flags[v] == UNVISITED ==> s.next[v] == 0)
  }

  /** The components found so far: no node twice, mutually reachable inside, edges only to themselves or back. */
  ghost predicate Components(adj: seq<seq<nat>>, flags: seq<int>, scc: seq<seq<nat>>)
    requires |flags| == |adj|
  {
    && (forall i :: 0 <= i < |scc| ==> scc[i] != [])
    && (forall i, a :: 0 <= i < |scc| && 0 <= a < |scc[i]| ==> scc[i][a] < |adj| && flags[scc[i][a]] == IN_ANOTHER_SCC)
    && (forall v :: 0 <= v < |adj| && flags[v] == IN_ANOTHER_SCC ==> InSome(scc, v))
    && (forall i, a, b :: 0 <= i < |scc| && 0 <= a < b < |scc[i]| ==> scc[i][a] != scc[i][b])
    && (forall i, j, v :: 0 <= i < j < |scc| && v in scc[i] ==> v !in scc[j])
    && (forall i, u, v :: 0 <= i < |scc| && u in scc[i] && v in scc[i] ==> Reach(adj, u, v))
    && (forall i, u, v :: 0 <= i < |scc| && u in scc[i] && u < |adj| && v in adj[u] ==> exists j: nat :: j <= i && InComponent(scc, v, j))
  }

  ghost predicate Inv(adj: seq<seq<nat>>, s: State) {
    && Digraph(adj) && Shape(adj, s)
    && Orders(adj, s) && Tree(adj, s) && Lows(adj, s) && Edges(adj, s)
    && Components(adj, s.flags, s.scc)
  }

  function Min(a: int, b: int): int { if a <= b then a else b }

  /** One edge to a node already seen. */
  function Scan(adj: seq<seq<nat>>, s: State, v: nat, u: nat): State
    requires Shape(adj, s) && v < |adj| && u < |adj|
  {
    var s1 := s.(next := s.next[v := s.next[v] + 1]);
    if s.flags[u] != IN_ANOTHER_SCC then s1.(low := s.low[v := Min(s.low[v], s.low[u])]) else s1
  }

  ghost predicate Scannable(adj: seq<seq<nat>>, s: State, v: nat, u: nat) {
    && Digraph(adj) && Shape(adj, s)
    && s.stack != [] && v == s.stack[|s.stack| - 1]
    && s.next[v] < |adj[v]| && u == adj[v][s.next[v]] && s.flags[u] != UNVISITED
  }

  lemma ScanShape(adj: seq<seq<nat>>, s: State, v: nat, u: nat)
    requires Scannable(adj, s, v, u)
    ensures Shape(adj, Scan(adj, s, v, u))
  {}

  lemma ScanOrders(adj: seq<seq<nat>>, s: State, v: nat, u: nat)
    requires Scannable(adj, s, v, u) && Orders(adj, s) && Shape(adj, Scan(adj, s, v, u))
    ensures Orders(adj, Scan(adj, s, v, u))
  {}

  /** A smaller low link of the stack's top keeps the tree. */
  lemma ScanTree(adj: seq<seq<nat>>, s: State, v: nat, u: nat)
    requires Scannable(adj, s, v, u) && Shape(adj, Scan(adj, s, v, u))
    requires Orders(adj, s) && Tree(adj, s)
    ensures Tree(adj, Scan(adj, s, v, u))
  {
    var s' := Scan(adj, s, v, u);
    forall i, x | 0 <= i < |s'.stack| && x in s'.order && Owns(adj, s', i, x)
      ensures Reach(adj, s'.stack[i], x) && s'.low[s'.stack[i]] <= s'.low[x]
    {
      assert Owns(adj, s, i, x);
    }
  }

  lemma ScanLow(adj: seq<seq<nat>>, s: State, v: nat, u: nat, x: nat)
    requires Scannable(adj, s, v, u) && Shape(adj, Scan(adj, s, v, u))
    requires x < |adj| && LowOk(adj, s, x) && (s.flags[u] != IN_ANOTHER_SCC ==> LowOk(adj, s, u))
    ensures LowOk(adj, Scan(adj, s, v, u), x)
  {
    var s' := Scan(adj, s, v, u);
    if x == v && s'.low[v] != s.low[v] {
      ReachEdge(adj, v, u);
      var y :| y in s.order && s.flags[y] == s.low[u] && Reach(adj, u, y);
      ReachTrans(adj, v, u, y);
    }
  }

  lemma ScanLows(adj: seq<seq<nat>>, s: State, v: nat, u: nat)
    requires Scannable(adj, s, v, u) && Shape(adj, Scan(adj, s, v, u))
    requires Orders(adj, s) && Lows(adj, s)
    ensures Lows(adj, Scan(adj, s, v, u))
  {
    hide LowOk;
    if s.flags[u] != IN_ANOTHER_SCC { assert u in s.order; }
    forall x | x in s.order ensures LowOk(adj, Scan(adj, s, v, u), x) {
      ScanLow(adj, s, v, u, x);
    }
  }

  lemma ScanEdgesOk(adj: seq<seq<nat>>, s: State, v: nat, u: nat, x: nat)
    requires Scannable(adj, s, v, u) && Shape(adj, Scan(adj, s, v, u))
    requires x < |adj| && EdgesOk(adj, s, x) && (s.flags[u] != IN_ANOTHER_SCC ==> s.low[u] <= s.flags[u])
    ensures EdgesOk(adj, Scan(adj, s, v, u), x)
  {}

  lemma SeenLow(adj: seq<seq<nat>>, s: State, u: nat)
    requires Shape(adj, s) && Orders(adj, s) && Lows(adj, s) && u < |adj| && 0 < s.flags[u]
    ensures u in s.order && LowOk(adj, s, u) && s.low[u] <= s.flags[u]
  {}

  lemma ScanEdges(adj: seq<seq<nat>>, s: State, v: nat, u: nat)
    requires Scannable(adj, s, v, u) && Shape(adj, Scan(adj, s, v, u))
    requires s.flags[u] != IN_ANOTHER_SCC ==> s.low[u] <= s.flags[u]
    requires Edges(adj, s) && s.flags[v] != UNVISITED
    ensures Edges(adj, Scan(adj, s, v, u))
  {
    hide EdgesOk;
    forall x | x in s.order ensures EdgesOk(adj, Scan(adj, s, v, u), x) {
      ScanEdgesOk(adj, s, v, u, x);
    }
  }

  lemma OnStackSeen(adj: seq<seq<nat>>, s: State, v: nat)
    requires Shape(adj, s) && Orders(adj, s) && v in s.stack
    ensures 0 < s.flags[v] && v in s.order
  {}

  lemma SeenFlag(adj: seq<seq<nat>>, s: State, u: nat)
    requires Shape(adj, s) && Orders(adj, s) && u < |adj| && s.flags[u] != UNVISITED && s.flags[u] != IN_ANOTHER_SCC
    ensures 0 < s.flags[u]
  {}

  lemma ScanKeepsInv(adj: seq<seq<nat>>, s: State, v: nat, u: nat)
    requires Inv(adj, s) && Scannable(adj, s, v, u)
    ensures Inv(adj, Scan(adj, s, v, u))
  {
    hide Orders, Tree, Lows, Edges, Components;
    ScanShape(adj, s, v, u);
    OnStackSeen(adj, s, v);
    if s.flags[u] != IN_ANOTHER_SCC {
      SeenFlag(adj, s, u);
      SeenLow(adj, s, u);
    }
    ScanOrders(adj, s, v, u);
    ScanTree(adj, s, v, u);
    ScanLows(adj, s, v, u);
    ScanEdges(adj, s, v, u);
  }

  // ----- a new node -----

  function Push(adj: seq<seq<nat>>, s: State, u: nat): State
    requires Shape(adj, s) && u < |adj|
  {
    var g := s.gOrder + 1;
    s.(stack := s.stack + [u], order := s.order + [u], gOrder := g, flags := s.flags[u := g], low := s.low[u := g])
  }

  ghost predicate Pushable(adj: seq<seq<nat>>, s: State, u: nat) {
    && Digraph(adj) && Shape(adj, s) && u < |adj| && s.flags[u] == UNVISITED
    && (s.stack != [] ==> Reach(adj, s.stack[|s.stack| - 1], u))
  }

  lemma PushOrders(adj: seq<seq<nat>>, s: State, u: nat)
    requires Pushable(adj, s, u) && Orders(adj, s)
    ensures Shape(adj, Push(adj, s, u)) && Orders(adj, Push(adj, s, u))
  {
    hide Reach;
  }

  lemma PushTree(adj: seq<seq<nat>>, s: State, u: nat)
    requires Pushable(adj, s, u) && Orders(adj, s) && Tree(adj, s) && Shape(adj, Push(adj, s, u))
    ensures Tree(adj, Push(adj, s, u))
  {
    hide Reach;
    var s' := Push(adj, s, u);
    ReachSelf(adj, u);
    forall i, x | 0 <= i < |s'.stack| && x in s'.order && Owns(adj, s', i, x)
      ensures Reach(adj, s'.stack[i], x) && s'.low[s'.stack[i]] <= s'.low[x]
    {
      if i < |s.stack| && x != u {
        assert Owns(adj, s, i, x);
      }
    }
  }

  lemma PushLow(adj: seq<seq<nat>>, s: State, u: nat, x: nat)
    requires Pushable(adj, s, u) && Shape(adj, Push(adj, s, u)) && u !in s.order
    requires x < |adj| && x != u && LowOk(adj, s, x)
    ensures LowOk(adj, Push(adj, s, u), x)
  {
    var y :| y in s.order && s.flags[y] == s.low[x] && Reach(adj, x, y);
    var s' := Push(adj, s, u);
    assert y in s'.order && s'.flags[y] == s'.low[x];
  }

  lemma PushOwnLow(adj: seq<seq<nat>>, s: State, u: nat)
    requires Pushable(adj, s, u) && Shape(adj, Push(adj, s, u))
    ensures LowOk(adj, Push(adj, s, u), u)
  {
    var s' := Push(adj, s, u);
    ReachSelf(adj, u);
    assert s'.order[|s.order|] == u && s'.stack[|s.stack|] == u;
  }

  lemma PushLows(adj: seq<seq<nat>>, s: State, u: nat)
    requires Pushable(adj, s, u) && Shape(adj, Push(adj, s, u)) && Lows(adj, s) && u !in s.order
    ensures Lows(adj, Push(adj, s, u))
  {
    hide LowOk, Reach;
    forall x | x in Push(adj, s, u).order ensures LowOk(adj, Push(adj, s, u), x) {
      if x == u { PushOwnLow(adj, s, u); } else { PushLow(adj, s, u, x); }
    }
  }

  lemma PushEdges(adj: seq<seq<nat>>, s: State, u: nat)
    requires Pushable(adj, s, u) && Shape(adj, Push(adj, s, u)) && Edges(adj, s) && u !in s.order
    ensures Edges(adj, Push(adj, s, u))
  {
    hide Reach;
    var s' := Push(adj, s, u);
    forall x | x in s'.order ensures EdgesOk(adj, s', x) {
      if x != u { assert EdgesOk(adj, s, x); } else { assert s'.stack[|s.stack|] == u; }
    }
  }

  lemma FlagsStepComponents(adj: seq<seq<nat>>, flags: seq<int>, flags': seq<int>, scc: seq<seq<nat>>)
    requires |flags| == |flags'| == |adj| && Components(adj, flags, scc)
    requires forall v :: 0 <= v < |adj| ==> (flags[v] == IN_ANOTHER_SCC <==> flags'[v] == IN_ANOTHER_SCC)
    ensures Components(adj, flags', scc)
  {}

  lemma PushKeepsInv(adj: seq<seq<nat>>, s: State, u: nat)
    requires Inv(adj, s) && Pushable(adj, s, u)
    ensures Inv(adj, Push(adj, s, u))
  {
    assert u !in s.order by { assert s.flags[u] == UNVISITED; }
    FlagsStepComponents(adj, s.flags, Push(adj, s, u).flags, s.scc) by {
      hide Components;
      assert 0 <= s.gOrder;
    }
    hide Orders, Tree, Lows, Edges, Components, Reach;
    PushOrders(adj, s, u);
    PushTree(adj, s, u);
    PushLows(adj, s, u);
    PushEdges(adj, s, u);
  }

  /** The iterator steps past the edge to the node just pushed. */
  function Advance(adj: seq<seq<nat>>, s: State, v: nat): State
    requires Shape(adj, s) && v < |adj|
  {
    s.(next := s.next[v := s.next[v] + 1])
  }

  lemma AdvanceTree(adj: seq<seq<nat>>, s: State, s': State)
    requires Shape(adj, s) && Shape(adj, s') && s' == s.(next := s'.next) && Tree(adj, s)
    ensures Tree(adj, s')
  {
    hide Reach;
    forall i, x | 0 <= i < |s'.stack| && x in s'.order && Owns(adj, s', i, x)
      ensures Reach(adj, s'.stack[i], x) && s'.low[s'.stack[i]] <= s'.low[x]
    {
      assert Owns(adj, s, i, x);
    }
  }

  lemma AdvanceLow(adj: seq<seq<nat>>, s: State, s': State, x: nat)
    requires Shape(adj, s) && Shape(adj, s') && s' == s.(next := s'.next) && x < |adj| && LowOk(adj, s, x)
    ensures LowOk(adj, s', x)
  {}

  lemma AdvanceLows(adj: seq<seq<nat>>, s: State, s': State)
    requires Shape(adj, s) && Shape(adj, s') && s' == s.(next := s'.next) && Lows(adj, s)
    ensures Lows(adj, s')
  {
    hide LowOk;
    forall x | x in s'.order ensures LowOk(adj, s', x) { AdvanceLow(adj, s, s', x); }
  }

  lemma AdvanceEdges(adj: seq<seq<nat>>, s: State, v: nat)
    requires Shape(adj, s) && Edges(adj, s) && v in s.stack && v < |adj| && s.next[v] < |adj[v]|
    requires Digraph(adj)
    requires var u := adj[v][s.next[v]]; s.low[v] <= s.flags[u] && 0 < s.flags[u] && 0 < s.flags[v]
    ensures Shape(adj, Advance(adj, s, v)) && Edges(adj, Advance(adj, s, v))
  {
    var s' := Advance(adj, s, v);
    forall x | x in s'.order ensures EdgesOk(adj, s', x) { assert EdgesOk(adj, s, x); }
  }

  lemma AdvanceKeepsInv(adj: seq<seq<nat>>, s: State, v: nat)
    requires Inv(adj, s) && v in s.stack && v < |adj| && s.next[v] < |adj[v]|
    requires var u := adj[v][s.next[v]]; s.low[v] <= s.flags[u] && 0 < s.flags[u] && 0 < s.flags[v]
    ensures Inv(adj, Advance(adj, s, v))
  {
    hide Tree, Lows, Edges, Components, Orders;
    var s' := Advance(adj, s, v);
    AdvanceEdges(adj, s, v);
    AdvanceTree(adj, s, s');
    AdvanceLows(adj, s, s');
    AdvanceOrders(adj, s, s');
  }

  lemma AdvanceOrders(adj: seq<seq<nat>>, s: State, s': State)
    requires Shape(adj, s) && Shape(adj, s') && s' == s.(next := s'.next) && Orders(adj, s)
    ensures Orders(adj, s')
  {}

  // ----- leaving a node -----

  /** `v` is explored: it leaves the stack and hands its low link to its parent. */
  function Pop(adj: seq<seq<nat>>, s: State): State
    requires Shape(adj, s) && s.stack != []
  {
    var v := s.stack[|s.stack| - 1];
    var rest := s.stack[..|s.stack| - 1];
    var s1 := s.(stack := rest);
    if rest == [] then s1 else
      var parent := rest[|rest| - 1];
      s1.(low := s.low[parent := Min(s.low[parent], s.low[v])])
  }

  ghost predicate Explored(adj: seq<seq<nat>>, s: State, v: nat) {
    && Digraph(adj) && Shape(adj, s)
    && s.stack != [] && v == s.stack[|s.stack| - 1] && s.next[v] == |adj[v]|
  }

  lemma HasParent(adj: seq<seq<nat>>, s: State, v: nat)
    requires Explored(adj, s, v) && Orders(adj, s) && LowOk(adj, s, v) && s.low[v] < s.flags[v]
    ensures 2 <= |s.stack|
  {
    var y :| y in s.order && s.flags[y] == s.low[v] && Reach(adj, v, y);
    assert s.flags[s.stack[0]] <= s.flags[y];
  }

  lemma PopOrders(adj: seq<seq<nat>>, s: State, v: nat)
    requires Explored(adj, s, v) && Orders(adj, s) && 2 <= |s.stack|
    ensures Shape(adj, Pop(adj, s)) && Orders(adj, Pop(adj, s))
  {}

  lemma PopTree(adj: seq<seq<nat>>, s: State, v: nat)
    requires Explored(adj, s, v) && Shape(adj, Pop(adj, s)) && Orders(adj, s) && Tree(adj, s) && 2 <= |s.stack|
    ensures Tree(adj, Pop(adj, s))
  {
    hide Reach;
    var s' := Pop(adj, s);
    var top := |s.stack| - 1;
    forall i, x | 0 <= i < |s'.stack| && x in s'.order && Owns(adj, s', i, x)
      ensures Reach(adj, s'.stack[i], x) && s'.low[s'.stack[i]] <= s'.low[x]
    {
      if i == top - 1 && !Owns(adj, s, i, x) {
        assert Owns(adj, s, top, x);
        ReachTrans(adj, s.stack[i], s.stack[top], x);
      } else {
        assert Owns(adj, s, i, x);
      }
    }
  }

  lemma PopLow(adj: seq<seq<nat>>, s: State, v: nat, x: nat)
    requires Explored(adj, s, v) && Shape(adj, Pop(adj, s)) && 2 <= |s.stack|
    requires forall i, j :: 0 <= i < j < |s.stack| ==> s.stack[i] != s.stack[j]
    requires s.low[v] < s.flags[v] && Reach(adj, s.stack[|s.stack| - 2], v)
    requires x < |adj| && LowOk(adj, s, x) && LowOk(adj, s, v)
    ensures LowOk(adj, Pop(adj, s), x)
  {
    var s' := Pop(adj, s);
    var parent := s.stack[|s.stack| - 2];
    if x == parent && s'.low[x] != s.low[x] {
      var y :| y in s.order && s.flags[y] == s.low[v] && Reach(adj, v, y);
      ReachTrans(adj, parent, v, y);
    }
    if x in s.stack && x !in s'.stack { assert x == v; }
  }

  lemma PopLows(adj: seq<seq<nat>>, s: State, v: nat)
    requires Explored(adj, s, v) && Shape(adj, Pop(adj, s)) && Orders(adj, s) && Tree(adj, s) && Lows(adj, s)
    requires 2 <= |s.stack| && s.low[v] < s.flags[v]
    ensures Lows(adj, Pop(adj, s))
  {
    hide LowOk, Reach;
    assert Reach(adj, s.stack[|s.stack| - 2], s.stack[|s.stack| - 2 + 1]);
    assert v in s.order;
    forall x | x in Pop(adj, s).order ensures LowOk(adj, Pop(adj, s), x) { PopLow(adj, s, v, x); }
  }

  lemma PopEdges(adj: seq<seq<nat>>, s: State, v: nat)
    requires Explored(adj, s, v) && Shape(adj, Pop(adj, s)) && Edges(adj, s)
    ensures Edges(adj, Pop(adj, s))
  {
    var s' := Pop(adj, s);
    forall x | x in s'.order ensures EdgesOk(adj, s', x) {
      assert EdgesOk(adj, s, x);
      if x in s.stack && x !in s'.stack { assert x == v; }
    }
  }

  lemma PopKeepsInv(adj: seq<seq<nat>>, s: State, v: nat)
    requires Inv(adj, s) && Explored(adj, s, v) && s.low[v] != s.flags[v]
    ensures Inv(adj, Pop(adj, s))
  {
    hide Orders, Tree, Lows, Edges, Components;
    OnStackSeen(adj, s, v);
    SeenLow(adj, s, v);
    HasParent(adj, s, v);
    PopOrders(adj, s, v);
    PopTree(adj, s, v);
    PopLows(adj, s, v);
    PopEdges(adj, s, v);
  }

  // ----- a finished component -----

  /** `v` was its own low link: what was seen from `v` on, starting at position `m`, is a component. */
  ghost predicate Root(adj: seq<seq<nat>>, s: State, v: nat, m: nat) {
    && Explored(adj, s, v) && m < |s.order| && s.order[m] == v && s.low[v] == s.flags[v]
  }

  ghost predicate Collected(adj: seq<seq<nat>>, s: State, m: nat, comp: seq<nat>, flags: seq<int>)
    requires Shape(adj, s) && m <= |s.order|
  {
    && |comp| == |s.order| - m && |flags| == |adj|
    && (forall k :: 0 <= k < |comp| ==> comp[k] == s.order[|s.order| - 1 - k])
    && (forall k :: m <= k < |s.order| ==> flags[s.order[k]] == IN_ANOTHER_SCC)
    && (forall x :: 0 <= x < |adj| && x !in s.order[m..] ==> flags[x] == s.flags[x])
  }

  function Cut(adj: seq<seq<nat>>, s: State, m: nat, comp: seq<nat>, flags: seq<int>): State
    requires Shape(adj, s) && s.stack != [] && m <= |s.order|
  {
    Pop(adj, s).(order := s.order[..m], flags := flags, scc := s.scc + [comp])
  }

  /** The nodes from position `m` on are those with a number of at least `v`'s. */
  lemma Segment(adj: seq<seq<nat>>, s: State, v: nat, m: nat, x: nat)
    requires Shape(adj, s) && Orders(adj, s) && m < |s.order| && s.order[m] == v && x < |adj|
    ensures x in s.order[m..] <==> 0 < s.flags[x] && s.flags[v] <= s.flags[x]
    ensures x in s.order[..m] <==> 0 < s.flags[x] && s.flags[x] < s.flags[v]
  {
    if 0 < s.flags[x] {
      assert x in s.order;
      var k :| 0 <= k < |s.order| && s.order[k] == x;
      if k < m { assert s.order[..m][k] == x; } else { assert s.order[m..][k - m] == x; }
    }
  }

  /** Every node seen since `v` hangs below `v`. */
  lemma BelowRoot(adj: seq<seq<nat>>, s: State, v: nat, x: nat)
    requires Explored(adj, s, v) && Orders(adj, s) && Tree(adj, s) && x < |adj| && 0 < s.flags[x] && s.flags[v] <= s.flags[x]
    ensures x in s.order && Reach(adj, v, x) && s.low[v] <= s.low[x]
    ensures x != v ==> x !in s.stack
  {
    hide Reach;
    assert Owns(adj, s, |s.stack| - 1, x);
    if x in s.stack {
      var i :| 0 <= i < |s.stack| && s.stack[i] == x;
    }
  }

  /** Every node seen since the root reaches the root: its low link leads to an earlier one that does. */
  lemma {:induction false} BackToRoot(adj: seq<seq<nat>>, s: State, v: nat, m: nat, x: nat)
    requires Root(adj, s, v, m) && Orders(adj, s) && Tree(adj, s) && Lows(adj, s)
    requires x < |adj| && 0 < s.flags[x] && s.flags[v] <= s.flags[x]
    ensures Reach(adj, x, v)
    decreases s.flags[x]
  {
    hide Reach, Tree;
    if x == v {
      ReachSelf(adj, v);
    } else {
      BelowRoot(adj, s, v, x);
      assert LowOk(adj, s, x);
      var y :| y in s.order && s.flags[y] == s.low[x] && Reach(adj, x, y);
      BackToRoot(adj, s, v, m, y);
      ReachTrans(adj, x, y, v);
    }
  }

  /** Edges out of the component lead into it or into earlier ones. */
  lemma EdgesStay(adj: seq<seq<nat>>, s: State, v: nat, m: nat, x: nat, k: nat)
    requires Root(adj, s, v, m) && Orders(adj, s) && Tree(adj, s) && Edges(adj, s)
    requires x < |adj| && 0 < s.flags[x] && s.flags[v] <= s.flags[x] && k < |adj[x]|
    ensures adj[x][k] < |adj| && (s.flags[adj[x][k]] == IN_ANOTHER_SCC || (0 < s.flags[adj[x][k]] && s.flags[v] <= s.flags[adj[x][k]]))
  {
    hide Reach, Tree;
    BelowRoot(adj, s, v, x);
    assert EdgesOk(adj, s, x);
  }

  lemma KeptFlag(adj: seq<seq<nat>>, s: State, v: nat, m: nat, comp: seq<nat>, flags: seq<int>, x: nat)
    requires Root(adj, s, v, m) && Orders(adj, s) && Collected(adj, s, m, comp, flags) && x < |adj|
    ensures 0 < flags[x] ==> x in s.order && flags[x] == s.flags[x] && s.flags[x] < s.flags[v]
    ensures flags[x] == IN_ANOTHER_SCC <==> s.flags[x] == IN_ANOTHER_SCC || x in s.order[m..]
    ensures flags[x] == UNVISITED <==> s.flags[x] == UNVISITED
    ensures x in s.order[..m] ==> 0 < flags[x]
  {
    Segment(adj, s, v, m, x);
  }

  lemma CutShape(adj: seq<seq<nat>>, s: State, v: nat, m: nat, comp: seq<nat>, flags: seq<int>)
    requires Root(adj, s, v, m) && Collected(adj, s, m, comp, flags)
    ensures Shape(adj, Cut(adj, s, m, comp, flags))
  {}

  lemma FlagRange(adj: seq<seq<nat>>, s: State, m: nat, comp: seq<nat>, flags: seq<int>, u: nat)
    requires Shape(adj, s) && Orders(adj, s) && m <= |s.order| && Collected(adj, s, m, comp, flags) && u < |adj|
    ensures -1 <= flags[u] <= s.gOrder
  {
    if u in s.order[m..] { var k :| 0 <= k < |s.order[m..]| && s.order[m..][k] == u; assert s.order[m + k] == u; }
  }

  lemma CutNode(adj: seq<seq<nat>>, s: State, v: nat, m: nat, comp: seq<nat>, flags: seq<int>, x: nat)
    requires Root(adj, s, v, m) && Orders(adj, s) && Collected(adj, s, m, comp, flags) && x < |adj|
    ensures x in s.order[..m] <==> 0 < flags[x]
    ensures x in s.order[..m] ==> x in s.order && flags[x] == s.flags[x]
    ensures -1 <= flags[x] <= s.gOrder
  {
    hide Orders, Collected;
    KeptFlag(adj, s, v, m, comp, flags, x);
    FlagRange(adj, s, m, comp, flags, x);
    Segment(adj, s, v, m, x);
  }

  lemma FirstOnStack(adj: seq<seq<nat>>, s: State, v: nat, m: nat, x: nat)
    requires Root(adj, s, v, m) && Orders(adj, s) && x in s.order[..m]
    ensures x < |adj| && 2 <= |s.stack| && s.flags[s.stack[0]] <= s.flags[x]
  {
    assert x in s.order;
    Segment(adj, s, v, m, x);
  }

  lemma CutOrders(adj: seq<seq<nat>>, s: State, v: nat, m: nat, comp: seq<nat>, flags: seq<int>)
    requires Root(adj, s, v, m) && Orders(adj, s) && Collected(adj, s, m, comp, flags)
    requires Shape(adj, Cut(adj, s, m, comp, flags))
    ensures Orders(adj, Cut(adj, s, m, comp, flags))
  {
    hide Collected, Reach;
    var order, stack := s.order[..m], s.stack[..|s.stack| - 1];
    forall x: nat | x < |adj|
      ensures x in order <==> 0 < flags[x]
      ensures x in order ==> flags[x] == s.flags[x]
      ensures -1 <= flags[x] <= s.gOrder
    {
      CutNode(adj, s, v, m, comp, flags, x);
    }
    forall i | 0 <= i < |stack| ensures stack[i] in order && stack[i] == s.stack[i] {
      StackInOrder(adj, s, v, m, i);
    }
    forall i | 0 <= i < |order| ensures order[i] == s.order[i] && order[i] in order {}
    forall x | x in order ensures stack != [] && flags[stack[0]] <= flags[x] {
      FirstOnStack(adj, s, v, m, x);
    }
    OrdersFrom(adj, s, order, stack, flags, Cut(adj, s, m, comp, flags));
  }

  lemma OrdersFrom(adj: seq<seq<nat>>, s: State, order: seq<nat>, stack: seq<nat>, flags: seq<int>, s': State)
    requires Shape(adj, s) && Orders(adj, s) && Shape(adj, s')
    requires s'.order == order && s'.stack == stack && s'.flags == flags && s'.gOrder == s.gOrder
    requires |stack| <= |s.stack| && |order| <= |s.order|
    requires forall x: nat :: x < |adj| ==> (x in order <==> 0 < flags[x]) && (x in order ==> flags[x] == s.flags[x]) && -1 <= flags[x] <= s.gOrder
    requires forall i :: 0 <= i < |stack| ==> stack[i] in order && stack[i] == s.stack[i]
    requires forall i :: 0 <= i < |order| ==> order[i] == s.order[i] && order[i] in order
    requires forall x :: x in order ==> stack != [] && flags[stack[0]] <= flags[x]
    ensures Orders(adj, s')
  {}

  lemma StackBelowRoot(adj: seq<seq<nat>>, s: State, v: nat, i: nat)
    requires Explored(adj, s, v) && Orders(adj, s) && i < |s.stack| - 1
    ensures 0 < s.flags[s.stack[i]] < s.flags[v]
  {}

  /** The parent's low link is not touched by a root. */
  lemma CutLow(adj: seq<seq<nat>>, s: State, v: nat, m: nat)
    requires Root(adj, s, v, m) && Orders(adj, s) && Lows(adj, s)
    ensures Pop(adj, s).low == s.low
  {
    hide Orders, Lows, LowOk, Reach;
    if 2 <= |s.stack| {
      var parent := s.stack[|s.stack| - 2];
      StackBelowRoot(adj, s, v, |s.stack| - 2);
      SeenLow(adj, s, parent);
      assert s.low[parent := s.low[parent]] == s.low;
    }
  }

  lemma CutTree(adj: seq<seq<nat>>, s: State, v: nat, m: nat, comp: seq<nat>, flags: seq<int>)
    requires Root(adj, s, v, m) && Orders(adj, s) && Tree(adj, s) && Collected(adj, s, m, comp, flags)
    requires Pop(adj, s).low == s.low
    requires Shape(adj, Cut(adj, s, m, comp, flags))
    ensures Tree(adj, Cut(adj, s, m, comp, flags))
  {
    hide Reach, Orders, Collected;
    var s' := Cut(adj, s, m, comp, flags);
    forall i, x | 0 <= i < |s'.stack| && x in s'.order && Owns(adj, s', i, x)
      ensures Reach(adj, s'.stack[i], x) && s'.low[s'.stack[i]] <= s'.low[x]
    {
      assert x in s.order;
      CutKeepsFlag(adj, s, v, m, comp, flags, x);
      StackInOrder(adj, s, v, m, i);
      CutKeepsFlag(adj, s, v, m, comp, flags, s.stack[i]);
      StackInOrder(adj, s, v, m, i + 1);
      if i + 1 < |s'.stack| { CutKeepsFlag(adj, s, v, m, comp, flags, s.stack[i + 1]); }
      assert Owns(adj, s, i, x);
    }
  }

  lemma CutKeepsFlag(adj: seq<seq<nat>>, s: State, v: nat, m: nat, comp: seq<nat>, flags: seq<int>, x: nat)
    requires Root(adj, s, v, m) && Orders(adj, s) && Collected(adj, s, m, comp, flags) && x in s.order[..m]
    ensures x < |adj| && x in s.order && flags[x] == s.flags[x] < s.flags[v]
  {
    assert x in s.order;
    KeptFlag(adj, s, v, m, comp, flags, x);
  }

  lemma StackInOrder(adj: seq<seq<nat>>, s: State, v: nat, m: nat, i: nat)
    requires Root(adj, s, v, m) && Orders(adj, s) && i < |s.stack|
    ensures i < |s.stack| - 1 ==> s.stack[i] in s.order[..m]
    ensures i == |s.stack| - 1 ==> s.stack[i] == v
  {
    if i < |s.stack| - 1 {
      StackBelowRoot(adj, s, v, i);
      Segment(adj, s, v, m, s.stack[i]);
    }
  }

  lemma SeenInOrder(adj: seq<seq<nat>>, s: State, y: nat)
    requires Shape(adj, s) && Orders(adj, s) && y in s.order
    ensures y < |adj| && 0 < s.flags[y]
  {}

  lemma CutLowOk(adj: seq<seq<nat>>, s: State, v: nat, m: nat, comp: seq<nat>, flags: seq<int>, x: nat)
    requires Root(adj, s, v, m) && Orders(adj, s) && Collected(adj, s, m, comp, flags)
    requires Pop(adj, s).low == s.low && Shape(adj, Cut(adj, s, m, comp, flags))
    requires x < |adj| && x in s.order[..m] && LowOk(adj, s, x)
    ensures LowOk(adj, Cut(adj, s, m, comp, flags), x)
  {
    hide Reach, Orders, Collected;
    var s' := Cut(adj, s, m, comp, flags);
    CutKeepsFlag(adj, s, v, m, comp, flags, x);
    var y :| y in s.order && s.flags[y] == s.low[x] && Reach(adj, x, y);
    SeenInOrder(adj, s, y);
    Segment(adj, s, v, m, y);
    CutKeepsFlag(adj, s, v, m, comp, flags, y);
    assert y in s'.order && s'.flags[y] == s'.low[x];
    if x in s.stack {
      var i :| 0 <= i < |s.stack| && s.stack[i] == x;
      assert s'.stack[i] == x;
    }
  }

  lemma CutLows(adj: seq<seq<nat>>, s: State, v: nat, m: nat, comp: seq<nat>, flags: seq<int>)
    requires Root(adj, s, v, m) && Orders(adj, s) && Lows(adj, s) && Collected(adj, s, m, comp, flags)
    requires Pop(adj, s).low == s.low && Shape(adj, Cut(adj, s, m, comp, flags))
    ensures Lows(adj, Cut(adj, s, m, comp, flags))
  {
    hide LowOk, Orders, Collected;
    forall x | x in s.order[..m] ensures x < |adj| && LowOk(adj, Cut(adj, s, m, comp, flags), x) {
      assert x in s.order;
      CutLowOk(adj, s, v, m, comp, flags, x);
    }
  }

  lemma CutEdgesOk(adj: seq<seq<nat>>, s: State, v: nat, m: nat, comp: seq<nat>, flags: seq<int>, x: nat)
    requires Root(adj, s, v, m) && Orders(adj, s) && Collected(adj, s, m, comp, flags)
    requires Pop(adj, s).low == s.low && Shape(adj, Cut(adj, s, m, comp, flags))
    requires x < |adj| && x in s.order[..m] && EdgesOk(adj, s, x)
    ensures EdgesOk(adj, Cut(adj, s, m, comp, flags), x)
  {
    hide Reach, Orders, Collected;
    var s' := Cut(adj, s, m, comp, flags);
    forall k | 0 <= k < s'.next[x]
      ensures adj[x][k] < |adj| && s'.flags[adj[x][k]] != UNVISITED &&
              (s'.flags[adj[x][k]] != IN_ANOTHER_SCC ==> s'.low[x] <= s'.flags[adj[x][k]])
    {
      KeptFlag(adj, s, v, m, comp, flags, adj[x][k]);
      FlagRange(adj, s, m, comp, flags, adj[x][k]);
    }
    if x in s.stack && x !in s'.stack {
      assert x == v;
    }
  }

  lemma CutEdges(adj: seq<seq<nat>>, s: State, v: nat, m: nat, comp: seq<nat>, flags: seq<int>)
    requires Root(adj, s, v, m) && Orders(adj, s) && Edges(adj, s) && Collected(adj, s, m, comp, flags)
    requires Pop(adj, s).low == s.low && Shape(adj, Cut(adj, s, m, comp, flags))
    ensures Edges(adj, Cut(adj, s, m, comp, flags))
  {
    hide EdgesOk, Orders, Collected;
    var s' := Cut(adj, s, m, comp, flags);
    forall x | x in s.order[..m] ensures x < |adj| && EdgesOk(adj, s', x) {
      assert x in s.order;
      CutEdgesOk(adj, s, v, m, comp, flags, x);
    }
    forall u | 0 <= u < |adj| && s'.flags[u] == UNVISITED ensures s'.next[u] == 0 {
      KeptFlag(adj, s, v, m, comp, flags, u);
    }
  }

  lemma InComponentFlag(adj: seq<seq<nat>>, flags: seq<int>, scc: seq<seq<nat>>, i: nat, v: nat)
    requires |flags| == |adj| && Components(adj, flags, scc) && i < |scc| && v in scc[i]
    ensures v < |adj| && flags[v] == IN_ANOTHER_SCC
  {}

  lemma OneMoreComponent(adj: seq<seq<nat>>, flags: seq<int>, flags': seq<int>, scc: seq<seq<nat>>, comp: seq<nat>)
    requires |flags| == |flags'| == |adj| && Components(adj, flags, scc)
    requires forall a :: 0 <= a < |comp| ==> comp[a] < |adj| && flags[comp[a]] != IN_ANOTHER_SCC
    requires comp != [] && forall a, b :: 0 <= a < b < |comp| ==> comp[a] != comp[b]
    requires forall v :: 0 <= v < |adj| ==> (flags'[v] == IN_ANOTHER_SCC <==> flags[v] == IN_ANOTHER_SCC || v in comp)
    requires forall u, v :: u in comp && v in comp ==> Reach(adj, u, v)
    requires forall u, v :: u in comp && u < |adj| && v in adj[u] ==> v in comp || (v < |adj| && flags[v] == IN_ANOTHER_SCC)
    ensures Components(adj, flags', scc + [comp])
  {
    hide Reach;
    var scc' := scc + [comp];
    assert scc'[|scc|] == comp;
    forall v | 0 <= v < |adj| && flags'[v] == IN_ANOTHER_SCC ensures InSome(scc', v) {
      if v in comp {
        assert InComponent(scc', v, |scc|);
      } else {
        assert InSome(scc, v);
        var i: nat :| InComponent(scc, v, i);
        assert InComponent(scc', v, i);
      }
    }
    forall i, u, v | 0 <= i < |scc'| && u in scc'[i] && u < |adj| && v in adj[u]
      ensures exists j: nat :: j <= i && InComponent(scc', v, j)
    {
      if i == |scc| {
        if v in comp {
          assert InComponent(scc', v, |scc|);
        } else {
          var j: nat :| InComponent(scc, v, j);
          assert InComponent(scc', v, j);
        }
      } else {
        var j: nat :| j <= i && InComponent(scc, v, j);
        assert InComponent(scc', v, j);
      }
    }
    forall i, j, v | 0 <= i < j < |scc'| && v in scc'[i] ensures v !in scc'[j] {
      if i < |scc| { InComponentFlag(adj, flags, scc, i, v); }
    }
  }

  lemma CutComponents(adj: seq<seq<nat>>, s: State, v: nat, m: nat, comp: seq<nat>, flags: seq<int>)
    requires Root(adj, s, v, m) && Orders(adj, s) && Tree(adj, s) && Lows(adj, s) && Edges(adj, s)
    requires Components(adj, s.flags, s.scc) && Collected(adj, s, m, comp, flags)
    ensures Components(adj, flags, s.scc + [comp])
  {
    hide Components, Reach, Tree, Lows, Edges, Orders;
    forall x ensures x in comp <==> x in s.order[m..] { CollectedSame(adj, s, m, comp, flags, x); }
    forall x | x in comp ensures x < |adj| && 0 < s.flags[x] && s.flags[v] <= s.flags[x] {
      Segment(adj, s, v, m, x);
    }
    hide Collected;
    forall x, y | x in comp && y in comp ensures Reach(adj, x, y) {
      BackToRoot(adj, s, v, m, x);
      BelowRoot(adj, s, v, y);
      ReachTrans(adj, x, v, y);
    }
    forall x, y | x in comp && x < |adj| && y in adj[x] ensures y in comp || (y < |adj| && s.flags[y] == IN_ANOTHER_SCC) {
      var k :| 0 <= k < |adj[x]| && adj[x][k] == y;
      EdgesStay(adj, s, v, m, x, k);
      Segment(adj, s, v, m, y);
    }
    forall x | 0 <= x < |adj|
      ensures flags[x] == IN_ANOTHER_SCC <==> s.flags[x] == IN_ANOTHER_SCC || x in comp
    {
      KeptFlag(adj, s, v, m, comp, flags, x);
    }
    CollectedDistinct(adj, s, m, comp, flags);
    CollectedLength(adj, s, m, comp, flags);
    OneMoreComponent(adj, s.flags, flags, s.scc, comp);
  }

  lemma CollectedSame(adj: seq<seq<nat>>, s: State, m: nat, comp: seq<nat>, flags: seq<int>, x: nat)
    requires Shape(adj, s) && m <= |s.order| && Collected(adj, s, m, comp, flags)
    ensures x in comp <==> x in s.order[m..]
  {
    var n := |s.order|;
    if x in comp {
      var k :| 0 <= k < |comp| && comp[k] == x;
      assert s.order[m..][n - 1 - k - m] == x;
    }
    if x in s.order[m..] {
      var k :| 0 <= k < n - m && s.order[m..][k] == x;
      assert comp[n - 1 - (m + k)] == x;
    }
  }

  lemma CollectedDistinct(adj: seq<seq<nat>>, s: State, m: nat, comp: seq<nat>, flags: seq<int>)
    requires Shape(adj, s) && Orders(adj, s) && m <= |s.order| && Collected(adj, s, m, comp, flags)
    ensures forall a, b :: 0 <= a < b < |comp| ==> comp[a] != comp[b]
  {
    var n := |s.order|;
    forall a, b | 0 <= a < b < |comp| ensures comp[a] != comp[b] {
      assert s.flags[s.order[n - 1 - b]] < s.flags[s.order[n - 1 - a]];
    }
  }

  lemma CutKeepsInv(adj: seq<seq<nat>>, s: State, v: nat, m: nat, comp: seq<nat>, flags: seq<int>)
    requires Inv(adj, s) && Root(adj, s, v, m) && Collected(adj, s, m, comp, flags)
    ensures Inv(adj, Cut(adj, s, m, comp, flags))
  {
    hide Orders, Tree, Lows, Edges, Components, Collected, Reach;
    CutShape(adj, s, v, m, comp, flags);
    CutOrders(adj, s, v, m, comp, flags);
    CutLow(adj, s, v, m);
    CutTree(adj, s, v, m, comp, flags);
    CutLows(adj, s, v, m, comp, flags);
    CutEdges(adj, s, v, m, comp, flags);
    CutComponents(adj, s, v, m, comp, flags);
  }

  // ----- the program -----

  ghost function Unvisited(flags: seq<int>): set<nat> { set v: nat | v < |flags| && flags[v] == UNVISITED }

  ghost function CountUnvisited(flags: seq<int>): nat { |Unvisited(flags)| }

  lemma PushVisits(flags: seq<int>, u: nat, g: int)
    requires u < |flags| && flags[u] == UNVISITED && g != UNVISITED
    ensures CountUnvisited(flags[u := g]) < CountUnvisited(flags)
  {
    assert Unvisited(flags) == Unvisited(flags[u := g]) + {u};
  }

  lemma RootPosition(adj: seq<seq<nat>>, s: State, v: nat) returns (m: nat)
    requires Shape(adj, s) && Orders(adj, s) && v in s.stack
    ensures m < |s.order| && s.order[m] == v && 0 < s.flags[v]
    ensures forall k :: 0 <= k < |s.order| && s.order[k] == v ==> k == m
  {
    m :| m < |s.order| && s.order[m] == v;
  }

  /** `v`'s iterator is at its end or at an edge to an unvisited node. */
  ghost predicate AtNewNode(adj: seq<seq<nat>>, s: State, v: nat) {
    && Digraph(adj) && Shape(adj, s) && v < |adj|
    && (s.next[v] < |adj[v]| ==> s.flags[adj[v][s.next[v]]] == UNVISITED)
  }

  class SccFinder {
    const adj: seq<seq<nat>>
    var stack: seq<nat>
    var firstSeenOrder: seq<nat>
    var flags: seq<int>
    var low: seq<int>
    var edgeItr: seq<nat>
    var gOrder: int
    var scc: seq<seq<nat>>

    function Now(): State
      reads this
    {
      State(stack, firstSeenOrder, flags, low, edgeItr, gOrder, scc)
    }

    constructor (adj: seq<seq<nat>>)
      requires Digraph(adj)
      ensures Inv(adj, Now()) && this.adj == adj && stack == []
      ensures Now() == State([], [], seq(|adj|, _ => UNVISITED), seq(|adj|, _ => 0), seq(|adj|, _ => 0), 0, [])
    {
      this.adj := adj;
      stack, firstSeenOrder, gOrder, scc := [], [], 0, [];
      flags, low, edgeItr := seq(|adj|, _ => UNVISITED), seq(|adj|, _ => 0), seq(|adj|, _ => 0);
    }

    method PushToStack(v: nat)
      requires Shape(adj, Now()) && v < |adj|
      modifies this
      ensures Now() == Push(adj, old(Now()), v)
    {
      stack := stack + [v];
      gOrder := gOrder + 1;
      flags, low := flags[v := gOrder], low[v := gOrder];
      firstSeenOrder := firstSeenOrder + [v];
    }

    /** Moves `v`'s iterator over the edges to seen nodes. */
    method ScanEdgesOf(v: nat)
      requires Inv(adj, Now()) && stack != [] && v == stack[|stack| - 1]
      modifies this`low, this`edgeItr
      ensures Inv(adj, Now()) && AtNewNode(adj, Now(), v)
    {
      hide Orders, Tree, Lows, Edges, Components;
      while edgeItr[v] < |adj[v]| && flags[adj[v][edgeItr[v]]] != UNVISITED
        invariant Inv(adj, Now())
        decreases |adj[v]| - edgeItr[v]
      {
        var u := adj[v][edgeItr[v]];
        ScanKeepsInv(adj, Now(), v, u);
        edgeItr := edgeItr[v := edgeItr[v] + 1];
        if flags[u] != IN_ANOTHER_SCC {
          low := low[v := if low[v] <= low[u] then low[v] else low[u]];
        }
      }
    }

    /** Takes the component of the root `v` off the order. */
    method CollectComponent(v: nat, ghost s: State, ghost m: nat)
      requires Inv(adj, s) && Root(adj, s, v, m)
      requires Now() == Pop(adj, s) && forall k :: 0 <= k < |s.order| && s.order[k] == v ==> k == m
      modifies this`firstSeenOrder, this`flags, this`scc
      ensures exists comp :: Collected(adj, s, m, comp, flags) && Now() == Cut(adj, s, m, comp, flags)
    {
      hide Orders, Tree, Lows, Edges, Components;
      var comp: seq<nat> := [];
      ghost var n := |s.order|;
      hide Collected;
      StartCollecting(adj, s);
      while true
        invariant m < n - |comp| && Now() == Pop(adj, s).(order := s.order[..n - |comp|], flags := flags)
        invariant Collected(adj, s, n - |comp|, comp, flags)
        decreases n - |comp|
      {
        var lastNode := firstSeenOrder[|firstSeenOrder| - 1];
        CollectOne(adj, s, n - |comp|, comp, flags);
        comp := comp + [lastNode];
        firstSeenOrder := firstSeenOrder[..|firstSeenOrder| - 1];
        flags := flags[lastNode := IN_ANOTHER_SCC];
        assert firstSeenOrder == s.order[..n - |comp|];
        if lastNode == v {
          break;
        }
      }
      scc := scc + [comp];
      assert Collected(adj, s, m, comp, flags) && Now() == Cut(adj, s, m, comp, flags);
    }

    /** Explores everything reachable from an unvisited root. */
    method Dfs(root: nat)
      requires Inv(adj, Now()) && stack == [] && root < |adj| && flags[root] == UNVISITED
      modifies this
      ensures Inv(adj, Now()) && stack == []
      ensures flags[root] != UNVISITED
      ensures forall u :: 0 <= u < |adj| && old(flags[u]) != UNVISITED ==> flags[u] != UNVISITED
    {
      hide Orders, Tree, Lows, Edges, Components, Reach;
      ghost var flags0 := flags;
      AtMostOrder(adj, Now(), root);
      PushKeepsInv(adj, Now(), root);
      PushToStack(root);
      while stack != []
        invariant Inv(adj, Now()) && |flags| == |flags0| && flags[root] != UNVISITED
        invariant forall u :: 0 <= u < |adj| && flags0[u] != UNVISITED ==> flags[u] != UNVISITED
        decreases CountUnvisited(flags), |stack|
      {
        var v := stack[|stack| - 1];
        ScanEdgesOf(v);
        if edgeItr[v] < |adj[v]| {
          var u := adj[v][edgeItr[v]];
          AtMostOrder(adj, Now(), v);
          EdgeToNewNode(adj, Now(), v, u);
          PushVisits(flags, u, gOrder + 1);
          PushToStack(u);
          edgeItr := edgeItr[v := edgeItr[v] + 1];
        } else {
          Leave(v);
        }
      }
    }

    /** `v` is explored: it leaves the stack, and its component is collected if it is the root of one. */
    method Leave(v: nat)
      requires Inv(adj, Now()) && Explored(adj, Now(), v)
      modifies this
      ensures Inv(adj, Now()) && |stack| == |old(stack)| - 1
      ensures forall u :: 0 <= u < |adj| ==> (flags[u] == UNVISITED <==> old(flags[u]) == UNVISITED)
      ensures CountUnvisited(flags) == CountUnvisited(old(flags))
    {
      hide Orders, Tree, Lows, Edges, Components, Reach, CountUnvisited;
      ghost var s := Now();
      OnStackSeen(adj, s, v);
      RootLow(adj, s, v);
      stack := stack[..|stack| - 1];
      if stack != [] {
        var parent := stack[|stack| - 1];
        low := low[parent := if low[parent] <= low[v] then low[parent] else low[v]];
      }
      assert Now() == Pop(adj, s);
      if low[v] == flags[v] {
        ghost var m := RootPosition(adj, s, v);
        CollectComponent(v, s, m);
        ghost var comp :| Collected(adj, s, m, comp, flags) && Now() == Cut(adj, s, m, comp, flags);
        CutKeepsInv(adj, s, v, m, comp, flags);
        CutVisited(adj, s, v, m, comp, flags);
      } else {
        PopKeepsInv(adj, s, v);
      }
    }
  }

  /** Handing the low link over does not touch the node that is left. */
  lemma RootLow(adj: seq<seq<nat>>, s: State, v: nat)
    requires Shape(adj, s) && Orders(adj, s) && s.stack != [] && v == s.stack[|s.stack| - 1]
    ensures Pop(adj, s).low[v] == s.low[v]
  {}

  /** Pushing the child over an edge and stepping past the edge. */
  lemma EdgeToNewNode(adj: seq<seq<nat>>, s: State, v: nat, u: nat)
    requires Inv(adj, s) && s.stack != [] && v == s.stack[|s.stack| - 1]
    requires s.next[v] < |adj[v]| && u == adj[v][s.next[v]] && s.flags[u] == UNVISITED
    ensures Shape(adj, Push(adj, s, u)) && Inv(adj, Advance(adj, Push(adj, s, u), v))
  {
    hide Tree, Lows, Edges, Components, Reach, Orders;
    ReachEdge(adj, v, u);
    PushKeepsInv(adj, s, u);
    OnStackSeen(adj, s, v);
    SeenLow(adj, s, v);
    AtMostOrder(adj, s, v);
    AdvanceKeepsInv(adj, Push(adj, s, u), v);
  }

  lemma AtMostOrder(adj: seq<seq<nat>>, s: State, v: nat)
    requires Shape(adj, s) && Orders(adj, s) && v < |adj|
    ensures 0 <= s.gOrder && s.flags[v] <= s.gOrder
  {}

  /** Collecting a component changes which nodes are in one, not which are visited. */
  lemma CutVisited(adj: seq<seq<nat>>, s: State, v: nat, m: nat, comp: seq<nat>, flags: seq<int>)
    requires Root(adj, s, v, m) && Orders(adj, s) && Collected(adj, s, m, comp, flags)
    ensures forall x :: 0 <= x < |adj| ==> (flags[x] == UNVISITED <==> s.flags[x] == UNVISITED)
    ensures CountUnvisited(flags) == CountUnvisited(s.flags)
  {
    hide Orders, Collected;
    CollectedLength(adj, s, m, comp, flags);
    forall x | 0 <= x < |adj| ensures flags[x] == UNVISITED <==> s.flags[x] == UNVISITED {
      KeptFlag(adj, s, v, m, comp, flags, x);
    }
    assert Unvisited(flags) == Unvisited(s.flags);
  }

  lemma CollectedLength(adj: seq<seq<nat>>, s: State, m: nat, comp: seq<nat>, flags: seq<int>)
    requires Shape(adj, s) && m <= |s.order| && Collected(adj, s, m, comp, flags)
    ensures |flags| == |adj| && |comp| == |s.order| - m
  {}

  lemma StartCollecting(adj: seq<seq<nat>>, s: State)
    requires Shape(adj, s)
    ensures Collected(adj, s, |s.order|, [], s.flags)
  {}

  lemma CollectOne(adj: seq<seq<nat>>, s: State, k: nat, comp: seq<nat>, flags: seq<int>)
    requires Shape(adj, s) && 0 < k <= |s.order| && Collected(adj, s, k, comp, flags)
    ensures |flags| == |adj| && s.order[k - 1] < |adj|
    ensures Collected(adj, s, k - 1, comp + [s.order[k - 1]], flags[s.order[k - 1] := IN_ANOTHER_SCC])
  {
    assert s.order[k - 1..] == [s.order[k - 1]] + s.order[k..];
  }

  lemma NoStackNoOrder(adj: seq<seq<nat>>, s: State)
    requires Inv(adj, s) && s.stack == []
    ensures forall v :: 0 <= v < |adj| ==> s.flags[v] == UNVISITED || s.flags[v] == IN_ANOTHER_SCC
  {}

  lemma OneComponentEach(adj: seq<seq<nat>>, flags: seq<int>, scc: seq<seq<nat>>, v: nat, i: nat, j: nat)
    requires |flags| == |adj| && Components(adj, flags, scc) && InComponent(scc, v, i) && InComponent(scc, v, j)
    ensures i == j
  {}

  lemma ComponentsOrdered(adj: seq<seq<nat>>, flags: seq<int>, scc: seq<seq<nat>>)
    requires |flags| == |adj| && Components(adj, flags, scc)
    ensures ReverseTopological(adj, scc)
  {
    forall i: nat, j: nat, u: nat, v: nat | InComponent(scc, u, i) && InComponent(scc, v, j) && u < |adj| && v in adj[u] ensures j <= i {
      var k: nat :| k <= i && InComponent(scc, v, k);
      OneComponentEach(adj, flags, scc, v, j, k);
    }
  }

  lemma ComponentRank(adj: seq<seq<nat>>, flags: seq<int>, scc: seq<seq<nat>>) returns (rank: seq<int>)
    requires |flags| == |adj| && Components(adj, flags, scc)
    requires forall v :: 0 <= v < |adj| ==> flags[v] == IN_ANOTHER_SCC
    ensures |rank| == |adj| && forall v: nat, i: nat :: v < |adj| && InComponent(scc, v, i) ==> rank[v] == i
  {
    rank := [];
    while |rank| < |adj|
      invariant |rank| <= |adj|
      invariant forall v: nat, i: nat :: v < |rank| && InComponent(scc, v, i) ==> rank[v] == i
    {
      var v := |rank|;
      assert InSome(scc, v);
      var i: nat :| InComponent(scc, v, i);
      forall j: nat | InComponent(scc, v, j) ensures j == i { OneComponentEach(adj, flags, scc, v, i, j); }
      rank := rank + [i];
    }
  }

  /** A path never leads to a later component, so mutual reachability stays within one. */
  lemma AllInComponents(adj: seq<seq<nat>>, s: State)
    requires Inv(adj, s) && s.stack == [] && forall v :: 0 <= v < |adj| ==> s.flags[v] != UNVISITED
    ensures IsScc(adj, s.scc) && ReverseTopological(adj, s.scc)
  {
    NoStackNoOrder(adj, s);
    hide Tree, Lows, Edges, Reach, Orders;
    ComponentsOrdered(adj, s.flags, s.scc);
    assert Partition(adj, s.scc) by {
      forall v: nat | v < |adj| ensures InSome(s.scc, v) { assert s.flags[v] == IN_ANOTHER_SCC; }
    }
    var rank := ComponentRank(adj, s.flags, s.scc);
    forall i: nat, j: nat, u: nat, v: nat | InComponent(s.scc, u, i) && InComponent(s.scc, v, j)
      ensures i == j <==> Reach(adj, u, v) && Reach(adj, v, u)
    {
      InComponentFlag(adj, s.flags, s.scc, i, u);
      InComponentFlag(adj, s.flags, s.scc, j, v);
      if Reach(adj, u, v) && Reach(adj, v, u) {
        RankFalls(adj, s.scc, rank, u, v);
        RankFalls(adj, s.scc, rank, v, u);
      }
    }
  }

  lemma RankFalls(adj: seq<seq<nat>>, scc: seq<seq<nat>>, rank: seq<int>, u: nat, v: nat)
    requires Digraph(adj) && |rank| == |adj| && u < |adj| && Reach(adj, u, v)
    requires Partition(adj, scc) && ReverseTopological(adj, scc)
    requires forall v: nat, i: nat :: v < |adj| && InComponent(scc, v, i) ==> rank[v] == i
    ensures v < |adj| && rank[v] <= rank[u]
  {
    forall x, y | 0 <= x < |adj| && y in adj[x] ensures rank[y] <= rank[x] {
      var k :| 0 <= k < |adj[x]| && adj[x][k] == y;
      assert adj[x][k] < |adj|;
      assert InSome(scc, x) && InSome(scc, y);
      var i: nat :| InComponent(scc, x, i);
      var j: nat :| InComponent(scc, y, j);
    }
    var p :| Path(adj, u, p, v);
    PathRank(adj, rank, u, p, v);
  }

  /** findSCC: the components, those that can be reached first. */
  method FindScc(adj: seq<seq<nat>>) returns (scc: seq<seq<nat>>)
    requires Digraph(adj)
    ensures IsScc(adj, scc) && ReverseTopological(adj, scc)
  {
    hide Inv, IsScc, ReverseTopological;
    var finder := new SccFinder(adj);
    for v := 0 to |adj|
      invariant fresh(finder) && finder.adj == adj && Inv(adj, finder.Now()) && finder.stack == [] && |finder.flags| == |adj|
      invariant forall u :: 0 <= u < v ==> finder.flags[u] != UNVISITED
    {
      if finder.flags[v] == UNVISITED {
        finder.Dfs(v);
        InvShape(adj, finder.Now());
      }
    }
    scc := finder.scc;
    AllInComponents(adj, finder.Now());
  }

  lemma InvShape(adj: seq<seq<nat>>, s: State)
    requires Inv(adj, s)
    ensures |s.flags| == |adj|
  {}

  lemma ReversedComponents(adj: seq<seq<nat>>, scc: seq<seq<nat>>)
    requires IsScc(adj, scc) && ReverseTopological(adj, scc)
    ensures IsScc(adj, Reversed(scc)) && Topological(adj, Reversed(scc))
  {
    hide Reach;
    var rev, n := Reversed(scc), |scc|;
    forall v, i: nat | i < n ensures InComponent(rev, v, i) <==> InComponent(scc, v, n - 1 - i) {}
    forall v: nat | v < |adj| ensures InSome(rev, v) {
      assert InSome(scc, v);
      var i: nat :| InComponent(scc, v, i);
      assert InComponent(rev, v, n - 1 - i);
    }
    forall i, j, v | 0 <= i < j < |rev| && v in rev[i] ensures v !in rev[j] {
      assert v in scc[n - 1 - i];
    }
  }

  /** onePassAlgorithm: the components in topological order. */
  method OnePassAlgorithm(adj: seq<seq<nat>>) returns (scc: seq<seq<nat>>)
    requires Digraph(adj)
    ensures IsScc(adj, scc) && Topological(adj, scc)
  {
    var found := FindScc(adj);
    scc := Reversed(found);
    ReversedComponents(adj, found);
  }
}
