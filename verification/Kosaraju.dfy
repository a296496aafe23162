/**
  KosarajuAlgorithm of cpp/Strongly-connected-components.cc: a depth-first search that notes the nodes as they finish,
  and a second one on the reversed edges, from the last to finish on, whose trees are the components.
*/
module Kosaraju {
  import opened FiniteSets
  import opened Reachability

  /** The variables of one search; marks[i] is the number of nodes finished when stack[i] was pushed. */
  datatype State = State(visited: seq<bool>, stack: seq<nat>, itr: seq<nat>, fin: seq<nat>, marks: seq<nat>)

  predicate Shape(adj: seq<seq<nat>>, s: State) {
    && |s.visited| == |s.itr| == |adj| && |s.marks| == |s.stack|
    && (forall v :: 0 <= v < |adj| ==> s.itr[v] <= |adj[v]|)
    && (forall i :: 0 <= i < |s.stack| ==> s.stack[i] < |adj|)
    && (forall a :: 0 <= a < |s.fin| ==> s.fin[a] < |adj|)
  }

  /** Every visited node is either still being explored or finished. */
  ghost predicate Visits(adj: seq<seq<nat>>, s: State)
    requires Shape(adj, s)
  {
    && Distinct(s.stack) && Distinct(s.fin)
    && (forall i, a :: 0 <= i < |s.stack| && 0 <= a < |s.fin| ==> s.stack[i] != s.fin[a])
    && (forall v :: 0 <= v < |adj| ==> (s.visited[v] <==> v in s.stack || v in s.fin))
  }

  /** A node on the stack reaches those above it and all that finished after it was pushed. */
  ghost predicate Stacked(adj: seq<seq<nat>>, s: State)
    requires Shape(adj, s)
  {
    && (forall i :: 0 <= i < |s.marks| ==> s.marks[i] <= |s.fin|)
    && (forall i, j :: 0 <= i < j < |s.marks| ==> s.marks[i] <= s.marks[j])
    && (forall i, j :: 0 <= i < j < |s.stack| ==> Reach(adj, s.stack[i], s.stack[j]))
    && (forall i, c :: 0 <= i < |s.stack| && s.marks[i] <= c < |s.fin| ==> Reach(adj, s.stack[i], s.fin[c]))
  }

  /** The edges looked at lead to visited nodes, and all edges of a finished node have been looked at. */
  ghost predicate Looked(adj: seq<seq<nat>>, s: State)
    requires Shape(adj, s)
  {
    && (forall v, k :: 0 <= v < |adj| && 0 <= k < s.itr[v] ==> adj[v][k] < |adj| && s.visited[adj[v][k]])
    && (forall a :: 0 <= a < |s.fin| ==> s.itr[s.fin[a]] == |adj[s.fin[a]]|)
  }

  /** `w` reaches everything that finishes from place `a` on until it finishes itself. */
  ghost predicate Spans(adj: seq<seq<nat>>, fin: seq<nat>, a: nat, w: nat) {
    forall b, c :: 0 <= b < |fin| && fin[b] == w && a <= c <= b ==> Reach(adj, w, fin[c])
  }

  ghost predicate OnStack(s: State, a: nat, w: nat) {
    exists i :: 0 <= i < |s.stack| && i < |s.marks| && s.stack[i] == w && s.marks[i] <= a
  }

  /** What is known of an edge from the node that finished at place `a`. */
  ghost predicate Settled(adj: seq<seq<nat>>, s: State, a: nat, w: nat) {
    a < |s.fin| && s.fin[a] < |adj| && w in adj[s.fin[a]] ==>
      (w in s.fin && Spans(adj, s.fin, a, w)) || OnStack(s, a, w)
  }

  ghost predicate Inv(adj: seq<seq<nat>>, s: State) {
    && Digraph(adj) && Shape(adj, s) && Visits(adj, s) && Stacked(adj, s) && Looked(adj, s)
    && forall a: nat, w: nat :: Settled(adj, s, a, w)
  }

  // ---- The steps of the search ----------------------------------------------------------------------------------

  function Skip(adj: seq<seq<nat>>, s: State, v: nat): State
    requires Shape(adj, s) && v < |adj|
  {
    s.(itr := s.itr[v := s.itr[v] + 1])
  }

  function Push(adj: seq<seq<nat>>, s: State, u: nat): State
    requires Shape(adj, s) && u < |adj|
  {
    s.(visited := s.visited[u := true], stack := s.stack + [u], marks := s.marks + [|s.fin|])
  }

  function Finish(s: State): State
    requires s.stack != [] && |s.marks| == |s.stack|
  {
    var top := |s.stack| - 1;
    s.(stack := s.stack[..top], marks := s.marks[..top], fin := s.fin + [s.stack[top]])
  }

  lemma SkipKeepsInv(adj: seq<seq<nat>>, s: State, v: nat)
    requires Inv(adj, s) && v < |adj| && s.itr[v] < |adj[v]| && s.visited[adj[v][s.itr[v]]]
    ensures Inv(adj, Skip(adj, s, v))
  {
    hide Reach;
    var s' := Skip(adj, s, v);
    forall a: nat, w: nat ensures Settled(adj, s', a, w) {
      assert Settled(adj, s, a, w);
      if OnStack(s, a, w) { assert OnStack(s', a, w); }
    }
  }

  /** A node is pushed as a root, or from the top of the stack along an edge. */
  lemma PushKeepsInv(adj: seq<seq<nat>>, s: State, u: nat)
    requires Inv(adj, s) && u < |adj| && !s.visited[u]
    requires s.stack != [] ==> u in adj[s.stack[|s.stack| - 1]]
    ensures Inv(adj, Push(adj, s, u))
  {
    var s', n := Push(adj, s, u), |s.stack|;
    assert u !in s.stack && u !in s.fin;
    forall i | 0 <= i < n ensures Reach(adj, s.stack[i], u) {
      var top := s.stack[n - 1];
      ReachEdge(adj, top, u);
      if i < n - 1 { ReachTrans(adj, s.stack[i], top, u); }
    }
    hide Reach;
    forall a: nat, w: nat ensures Settled(adj, s', a, w) {
      assert Settled(adj, s, a, w);
      if OnStack(s, a, w) {
        var i :| 0 <= i < n && s.stack[i] == w && s.marks[i] <= a;
        assert s'.stack[i] == w && s'.marks[i] <= a;
      }
    }
  }

  /** `w` finished before, or finishes now, having reached all that finished since place `a`. */
  lemma FinishSpans(adj: seq<seq<nat>>, s: State, a: nat, w: nat)
    requires Shape(adj, s) && Visits(adj, s) && Stacked(adj, s) && s.stack != []
    requires if w in s.fin then Spans(adj, s.fin, a, w) else w == s.stack[|s.stack| - 1] && s.marks[|s.stack| - 1] <= a
    ensures w in Finish(s).fin && Spans(adj, Finish(s).fin, a, w)
  {
    var s', n := Finish(s), |s.fin|;
    ReachSelf(adj, w);
    hide Reach;
    assert s'.fin[n] == s.stack[|s.stack| - 1];
    if w in s.fin { assert w in s'.fin; }
    forall b, c | 0 <= b < |s'.fin| && s'.fin[b] == w && a <= c <= b ensures Reach(adj, w, s'.fin[c]) {
      if b < n { assert s.fin[b] == w; }
    }
  }

  /** The edges of the node that finishes are settled, and those that led to it stay so. */
  lemma FinishSettles(adj: seq<seq<nat>>, s: State, a: nat, w: nat)
    requires Inv(adj, s) && s.stack != [] && s.itr[s.stack[|s.stack| - 1]] == |adj[s.stack[|s.stack| - 1]]|
    ensures Settled(adj, Finish(s), a, w)
  {
    hide Reach;
    var s', n, top := Finish(s), |s.fin|, |s.stack| - 1;
    var v := s.stack[top];
    assert Settled(adj, s, a, w);
    if a <= n && s'.fin[a] < |adj| && w in adj[s'.fin[a]] {
      if a == n {
        var k :| 0 <= k < |adj[v]| && adj[v][k] == w;
        assert s.visited[w];
      }
      if w in s.fin {
        FinishSpans(adj, s, a, w);
      } else {
        var i :| 0 <= i <= top && s.stack[i] == w && s.marks[i] <= a;
        if i < top {
          assert s'.stack[i] == w && s'.marks[i] <= a;
        } else {
          FinishSpans(adj, s, a, w);
        }
      }
    }
  }

  lemma FinishKeepsInv(adj: seq<seq<nat>>, s: State)
    requires Inv(adj, s) && s.stack != [] && s.itr[s.stack[|s.stack| - 1]] == |adj[s.stack[|s.stack| - 1]]|
    ensures Inv(adj, Finish(s))
  {
    forall a: nat, w: nat ensures Settled(adj, Finish(s), a, w) { FinishSettles(adj, s, a, w); }
    hide Reach, Settled;
    var s', n, top := Finish(s), |s.fin|, |s.stack| - 1;
    forall v | 0 <= v < |adj| ensures s'.visited[v] <==> v in s'.stack || v in s'.fin {
      if v == s.stack[top] { assert s'.fin[n] == v; }
    }
  }

  // ---- One tree -------------------------------------------------------------------------------------------------

  /** The search from `root` began when `start` nodes had finished; at its end the root has finished last. */
  ghost predicate From(adj: seq<seq<nat>>, s: State, root: nat, start: nat)
    requires Shape(adj, s)
  {
    && start <= |s.fin|
    && (if s.stack != [] then s.stack[0] == root && s.marks[0] == start
        else start < |s.fin| && s.fin[|s.fin| - 1] == root)
    && (s.stack == [] ==> forall c :: start <= c < |s.fin| ==> Reach(adj, root, s.fin[c]))
  }

  lemma FinishFrom(adj: seq<seq<nat>>, s: State, root: nat, start: nat)
    requires Shape(adj, s) && Stacked(adj, s) && s.stack != [] && From(adj, s, root, start) && Shape(adj, Finish(s))
    ensures From(adj, Finish(s), root, start)
  {
    ReachSelf(adj, root);
  }

  ghost function Unvisited(visited: seq<bool>): set<nat> { set v: nat | v < |visited| && !visited[v] }

  lemma VisitOne(visited: seq<bool>, u: nat)
    requires u < |visited| && !visited[u]
    ensures |Unvisited(visited[u := true])| < |Unvisited(visited)|
  {
    assert Unvisited(visited) == Unvisited(visited[u := true]) + {u};
  }

  class DepthFirst {
    const adj: seq<seq<nat>>
    var visited: seq<bool>
    var stack: seq<nat>
    var edgeItr: seq<nat>
    var finished: seq<nat>
    ghost var marks: seq<nat>

    ghost function Now(): State
      reads this
    {
      State(visited, stack, edgeItr, finished, marks)
    }

    constructor (adj: seq<seq<nat>>)
      requires Digraph(adj)
      ensures this.adj == adj && Inv(adj, Now()) && stack == [] && finished == []
    {
      this.adj := adj;
      visited, edgeItr := seq(|adj|, _ => false), seq(|adj|, _ => 0);
      stack, finished, marks := [], [], [];
    }

    /** Moves the iterator of the top of the stack over the edges to visited nodes. */
    method SkipVisited(v: nat)
      requires Inv(adj, Now()) && v < |adj|
      modifies this`edgeItr
      ensures Inv(adj, Now())
      ensures edgeItr[v] < |adj[v]| ==> adj[v][edgeItr[v]] < |adj| && !visited[adj[v][edgeItr[v]]]
    {
      hide Visits, Stacked, Looked, Settled;
      while edgeItr[v] < |adj[v]| && visited[adj[v][edgeItr[v]]]
        invariant Inv(adj, Now())
        decreases |adj[v]| - edgeItr[v]
      {
        SkipKeepsInv(adj, Now(), v);
        edgeItr := edgeItr[v := edgeItr[v] + 1];
      }
    }

    method PushNode(u: nat)
      requires Inv(adj, Now()) && u < |adj| && !visited[u] && (stack != [] ==> u in adj[stack[|stack| - 1]])
      modifies this`visited, this`stack, this`marks
      ensures Now() == Push(adj, old(Now()), u) && Inv(adj, Now())
      ensures |Unvisited(visited)| < |Unvisited(old(visited))|
    {
      hide Visits, Stacked, Looked, Settled;
      PushKeepsInv(adj, Now(), u);
      VisitOne(visited, u);
      stack := stack + [u];
      visited := visited[u := true];
      marks := marks + [|finished|];
    }

    /** Explores what is not visited yet from `root`; the nodes that finish are the next tree. */
    method Explore(root: nat) returns (tree: seq<nat>)
      requires Inv(adj, Now()) && stack == [] && root < |adj| && !visited[root]
      modifies this
      ensures Inv(adj, Now()) && stack == [] && finished == old(finished) + tree
      ensures tree != [] && tree[|tree| - 1] == root
      ensures forall x :: x in tree ==> Reach(adj, root, x)
    {
      hide Visits, Stacked, Looked, Settled, Reach, Unvisited;
      ghost var start := |finished|;
      tree := [];
      PushNode(root);
      while stack != []
        invariant Inv(adj, Now()) && From(adj, Now(), root, start) && finished == old(finished) + tree
        decreases |Unvisited(visited)|, |stack|
      {
        var v := stack[|stack| - 1];
        SkipVisited(v);
        if edgeItr[v] == |adj[v]| {
          FinishKeepsInv(adj, Now());
          FinishFrom(adj, Now(), root, start);
          finished := finished + [v];
          tree := tree + [v];
          stack, marks := stack[..|stack| - 1], marks[..|stack| - 1];
        } else {
          var next := adj[v][edgeItr[v]];
          PushNode(next);
          SkipKeepsInv(adj, Now(), v);
          edgeItr := edgeItr[v := edgeItr[v] + 1];
        }
      }
      forall i | 0 <= i < |tree| ensures Reach(adj, root, tree[i]) { assert tree[i] == finished[start + i]; }
    }
  }

  // ---- All trees ------------------------------------------------------------------------------------------------

  ghost predicate Piece(fin: seq<nat>, trees: seq<seq<nat>>, cuts: seq<nat>, k: nat) {
    k + 1 < |cuts| && k < |trees| ==> cuts[k] <= cuts[k + 1] <= |fin| && trees[k] == fin[cuts[k]..cuts[k + 1]]
  }

  /** The trees are what finished, cut in pieces. */
  ghost predicate Cut(fin: seq<nat>, trees: seq<seq<nat>>, cuts: seq<nat>) {
    && |cuts| == |trees| + 1 && cuts[0] == 0 && cuts[|trees|] == |fin|
    && (forall i, j :: 0 <= i < j < |cuts| ==> cuts[i] < cuts[j])
    && (forall k: nat :: Piece(fin, trees, cuts, k))
  }

  lemma TreeOf(fin: seq<nat>, trees: seq<seq<nat>>, cuts: seq<nat>, a: nat) returns (k: nat)
    requires Cut(fin, trees, cuts) && a < |fin|
    ensures InComponent(trees, fin[a], k) && cuts[k] <= a < cuts[k + 1]
  {
    k := 0;
    while cuts[k + 1] <= a
      invariant k < |trees| && cuts[k] <= a
      decreases |trees| - k
    {
      assert k + 1 != |trees|;
      k := k + 1;
    }
    assert Piece(fin, trees, cuts, k) && trees[k][a - cuts[k]] == fin[a];
  }

  ghost predicate InUpTo(trees: seq<seq<nat>>, w: nat, k: int) { exists j: nat :: j <= k && InComponent(trees, w, j) }

  /** All before `root` in the order are in trees before `k`. */
  ghost predicate FirstLeft(order: seq<nat>, trees: seq<seq<nat>>, root: nat, k: nat) {
    exists p :: 0 <= p < |order| && order[p] == root && forall q :: 0 <= q < p ==> InUpTo(trees, order[q], k - 1)
  }

  /** Tree `k` is reached from its last node, which was the first in the order outside the trees before it, and no edge
      leads from it to a later tree. */
  ghost predicate TreeOk(adj: seq<seq<nat>>, order: seq<nat>, trees: seq<seq<nat>>, k: nat) {
    k < |trees| ==>
      && trees[k] != []
      && (forall x :: x in trees[k] ==> x < |adj| && Reach(adj, trees[k][|trees[k]| - 1], x))
      && (forall x, w :: x in trees[k] && x < |adj| && w in adj[x] ==> InUpTo(trees, w, k))
      && FirstLeft(order, trees, trees[k][|trees[k]| - 1], k)
  }

  lemma InUpToMore(trees: seq<seq<nat>>, tree: seq<nat>, w: nat, k: int)
    requires InUpTo(trees, w, k)
    ensures InUpTo(trees + [tree], w, k)
  {
    var j: nat :| j <= k && InComponent(trees, w, j);
    assert InComponent(trees + [tree], w, j);
  }

  lemma TreeStays(adj: seq<seq<nat>>, order: seq<nat>, trees: seq<seq<nat>>, tree: seq<nat>, k: nat)
    requires TreeOk(adj, order, trees, k) && k < |trees|
    ensures TreeOk(adj, order, trees + [tree], k)
  {
    hide Reach;
    var all := trees + [tree];
    assert all[k] == trees[k];
    forall x, w | x in all[k] && x < |adj| && w in adj[x] ensures InUpTo(all, w, k) { InUpToMore(trees, tree, w, k); }
    var root := trees[k][|trees[k]| - 1];
    var p :| 0 <= p < |order| && order[p] == root && forall q :: 0 <= q < p ==> InUpTo(trees, order[q], k - 1);
    forall q | 0 <= q < p ensures InUpTo(all, order[q], k - 1) { InUpToMore(trees, tree, order[q], k - 1); }
  }

  lemma FinishedInTree(fin: seq<nat>, trees: seq<seq<nat>>, cuts: seq<nat>, w: nat)
    requires Cut(fin, trees, cuts) && w in fin
    ensures InUpTo(trees, w, |trees| - 1)
  {
    var a :| 0 <= a < |fin| && fin[a] == w;
    var k := TreeOf(fin, trees, cuts, a);
  }

  /** With an empty stack the edges of finished nodes lead to finished nodes. */
  lemma EdgesFinish(adj: seq<seq<nat>>, s: State, x: nat, w: nat)
    requires Inv(adj, s) && s.stack == [] && x in s.fin && x < |adj| && w in adj[x]
    ensures w in s.fin
  {
    hide Stacked, Settled;
    var a :| 0 <= a < |s.fin| && s.fin[a] == x;
    var k :| 0 <= k < |adj[x]| && adj[x][k] == w;
    assert s.visited[w];
  }

  lemma CutMore(fin: seq<nat>, trees: seq<seq<nat>>, cuts: seq<nat>, tree: seq<nat>)
    requires Cut(fin, trees, cuts) && tree != []
    ensures Cut(fin + tree, trees + [tree], cuts + [|fin + tree|])
  {
    var fin', all, cuts' := fin + tree, trees + [tree], cuts + [|fin + tree|];
    forall k: nat ensures Piece(fin', all, cuts', k) {
      assert Piece(fin, trees, cuts, k);
      if k < |trees| { assert fin[cuts[k]..cuts[k + 1]] == fin'[cuts[k]..cuts[k + 1]]; }
    }
  }

  lemma TreeGrown(adj: seq<seq<nat>>, order: seq<nat>, s: State, fin: seq<nat>, trees: seq<seq<nat>>, cuts: seq<nat>, tree: seq<nat>, p: nat)
    requires Inv(adj, s) && s.stack == [] && s.fin == fin + tree && Cut(fin, trees, cuts)
    requires p < |order| && tree != [] && tree[|tree| - 1] == order[p]
    requires (forall x :: x in tree ==> Reach(adj, order[p], x)) && forall q :: 0 <= q < p ==> order[q] in fin
    ensures Cut(s.fin, trees + [tree], cuts + [|s.fin|])
    ensures TreeOk(adj, order, trees + [tree], |trees|)
  {
    hide Reach;
    var all, n := trees + [tree], |trees|;
    CutMore(fin, trees, cuts, tree);
    hide Cut;
    forall x | x in tree ensures x in s.fin && x < |adj| {
      var i :| 0 <= i < |tree| && tree[i] == x;
      assert s.fin[|fin| + i] == x;
    }
    forall x, w | x in tree && x < |adj| && w in adj[x] ensures InUpTo(all, w, n) {
      EdgesFinish(adj, s, x, w);
      FinishedInTree(s.fin, all, cuts + [|s.fin|], w);
    }
    forall q | 0 <= q < p ensures InUpTo(all, order[q], n - 1) {
      FinishedInTree(fin, trees, cuts, order[q]);
      InUpToMore(trees, tree, order[q], n - 1);
    }
  }

  // ---- The two searches -----------------------------------------------------------------------------------------

  /** Every node once, and an edge leads to an earlier node or to one that reaches all that finished in between. */
  ghost predicate FinishOrder(adj: seq<seq<nat>>, fin: seq<nat>) {
    && Distinct(fin) && (forall v: nat :: v in fin <==> v < |adj|)
    && (forall a: nat, w: nat :: a < |fin| && fin[a] < |adj| && w in adj[fin[a]] ==> Spans(adj, fin, a, w))
  }

  ghost predicate Forest(adj: seq<seq<nat>>, order: seq<nat>, trees: seq<seq<nat>>) {
    Partition(adj, trees) && forall k: nat :: TreeOk(adj, order, trees, k)
  }

  ghost predicate Covers(adj: seq<seq<nat>>, order: seq<nat>) { forall v: nat :: v in order <==> v < |adj| }

  /** The lambda `dfs`: the nodes as they finish, and tree by tree. */
  method Search(adj: seq<seq<nat>>, order: seq<nat>) returns (fin: seq<nat>, trees: seq<seq<nat>>)
    requires Digraph(adj) && Covers(adj, order)
    ensures FinishOrder(adj, fin) && Forest(adj, order, trees)
  {
    hide Inv, TreeOk, Reach;
    var search := new DepthFirst(adj);
    trees := [];
    ghost var cuts: seq<nat> := [0];
    for p := 0 to |order|
      invariant fresh(search) && search.adj == adj && search.stack == [] && Inv(adj, search.Now())
      invariant Cut(search.finished, trees, cuts) && forall k: nat :: k < |trees| ==> TreeOk(adj, order, trees, k)
      invariant forall q :: 0 <= q < p ==> order[q] in search.finished
    {
      var root := order[p];
      assert root in order;
      VisitedFinished(adj, search.Now());
      if !search.visited[root] {
        ghost var fin0 := search.finished;
        var tree := search.Explore(root);
        TreeGrown(adj, order, search.Now(), fin0, trees, cuts, tree, p);
        forall k: nat | k < |trees| ensures TreeOk(adj, order, trees + [tree], k) { TreeStays(adj, order, trees, tree, k); }
        trees, cuts := trees + [tree], cuts + [|search.finished|];
        assert root in tree;
      }
    }
    fin := search.finished;
    SearchDone(adj, order, search.Now(), trees, cuts);
  }

  lemma VisitedFinished(adj: seq<seq<nat>>, s: State)
    requires Inv(adj, s) && s.stack == []
    ensures |s.visited| == |adj| && forall v :: 0 <= v < |adj| ==> (s.visited[v] <==> v in s.fin)
  {}

  lemma SearchDone(adj: seq<seq<nat>>, order: seq<nat>, s: State, trees: seq<seq<nat>>, cuts: seq<nat>)
    requires Inv(adj, s) && s.stack == [] && Covers(adj, order) && Cut(s.fin, trees, cuts)
    requires forall q :: 0 <= q < |order| ==> order[q] in s.fin
    requires forall k: nat :: k < |trees| ==> TreeOk(adj, order, trees, k)
    ensures FinishOrder(adj, s.fin) && Forest(adj, order, trees)
  {
    forall a: nat, w: nat | a < |s.fin| && s.fin[a] < |adj| && w in adj[s.fin[a]] ensures Spans(adj, s.fin, a, w) {
      assert Settled(adj, s, a, w);
    }
    hide Reach, Stacked, Looked, Settled;
    forall v: nat | v < |adj| ensures v in s.fin {
      assert v in order;
      var q :| 0 <= q < |order| && order[q] == v;
    }
    forall v: nat | v < |adj| ensures InSome(trees, v) {
      assert v in s.fin;
      var a :| 0 <= a < |s.fin| && s.fin[a] == v;
      var k := TreeOf(s.fin, trees, cuts, a);
    }
    PiecesApart(s.fin, trees, cuts);
    forall i, a | 0 <= i < |trees| && 0 <= a < |trees[i]| ensures trees[i][a] < |adj| {
      assert TreeOk(adj, order, trees, i) && trees[i][a] in trees[i];
    }
    forall k: nat ensures TreeOk(adj, order, trees, k) {}
  }

  lemma PiecesApart(fin: seq<nat>, trees: seq<seq<nat>>, cuts: seq<nat>)
    requires Distinct(fin) && Cut(fin, trees, cuts)
    ensures forall k :: 0 <= k < |trees| ==> trees[k] != []
    ensures forall i, a, b :: 0 <= i < |trees| && 0 <= a < b < |trees[i]| ==> trees[i][a] != trees[i][b]
    ensures forall i, j, v :: 0 <= i < j < |trees| && v in trees[i] ==> v !in trees[j]
  {
    forall i, a, b | 0 <= i < |trees| && 0 <= a < b < |trees[i]| ensures trees[i][a] != trees[i][b] {
      assert Piece(fin, trees, cuts, i);
    }
    forall k | 0 <= k < |trees| ensures trees[k] != [] { assert Piece(fin, trees, cuts, k); }
    forall i, j, v | 0 <= i < j < |trees| && v in trees[i] ensures v !in trees[j] {
      assert Piece(fin, trees, cuts, i) && Piece(fin, trees, cuts, j);
      var a :| 0 <= a < |trees[i]| && trees[i][a] == v;
      assert cuts[i + 1] <= cuts[j];
      forall b | 0 <= b < |trees[j]| ensures trees[j][b] != v {
        assert fin[cuts[i] + a] == v && trees[j][b] == fin[cuts[j] + b];
      }
    }
  }

  // ---- Why the trees are the components -------------------------------------------------------------------------

  lemma EdgeTarget(adj: seq<seq<nat>>, u: nat, w: nat)
    requires Digraph(adj) && u < |adj| && w in adj[u]
    ensures w < |adj|
  {
    var k :| 0 <= k < |adj[u]| && adj[u][k] == w;
  }

  /** If nothing reachable from place `a` finishes after place `b`, which is reachable, then `b` reaches everything that
      finished from `a` to `b`. */
  lemma {:induction false} ReachesBack(adj: seq<seq<nat>>, fin: seq<nat>, a: nat, path: seq<nat>, b: nat)
    requires Digraph(adj) && FinishOrder(adj, fin) && a < |fin| && b < |fin| && Path(adj, fin[a], path, fin[b])
    requires forall c :: 0 <= c < |fin| && Reach(adj, fin[a], fin[c]) ==> c <= b
    ensures forall c :: a <= c <= b ==> Reach(adj, fin[b], fin[c])
    decreases |path|
  {
    if path == [] {
      ReachSelf(adj, fin[a]);
    } else {
      var w := path[0];
      EdgeTarget(adj, fin[a], w);
      assert w in fin;
      var d :| 0 <= d < |fin| && fin[d] == w;
      ReachEdge(adj, fin[a], w);
      forall c | 0 <= c < |fin| && Reach(adj, w, fin[c]) ensures c <= b { ReachTrans(adj, fin[a], w, fin[c]); }
      ReachesBack(adj, fin, d, path[1..], b);
      assert Spans(adj, fin, a, w);
      forall c | a <= c <= b ensures Reach(adj, fin[b], fin[c]) {
        if c < d { ReachTrans(adj, fin[b], w, fin[c]); }
      }
    }
  }

  /** The last to finish of what place `a` reaches. */
  lemma LastReached(adj: seq<seq<nat>>, fin: seq<nat>, a: nat) returns (b: nat)
    requires a < |fin|
    ensures a <= b < |fin| && Reach(adj, fin[a], fin[b])
    ensures forall c :: 0 <= c < |fin| && Reach(adj, fin[a], fin[c]) ==> c <= b
  {
    ReachSelf(adj, fin[a]);
    hide Reach;
    b := a;
    for i := 0 to |fin|
      invariant a <= b < |fin| && Reach(adj, fin[a], fin[b]) && forall c :: 0 <= c < i && Reach(adj, fin[a], fin[c]) ==> c <= b
    {
      if b < i && Reach(adj, fin[a], fin[i]) { b := i; }
    }
  }

  /** The edges the other way round, as `reverse` leaves them. */
  ghost predicate Transposed(adj: seq<seq<nat>>, radj: seq<seq<nat>>) {
    |radj| == |adj| && forall x, y :: 0 <= x < |adj| && 0 <= y < |adj| ==> (y in radj[x] <==> x in adj[y])
  }

  lemma {:induction false} PathBack(adj: seq<seq<nat>>, radj: seq<seq<nat>>, u: nat, path: seq<nat>, v: nat)
    requires Digraph(adj) && Digraph(radj) && Transposed(adj, radj) && Path(radj, u, path, v)
    ensures Reach(adj, v, u)
    decreases |path|
  {
    if path == [] {
      ReachSelf(adj, u);
    } else {
      var w := path[0];
      EdgeTarget(radj, u, w);
      PathBack(adj, radj, w, path[1..], v);
      ReachEdge(adj, w, u);
      ReachTrans(adj, v, w, u);
    }
  }

  lemma ReachBack(adj: seq<seq<nat>>, radj: seq<seq<nat>>, u: nat, v: nat)
    requires Digraph(adj) && Digraph(radj) && Transposed(adj, radj)
    ensures Reach(radj, u, v) <==> Reach(adj, v, u)
  {
    if Reach(radj, u, v) {
      var path :| Path(radj, u, path, v);
      PathBack(adj, radj, u, path, v);
    }
    if Reach(adj, v, u) {
      var path :| Path(adj, v, path, u);
      PathBack(radj, adj, v, path, u);
    }
  }

  /** No path leads to a later tree. */
  lemma {:induction false} PathStays(adj: seq<seq<nat>>, order: seq<nat>, trees: seq<seq<nat>>, i: nat, u: nat, path: seq<nat>, v: nat, j: nat)
    requires Digraph(adj) && Forest(adj, order, trees) && InComponent(trees, u, i) && InComponent(trees, v, j) && Path(adj, u, path, v)
    ensures j <= i
    decreases |path|
  {
    if path != [] {
      assert TreeOk(adj, order, trees, i) && InUpTo(trees, path[0], i);
      var k: nat :| k <= i && InComponent(trees, path[0], k);
      PathStays(adj, order, trees, k, path[0], path[1..], v, j);
    }
  }

  /** The root of a tree of the second search reaches all of it: of what a node reaches, the last to finish is the root. */
  lemma RootReaches(adj: seq<seq<nat>>, radj: seq<seq<nat>>, fin: seq<nat>, order: seq<nat>, trees: seq<seq<nat>>, k: nat, x: nat)
    requires Digraph(adj) && Digraph(radj) && Transposed(adj, radj) && FinishOrder(adj, fin) && Forest(radj, order, trees)
    requires |order| == |fin| && (forall i :: 0 <= i < |fin| ==> order[i] == fin[|fin| - 1 - i]) && InComponent(trees, x, k)
    ensures var r := trees[k][|trees[k]| - 1]; Reach(adj, x, r) && Reach(adj, r, x)
  {
    var r := trees[k][|trees[k]| - 1];
    assert TreeOk(radj, order, trees, k);
    ReachBack(adj, radj, r, x);
    assert x in fin;
    var a :| 0 <= a < |fin| && fin[a] == x;
    var b := LastReached(adj, fin, a);
    LastIsRoot(adj, radj, fin, order, trees, k, a, b);
    var path :| Path(adj, x, path, fin[b]);
    ReachesBack(adj, fin, a, path, b);
  }

  lemma LastIsRoot(adj: seq<seq<nat>>, radj: seq<seq<nat>>, fin: seq<nat>, order: seq<nat>, trees: seq<seq<nat>>, k: nat, a: nat, b: nat)
    requires Digraph(adj) && Digraph(radj) && Transposed(adj, radj) && Forest(radj, order, trees) && Distinct(fin)
    requires |order| == |fin| && (forall i :: 0 <= i < |fin| ==> order[i] == fin[|fin| - 1 - i])
    requires a < |fin| && b < |fin| && InComponent(trees, fin[a], k) && Reach(adj, fin[a], fin[b])
    requires forall c :: 0 <= c < |fin| && Reach(adj, fin[a], fin[c]) ==> c <= b
    requires trees[k] != [] && Reach(adj, fin[a], trees[k][|trees[k]| - 1])
    ensures fin[b] == trees[k][|trees[k]| - 1]
  {
    var n, r := |fin|, trees[k][|trees[k]| - 1];
    assert TreeOk(radj, order, trees, k);
    var p :| 0 <= p < |order| && order[p] == r && forall q :: 0 <= q < p ==> InUpTo(trees, order[q], k - 1);
    assert fin[n - 1 - p] == r;
    hide Reach, TreeOk;
    var q := n - 1 - b;
    if q < p {
      assert InUpTo(trees, order[q], k - 1);
      var j: nat :| j <= k - 1 && InComponent(trees, order[q], j);
      assert order[q] == fin[b];
      LaterStays(adj, radj, order, trees, j, fin[b], k, fin[a]);
    }
  }

  /** What a node of an earlier tree is reached from is in an earlier tree as well. */
  lemma LaterStays(adj: seq<seq<nat>>, radj: seq<seq<nat>>, order: seq<nat>, trees: seq<seq<nat>>, j: nat, v: nat, k: nat, x: nat)
    requires Digraph(adj) && Digraph(radj) && Transposed(adj, radj) && Forest(radj, order, trees)
    requires InComponent(trees, v, j) && InComponent(trees, x, k) && Reach(adj, x, v)
    ensures k <= j
  {
    ReachBack(adj, radj, v, x);
    var path :| Path(radj, v, path, x);
    PathStays(radj, order, trees, j, v, path, x, k);
  }

  lemma TreesAreComponents(adj: seq<seq<nat>>, radj: seq<seq<nat>>, fin: seq<nat>, order: seq<nat>, trees: seq<seq<nat>>)
    requires Digraph(adj) && Digraph(radj) && Transposed(adj, radj) && FinishOrder(adj, fin) && Forest(radj, order, trees)
    requires |order| == |fin| && (forall i :: 0 <= i < |fin| ==> order[i] == fin[|fin| - 1 - i])
    ensures IsScc(adj, trees) && Topological(adj, trees)
  {
    hide Reach, FinishOrder;
    forall i: nat, j: nat, u: nat, v: nat | InComponent(trees, u, i) && InComponent(trees, v, j)
      ensures i == j <==> Reach(adj, u, v) && Reach(adj, v, u)
    {
      RootReaches(adj, radj, fin, order, trees, i, u);
      RootReaches(adj, radj, fin, order, trees, j, v);
      if i == j {
        var r := trees[i][|trees[i]| - 1];
        ReachTrans(adj, u, r, v);
        ReachTrans(adj, v, r, u);
      }
      if Reach(adj, u, v) && Reach(adj, v, u) {
        LaterStays(adj, radj, order, trees, j, v, i, u);
        LaterStays(adj, radj, order, trees, i, u, j, v);
      }
    }
    forall i: nat, j: nat, u: nat, v: nat | InComponent(trees, u, i) && InComponent(trees, v, j) && u < |adj| && v in adj[u] ensures i <= j {
      ReachEdge(adj, u, v);
      LaterStays(adj, radj, order, trees, j, v, i, u);
    }
  }

  /** KosarajuAlgorithm; `radj` has the edges after `reverse`. */
  method KosarajuAlgorithm(adj: seq<seq<nat>>, radj: seq<seq<nat>>) returns (scc: seq<seq<nat>>)
    requires Digraph(adj) && Digraph(radj) && Transposed(adj, radj)
    ensures IsScc(adj, scc) && Topological(adj, scc)
  {
    var nodeOrder := seq(|adj|, i requires 0 <= i < |adj| => i);
    forall v: nat ensures v in nodeOrder <==> v < |adj| { if v < |adj| { assert nodeOrder[v] == v; } }
    var dfsOrder, _ := Search(adj, nodeOrder);
    var order := Reversed(dfsOrder);
    forall v: nat ensures v in order <==> v < |radj| { ReversedHolds(dfsOrder, v); }
    var _, trees := Search(radj, order);
    scc := trees;
    TreesAreComponents(adj, radj, dfsOrder, order, scc);
  }

  lemma ReversedHolds(s: seq<nat>, v: nat)
    ensures v in Reversed(s) <==> v in s
  {
    if v in s {
      var i :| 0 <= i < |s| && s[i] == v;
      assert Reversed(s)[|s| - 1 - i] == v;
    }
  }

  /** There is only one partition into components: any two results have the same sets of nodes. */
  lemma SameComponents(adj: seq<seq<nat>>, a: seq<seq<nat>>, b: seq<seq<nat>>, i: nat) returns (j: nat)
    requires IsScc(adj, a) && IsScc(adj, b) && i < |a|
    ensures j < |b| && forall v: nat :: v in a[i] <==> v in b[j]
  {
    hide Reach;
    var u := a[i][0];
    assert InComponent(a, u, i) && InSome(b, u);
    j :| InComponent(b, u, j);
    forall v: nat ensures v in a[i] <==> v in b[j] {
      if v in a[i] {
        assert InComponent(a, v, i) && InSome(b, v);
        var k: nat :| InComponent(b, v, k);
        assert InComponent(b, u, j);
      }
      if v in b[j] {
        assert InComponent(b, v, j) && InSome(a, v);
        var k: nat :| InComponent(a, v, k);
        assert InComponent(a, u, i);
      }
    }
  }
}
