/**
  MinHeap and TopK of python/min_heap.py: the k least of a changing collection, the others in a heap from which removed
  elements are dropped only when they are popped.

  Elements are totally ordered, so integers stand for them; the same one may be there more than once.
*/
module TopKs {
  import opened Sorting

  predicate Ascending(s: seq<int>) { forall i, j :: 0 <= i < j < |s| ==> s[i] <= s[j] }

  /** Nothing in `high` is less than anything in `low`. */
  predicate Below(low: seq<int>, high: multiset<int>) { forall i, y :: 0 <= i < |low| && y in high ==> low[i] <= y }

  /** The `k` least elements of `all`, in order; all of them if there are fewer. */
  predicate Least(s: seq<int>, all: multiset<int>, k: nat) {
    && Ascending(s) && multiset(s) <= all && Below(s, all - multiset(s))
    && |s| == if k < |all| then k else |all|
  }

  lemma SameSize(a: multiset<int>, b: multiset<int>)
    requires a <= b && |b| <= |a|
    ensures a == b
  {
    assert b == a + (b - a);
    assert |b| == |a| + |b - a|;
  }

  /** There is only one answer. */
  lemma LeastIsUnique(s: seq<int>, t: seq<int>, all: multiset<int>, k: nat)
    requires Least(s, all, k) && Least(t, all, k)
    ensures s == t
  {
    if multiset(s) <= multiset(t) {
      SameSize(multiset(s), multiset(t));
    } else if multiset(t) <= multiset(s) {
      SameSize(multiset(t), multiset(s));
    } else {
      var x :| multiset(t)[x] < multiset(s)[x];
      var y :| multiset(s)[y] < multiset(t)[y];
      NotAbove(s, t, all, k, x, y);
      NotAbove(t, s, all, k, y, x);
    }
    SameAscending(s, t);
  }

  lemma NotAbove(s: seq<int>, t: seq<int>, all: multiset<int>, k: nat, x: int, y: int)
    requires Least(s, all, k) && Least(t, all, k) && x in multiset(s) && multiset(s)[y] < multiset(t)[y]
    ensures x <= y
  {
    assert y in all - multiset(s);
    var i :| 0 <= i < |s| && s[i] == x;
  }

  lemma LastOut(s: seq<int>)
    requires s != []
    ensures var n := |s| - 1; multiset(s[..n]) == multiset(s) - multiset{s[n]} && s[n] in multiset(s) && (Ascending(s) ==> Ascending(s[..n]))
  {
    var n := |s| - 1;
    assert s == s[..n] + [s[n]];
  }

  lemma LastBack(s: seq<int>)
    requires s != []
    ensures s == s[..|s| - 1] + [s[|s| - 1]]
  {}

  lemma LastIsGreatest(s: seq<int>, x: int)
    requires Ascending(s) && x in multiset(s)
    ensures s != [] && x <= s[|s| - 1]
  {}

  lemma SameLength(s: seq<int>, t: seq<int>)
    requires multiset(s) == multiset(t)
    ensures |s| == |t|
  {
    assert |multiset(s)| == |s| && |multiset(t)| == |t|;
  }

  lemma SameLast(s: seq<int>, t: seq<int>)
    requires Ascending(s) && Ascending(t) && multiset(s) == multiset(t) && |s| == |t| && s != []
    ensures s[|s| - 1] == t[|t| - 1]
  {
    LastOut(s);
    LastOut(t);
    LastIsGreatest(s, t[|t| - 1]);
    LastIsGreatest(t, s[|s| - 1]);
  }

  lemma {:induction false} SameAscending(s: seq<int>, t: seq<int>)
    requires Ascending(s) && Ascending(t) && multiset(s) == multiset(t)
    ensures s == t
    decreases |s|
  {
    hide Ascending;
    SameLength(s, t);
    if s != [] {
      var n := |s| - 1;
      SameLast(s, t);
      LastOut(s);
      LastOut(t);
      SameAscending(s[..n], t[..n]);
      LastBack(s);
      LastBack(t);
    }
  }

  // ---- The heap -------------------------------------------------------------------------------------------------

  /** A mark takes one copy of its element away, if there is one. */
  function LiveOf(h: multiset<int>, removed: set<int>): multiset<int> { h - multiset(removed) }

  /** The push of an element that is marked but not there only takes the mark off. */
  predicate Swallows(h: multiset<int>, removed: set<int>, e: int) { e in removed && e !in h }

  /** Every mark is on an element that is there. */
  predicate AllThere(h: multiset<int>, removed: set<int>) { forall e :: e in removed ==> e in h }

  lemma MarkedLive(h: multiset<int>, removed: set<int>, e: int)
    ensures LiveOf(h, removed + {e}) == if e in removed then LiveOf(h, removed) else LiveOf(h, removed) - multiset{e}
  {
    if e in removed { assert removed + {e} == removed; }
  }

  lemma UnmarkedLive(h: multiset<int>, removed: set<int>, e: int)
    requires e in removed
    ensures LiveOf(h, removed - {e}) == if e in h then LiveOf(h, removed) + multiset{e} else LiveOf(h, removed)
  {}

  lemma PushedLive(h: multiset<int>, removed: set<int>, e: int)
    requires e !in removed
    ensures LiveOf(h + multiset{e}, removed) == LiveOf(h, removed) + multiset{e}
  {}

  function AfterRemove(removed: set<int>, e: int): set<int> { removed + {e} }

  function AfterPush(h: multiset<int>, removed: set<int>, e: int): (multiset<int>, set<int>) {
    if e in removed then (h, removed - {e}) else (h + multiset{e}, removed)
  }

  /** Removing an element and pushing it again is right exactly when it was there, and not with a copy already marked
      while another one is live. */
  lemma RemoveThenPush(h: multiset<int>, removed: set<int>, e: int)
    ensures var (h', removed') := AfterPush(h, AfterRemove(removed, e), e);
      var live := LiveOf(h, removed);
      && LiveOf(h', removed') == (if e in removed && e in h then live + multiset{e} else live)
      && (LiveOf(h', removed') == live - multiset{e} + multiset{e} <==> e in h && !(e in removed && e in live))
  {
    var live := LiveOf(h, removed);
    var r := AfterRemove(removed, e) - {e};
    if e in removed {
      UnmarkedLive(h, removed, e);
      assert r == removed - {e};
      if e in live {
        assert (live - multiset{e} + multiset{e})[e] == live[e];
        assert (live + multiset{e})[e] == live[e] + 1;
      } else {
        assert live - multiset{e} + multiset{e} == live + multiset{e};
        assert live[e] + 1 == (live + multiset{e})[e];
      }
    } else {
      assert r == removed;
      assert (live - multiset{e} + multiset{e})[e] == if e in live then live[e] else 1;
      if e in live { assert live - multiset{e} + multiset{e} == live; }
    }
  }

  /** In a heap of distinct elements whose marks are all on elements that are there: exactly when it was there, live or
      marked. */
  lemma RemoveThenPushDistinct(h: multiset<int>, removed: set<int>, e: int)
    requires h[e] <= 1 && AllThere(h, removed)
    ensures var (h', removed') := AfterPush(h, AfterRemove(removed, e), e);
      var live := LiveOf(h, removed);
      LiveOf(h', removed') == live - multiset{e} + multiset{e} <==> e in live || e in removed
  {
    RemoveThenPush(h, removed, e);
  }

  /** Removing 5 from a heap that holds only 1 loses the 5 that is pushed afterwards. */
  lemma LostPush()
    ensures var (h, removed) := AfterPush(multiset{1}, AfterRemove({}, 5), 5);
      LiveOf(h, removed) == multiset{1} && 5 !in LiveOf(h, removed)
  {
    RemoveThenPush(multiset{1}, {}, 5);
    assert LiveOf(multiset{1}, {}) == multiset{1};
  }

  lemma Member<X>(h: multiset<X>) returns (x: X)
    requires h != multiset{}
    ensures x in h
  {
    x :| x in h;
  }

  lemma {:induction false} LeastOf(h: multiset<int>) returns (m: int)
    requires h != multiset{}
    ensures m in h && forall x :: x in h ==> m <= x
    decreases |h|
  {
    m := Member(h);
    var rest := h - multiset{m};
    assert h == rest + multiset{m};
    if rest != multiset{} {
      var other := LeastOf(rest);
      if other < m { m := other; }
    }
  }

  lemma NothingPopped(h: multiset<int>)
    ensures var none: seq<int> := []; Ascending(none) && multiset(none) == multiset{} && Below(none, h)
  {}

  lemma Popped(res: seq<int>, h: multiset<int>, e: int)
    requires Ascending(res) && Below(res, h) && e in h && forall x :: x in h ==> e <= x
    ensures Below(res, h - multiset{e}) && Ascending(res + [e]) && Below(res + [e], h - multiset{e})
    ensures multiset(res + [e]) == multiset(res) + multiset{e}
  {}

  /** Popping the least element of the heap either drops a mark or takes a live element. */
  lemma PoppedLive(h: multiset<int>, removed: set<int>, e: int)
    requires e in h
    ensures e in removed ==> LiveOf(h - multiset{e}, removed - {e}) == LiveOf(h, removed)
    ensures e !in removed ==> e in LiveOf(h, removed) && LiveOf(h - multiset{e}, removed) == LiveOf(h, removed) - multiset{e}
  {}

  lemma PoppedThere(h: multiset<int>, removed: set<int>, e: int)
    requires e in h && AllThere(h, removed)
    ensures AllThere(h - multiset{e}, removed - {e})
  {}

  lemma PoppedSize(h: multiset<int>, e: int)
    requires e in h
    ensures |h - multiset{e}| < |h|
  {
    assert h == h - multiset{e} + multiset{e};
  }

  lemma LiveMoves(all: multiset<int>, res: seq<int>, live: multiset<int>, e: int)
    requires all == multiset(res) + live && e in live
    ensures all == multiset(res + [e]) + (live - multiset{e})
  {
    assert multiset(res + [e]) == multiset(res) + multiset{e};
  }

  lemma AllPopped(res: seq<int>, all: multiset<int>, h: multiset<int>, removed: set<int>, n: nat)
    requires Ascending(res) && all == multiset(res) + LiveOf(h, removed) && Below(res, h) && |res| <= n
    requires |res| == n || h == multiset{}
    ensures Least(res, all, n)
  {
    assert all - multiset(res) == LiveOf(h, removed);
    assert |all| == |res| + |LiveOf(h, removed)|;
    assert forall x :: x in LiveOf(h, removed) ==> x in h;
  }

  class MinHeap {
    var h: multiset<int>
    var removed: set<int>

    ghost function Live(): multiset<int>
      reads this
    {
      LiveOf(h, removed)
    }

    constructor (l: multiset<int>)
      ensures h == l && removed == {} && Live() == l
    {
      h, removed := l, {};
      assert l - multiset({}) == l;
    }

    /** One copy less, unless one is marked already; an element that is not there leaves a mark all the same. */
    method Remove(e: int)
      modifies this`removed
      ensures removed == AfterRemove(old(removed), e)
      ensures Live() == if e in old(removed) then old(Live()) else old(Live()) - multiset{e}
    {
      MarkedLive(h, removed, e);
      removed := removed + {e};
    }

    method HeapPop() returns (e: int)
      requires h != multiset{}
      modifies this`h
      ensures e in old(h) && h == old(h) - multiset{e} && forall x :: x in old(h) ==> e <= x
    {
      ghost var m := LeastOf(h);
      e :| e in h && forall x :: x in h ==> e <= x;
      h := h - multiset{e};
    }

    /** The `n` least live elements leave the heap; removed ones that come up are forgotten. */
    method PopN(n: nat) returns (res: seq<int>)
      modifies this
      ensures Least(res, old(Live()), n) && Live() == old(Live()) - multiset(res)
      ensures old(AllThere(h, removed)) ==> AllThere(h, removed)
    {
      hide Least, Ascending, Below, LiveOf, AllThere;
      res := [];
      ghost var all, there := Live(), AllThere(h, removed);
      NothingPopped(h);
      while |res| < n && h != multiset{}
        invariant Ascending(res) && Below(res, h) && |res| <= n
        invariant all == multiset(res) + Live() && (there ==> AllThere(h, removed))
        decreases |h|
      {
        ghost var before, heap, marks := res, h, removed;
        var e := HeapPop();
        Popped(before, heap, e);
        PoppedLive(heap, marks, e);
        if there { PoppedThere(heap, marks, e); }
        PoppedSize(heap, e);
        if e in removed {
          removed := removed - {e};
        } else {
          assert removed - {e} == removed;
          LiveMoves(all, before, LiveOf(heap, marks), e);
          res := res + [e];
        }
      }
      AllPopped(res, all, h, removed, n);
      assert Live() == all - multiset(res);
    }

    /** One copy more: a marked one comes back without being pushed, unless it is not there. */
    method Push(e: int)
      modifies this
      ensures (h, removed) == AfterPush(old(h), old(removed), e)
      ensures Live() == if Swallows(old(h), old(removed), e) then old(Live()) else old(Live()) + multiset{e}
      ensures old(AllThere(h, removed)) ==> AllThere(h, removed)
    {
      if e in removed {
        UnmarkedLive(h, removed, e);
        removed := removed - {e};
      } else {
        PushedLive(h, removed, e);
        h := h + multiset{e};
      }
    }
  }

  // ---- The list -------------------------------------------------------------------------------------------------

  /** Where `e` goes: what is before is at most `e`, what is behind is greater. */
  predicate IsPlace(s: seq<int>, e: int, pos: nat) {
    pos <= |s| && (forall i :: 0 <= i < pos ==> s[i] <= e) && forall i :: pos <= i < |s| ==> e < s[i]
  }

  function AtMost(): (le: (int, int) -> bool)
    ensures TotalPreorder(le)
  {
    (x: int, y: int) => x <= y
  }

  method PlaceOf(s: seq<int>, e: int) returns (pos: nat)
    requires Ascending(s)
    ensures IsPlace(s, e, pos)
  {
    pos := BisectRight(s, e, AtMost());
    assert forall i :: 0 <= i < |s| ==> (AtMost()(s[i], e) <==> s[i] <= e);
  }

  function With(s: seq<int>, pos: nat, e: int): seq<int>
    requires pos <= |s|
  {
    s[..pos] + [e] + s[pos..]
  }

  function Without(s: seq<int>, pos: nat): seq<int>
    requires pos < |s|
  {
    s[..pos] + s[pos + 1..]
  }

  lemma Inserted(s: seq<int>, e: int, pos: nat)
    requires Ascending(s) && IsPlace(s, e, pos)
    ensures Ascending(With(s, pos, e)) && multiset(With(s, pos, e)) == multiset(s) + multiset{e} && |With(s, pos, e)| == |s| + 1
  {
    assert s == s[..pos] + s[pos..];
  }

  lemma Deleted(s: seq<int>, pos: nat)
    requires Ascending(s) && pos < |s|
    ensures Ascending(Without(s, pos)) && multiset(Without(s, pos)) == multiset(s) - multiset{s[pos]}
    ensures forall live: multiset<int> :: Below(s, live) ==> Below(Without(s, pos), live)
  {
    assert s == s[..pos] + [s[pos]] + s[pos + 1..];
  }

  /** The list is below the heap, and the heap holds live elements only when the list is full. */
  ghost predicate ListOk(s: seq<int>, live: multiset<int>, k: nat) {
    Ascending(s) && |s| <= k && Below(s, live) && (|s| < k ==> live == multiset{})
  }

  /** A list with room takes `e` only if nothing live in the heap is less. */
  ghost predicate RoomFor(s: seq<int>, live: multiset<int>, k: nat, e: int) {
    && Ascending(s) && |s| <= k && Below(s, live)
    && (|s| < k ==> Below([e], live) && (live == multiset{} || |s| + 1 == k))
  }

  lemma AlwaysRoom(s: seq<int>, live: multiset<int>, k: nat, e: int)
    requires ListOk(s, live, k)
    ensures RoomFor(s, live, k, e)
  {}

  lemma RoomIsAscending(s: seq<int>, live: multiset<int>, k: nat, e: int)
    requires RoomFor(s, live, k, e)
    ensures Ascending(s) && |s| <= k
  {}

  lemma ListIsAscending(s: seq<int>, live: multiset<int>, k: nat)
    requires ListOk(s, live, k)
    ensures Ascending(s) && |s| <= k
  {}

  /** What leaves a list that is one too long. */
  function Greatest(s: seq<int>, e: int): int { if s == [] || s[|s| - 1] <= e then e else s[|s| - 1] }

  lemma GrownFits(s: seq<int>, live: multiset<int>, k: nat, e: int, pos: nat)
    requires RoomFor(s, live, k, e) && IsPlace(s, e, pos) && |s| < k
    ensures ListOk(With(s, pos, e), live, k)
  {
    var t := With(s, pos, e);
    Inserted(s, e, pos);
    forall i, y | 0 <= i < |t| && y in live ensures t[i] <= y {
      assert t[i] == if i < pos then s[i] else if i == pos then e else s[i - 1];
    }
  }

  lemma GrownOver(s: seq<int>, live: multiset<int>, k: nat, e: int, pos: nat)
    requires RoomFor(s, live, k, e) && IsPlace(s, e, pos) && |s| == k
    ensures var t := With(s, pos, e);
      t[k] == Greatest(s, e) && Ascending(t[..k]) && Below(t[..k], live) && Below(t[..k], live + multiset{t[k]})
  {
    var t := With(s, pos, e);
    Inserted(s, e, pos);
    LastOut(t);
    forall i, y | 0 <= i < k && y in live ensures t[i] <= y {
      if pos == k { assert t[i] == s[i]; } else { assert t[i] <= t[k] == s[k - 1]; }
    }
    BelowOneMore(t[..k], live, t[k]);
  }

  lemma BelowOneMore(s: seq<int>, live: multiset<int>, x: int)
    requires Below(s, live) && forall i :: 0 <= i < |s| ==> s[i] <= x
    ensures Below(s, live + multiset{x})
  {}

  /** With one more element the list may be one too long; then its last, the greatest, goes to the heap, which keeps the
      order whether the heap takes it or not. */
  lemma ListGrown(s: seq<int>, live: multiset<int>, k: nat, e: int, pos: nat)
    requires RoomFor(s, live, k, e) && IsPlace(s, e, pos)
    ensures var t, n := With(s, pos, e), |s|;
      && multiset(t) == multiset(s) + multiset{e} && |t| == n + 1
      && (n < k ==> ListOk(t, live, k))
      && (n == k ==> t[n] == Greatest(s, e) && multiset(t[..n]) == multiset(t) - multiset{t[n]})
      && (n == k ==> ListOk(t[..n], live, k) && ListOk(t[..n], live + multiset{t[n]}, k))
  {
    PlaceInRange(s, e, pos);
    RoomIsAscending(s, live, k, e);
    hide With, Greatest, IsPlace, RoomFor, Below, Ascending;
    Inserted(s, e, pos);
    if |s| < k {
      GrownFits(s, live, k, e, pos);
    } else {
      GrownOver(s, live, k, e, pos);
      LastOut(With(s, pos, e));
    }
  }

  /** Without one of its elements the list has room for the least live one. */
  lemma ListShrunk(s: seq<int>, live: multiset<int>, k: nat, pos: nat, popped: seq<int>)
    requires ListOk(s, live, k) && pos < |s| && Least(popped, live, 1)
    ensures var t, less := Without(s, pos), live - multiset(popped);
      && multiset(t) == multiset(s) - multiset{s[pos]}
      && multiset(popped) <= live && (popped == [] ==> less == live == multiset{} && ListOk(t, less, k))
      && (popped != [] ==> multiset(popped) == multiset{popped[0]} && popped[0] in live
                           && RoomFor(t, less, k, popped[0]) && |t| < k)
  {
    Deleted(s, pos);
    if popped != [] {
      assert popped == [popped[0]];
      assert popped[0] in multiset(popped);
      assert multiset(popped) <= live;
    } else {
      assert |live| == 0;
    }
  }

  lemma NotListed(s: seq<int>, e: int, pos: nat)
    requires Ascending(s) && IsPlace(s, e, pos)
    ensures e in s <==> pos != 0 && s[pos - 1] == e
  {}

  lemma ListStays(s: seq<int>, live: multiset<int>, k: nat, e: int)
    requires ListOk(s, live, k)
    ensures ListOk(s, live - multiset{e}, k)
    ensures e !in s ==> multiset(s) + (live - multiset{e}) == multiset(s) + live - multiset{e}
  {}

  class TopK {
    const h: MinHeap
    const k: nat
    var topK: seq<int>

    ghost function Elements(): multiset<int>
      reads this, h
    {
      multiset(topK) + h.Live()
    }

    ghost predicate Valid()
      reads this, h
    {
      ListOk(topK, h.Live(), k)
    }

    /** No mark is waiting for an element that was never there. */
    ghost predicate Tidy()
      reads h
    {
      AllThere(h.h, h.removed)
    }

    constructor (k: nat, l: multiset<int>)
      ensures Valid() && Tidy() && fresh(h) && this.k == k && Elements() == l
    {
      h := new MinHeap(l);
      this.k := k;
      new;
      topK := h.PopN(k);
      assert |multiset(topK)| == |topK|;
      if |topK| < k { SameSize(multiset(topK), l); }
    }

    /** Moves everything from `pos` on by one place. */
    method Insert(e: int, start: nat)
      requires start <= |topK|
      modifies this`topK
      ensures topK == With(old(topK), start, e)
    {
      var pos, x := start, e;
      ghost var s, t := topK, With(topK, start, e);
      while pos < |topK|
        invariant start <= pos <= |topK| == |s|
        invariant x == t[pos] && topK[..pos] == t[..pos] && topK[pos..] == s[pos..]
      {
        topK, x := topK[pos := x], topK[pos];
        pos := pos + 1;
      }
      assert t == t[..|s|] + [t[|s|]];
      topK := topK + [x];
    }

    method Delete(start: nat)
      requires 0 < start <= |topK|
      modifies this`topK
      ensures topK == Without(old(topK), start - 1)
    {
      var pos := start;
      ghost var s, t := topK, Without(topK, start - 1);
      while pos < |topK|
        invariant start <= pos <= |topK| == |s|
        invariant topK[..pos - 1] == t[..pos - 1] && topK[pos..] == s[pos..]
      {
        topK := topK[pos - 1 := topK[pos]];
        pos := pos + 1;
      }
      topK := topK[..|topK| - 1];
      assert t == t[..|s| - 1];
    }

    /** The body of add, also used with a list that is one short, for an element that no live one of the heap is less
        than. */
    method AddWithRoom(e: int)
      requires RoomFor(topK, h.Live(), k, e)
      modifies this, h
      ensures Valid() && (old(Tidy()) ==> Tidy())
      ensures old(|topK|) < k ==> Elements() == old(Elements()) + multiset{e}
      ensures old(|topK|) == k ==> var x := Greatest(old(topK), e);
        Elements() == if Swallows(old(h.h), old(h.removed), x) then old(Elements()) + multiset{e} - multiset{x} else old(Elements()) + multiset{e}
    {
      hide ListOk, RoomFor, Ascending, Below, With, Greatest, LiveOf, IsPlace, AllThere;
      ghost var s, live := topK, h.Live();
      RoomIsAscending(s, live, k, e);
      var pos := PlaceOf(topK, e);
      ListGrown(s, live, k, e, pos);
      PlaceInRange(s, e, pos);
      Insert(e, pos);
      OverElements(s, e, topK, live);
      assert h.Live() == live;
      if |topK| > k {
        var last := topK[|topK| - 1];
        topK := topK[..|topK| - 1];
        assert h.Live() == live;
        h.Push(last);
      }
    }

    /** One more element.  With a tidy heap nothing is ever lost; otherwise the greatest one is lost exactly when it leaves
        the list and the heap has a mark waiting for it. */
    method Add(e: int)
      requires Valid()
      modifies this, h
      ensures Valid() && (old(Tidy()) ==> Tidy() && Elements() == old(Elements()) + multiset{e})
      ensures var x := Greatest(old(topK), e);
        Elements() == old(Elements()) + multiset{e} <==> !(old(|topK|) == k && Swallows(old(h.h), old(h.removed), x))
    {
      AlwaysRoom(topK, h.Live(), k, e);
      ListIsAscending(topK, h.Live(), k);
      ghost var all, x := Elements() + multiset{e}, Greatest(topK, e);
      assert x in all && (all - multiset{x})[x] == all[x] - 1;
      AddWithRoom(e);
    }

    /** One element less if it is there.  The heap stays tidy exactly when the element was in the list or in the heap, and
        the elements are right exactly when there was not one copy marked already and another one live. */
    method Remove(e: int)
      requires Valid()
      modifies this, h
      ensures Valid()
      ensures e in old(topK) ==> Elements() == old(Elements()) - multiset{e} && (old(Tidy()) ==> Tidy())
      ensures e !in old(topK) ==>
        Elements() == if e in old(h.removed) then old(Elements()) else old(Elements()) - multiset{e}
      ensures e !in old(topK) && old(Tidy()) ==> (Tidy() <==> e in old(h.h))
      ensures Elements() == old(Elements()) - multiset{e} <==> !(e !in old(topK) && e in old(h.removed) && e in old(h.Live()))
    {
      hide ListOk, RoomFor, Ascending, Below, Least, With, Without, LiveOf, IsPlace, AllThere;
      ghost var s, live := topK, h.Live();
      ListIsAscending(s, live, k);
      var pos := PlaceOf(topK, e);
      PlaceInRange(s, e, pos);
      NotListed(s, e, pos);
      ghost var all := Elements();
      OneLess(all, e);
      ElementIn(s, live, e);
      if pos == 0 || topK[pos - 1] != e {
        ListStays(s, live, k, e);
        StillThere(h.h, h.removed, e);
        h.Remove(e);
        return;
      }
      RemoveListed(e, pos);
    }

    method RemoveListed(e: int, pos: nat)
      requires Valid() && 0 < pos <= |topK| && topK[pos - 1] == e
      modifies this, h
      ensures Valid() && Elements() == old(Elements()) - multiset{e} && (old(Tidy()) ==> Tidy())
    {
      hide ListOk, RoomFor, Ascending, Below, Least, With, Without, LiveOf, IsPlace, AllThere;
      ghost var s, live := topK, h.Live();
      Delete(pos);
      ghost var t := topK;
      assert h.Live() == live;
      var topHeap := h.PopN(1);
      ListShrunk(s, live, k, pos - 1, topHeap);
      ListedElements(s, e, t, live, multiset(topHeap));
      if topHeap != [] {
        AddWithRoom(topHeap[0]);
      }
    }

    /** Always the k least elements, in order. */
    method GetTopK() returns (r: seq<int>)
      requires Valid()
      ensures Least(r, Elements(), k)
    {
      r := topK;
      assert Elements() - multiset(r) == h.Live();
      assert |Elements()| == |r| + |h.Live()|;
    }
  }

  /** The elements when the last of the list `t`, grown by `e`, goes to the heap or is lost. */
  lemma OverElements(s: seq<int>, e: int, t: seq<int>, live: multiset<int>)
    requires multiset(t) == multiset(s) + multiset{e} && t != []
    ensures var n := |t| - 1;
      && multiset(t) + live == multiset(s) + live + multiset{e}
      && multiset(t[..n]) + (live + multiset{t[n]}) == multiset(s) + live + multiset{e}
      && multiset(t[..n]) + live == multiset(s) + live + multiset{e} - multiset{t[n]}
  {
    LastOut(t);
  }

  /** The elements when one of the list goes and the popped one, if any, takes its place. */
  lemma ListedElements(s: seq<int>, e: int, t: seq<int>, live: multiset<int>, popped: multiset<int>)
    requires e in s && multiset(t) == multiset(s) - multiset{e} && popped <= live
    ensures multiset(t) + (live - popped) + popped == multiset(s) + live - multiset{e}
  {}

  lemma ElementIn(s: seq<int>, live: multiset<int>, e: int)
    ensures e in multiset(s) + live <==> e in s || e in live
  {}

  lemma PlaceInRange(s: seq<int>, e: int, pos: nat)
    requires IsPlace(s, e, pos)
    ensures pos <= |s|
  {}

  lemma OneLess(all: multiset<int>, e: int)
    ensures all == all - multiset{e} <==> e !in all
  {
    assert e in all ==> (all - multiset{e})[e] == all[e] - 1;
  }

  lemma StillThere(h: multiset<int>, removed: set<int>, e: int)
    ensures AllThere(h, removed) ==> (AllThere(h, AfterRemove(removed, e)) <==> e in h)
  {}
}
