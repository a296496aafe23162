/**
  The Fancy sequence of cpp/fenwick-tree.cc: append, add to all, multiply all, and read one element, modulo 10^9 + 7.

  An update of all goes to the segments that cover the current prefix.  The updates do not commute, yet reading an
  element by climbing from its point applies them in the order they were made: the tree refines a plain list.
*/
module FancySequence {
  import opened FenwickTrees
  import opened Modular

  const M := 1_000_000_007

  /** a * x + b. */
  datatype Seg = Seg(x: nat, a: nat, b: nat)

  function Untouched(): Seg { Seg(0, 1, 0) }

  function AddTo(inc: nat): Seg -> Seg { (seg: Seg) => seg.(b := (seg.b + inc) % M) }

  function MultiplyBy(m: nat): Seg -> Seg { (seg: Seg) => seg.(a := seg.a * m % M, b := seg.b * m % M) }

  function Start(point: Seg): nat { (point.a * point.x + point.b) % M }

  function Apply(seg: Seg, y: nat): nat { (y * seg.a + seg.b) % M }

  /** The value of a point: its own, passed through the segments on the climb from `i` up to `n`. */
  function Climb(segs: seq<Seg>, i: nat, n: nat, y: nat): nat
    requires |segs| == n + 1 && 0 < i
    decreases n + 1 - i
  {
    if n < i then y else Climb(segs, i + Lsb(i), n, Apply(segs[i], y))
  }

  lemma {:induction false} ClimbInRange(segs: seq<Seg>, i: nat, n: nat, y: nat)
    requires |segs| == n + 1 && 0 < i && y < M
    ensures Climb(segs, i, n, y) < M
    decreases n + 1 - i
  {
    if i <= n { ClimbInRange(segs, i + Lsb(i), n, Apply(segs[i], y)); }
  }

  lemma {:induction false} ClimbUntouched(segs: seq<Seg>, i: nat, n: nat, y: nat)
    requires |segs| == n + 1 && 0 < i && y < M && forall k :: i <= k <= n ==> segs[k] == Untouched()
    ensures Climb(segs, i, n, y) == y
    decreases n + 1 - i
  {
    if i <= n {
      assert Apply(Untouched(), y) == y;
      ClimbUntouched(segs, i + Lsb(i), n, y);
    }
  }

  /** A larger tree whose new segments are untouched gives the same values. */
  lemma {:induction false} ClimbGrown(segs: seq<Seg>, more: seq<Seg>, i: nat, n: nat, n': nat, y: nat)
    requires |segs| == n + 1 && |more| == n' + 1 && n <= n' && 0 < i && y < M
    requires (forall k :: 0 <= k <= n ==> more[k] == segs[k]) && forall k :: n < k <= n' ==> more[k] == Untouched()
    ensures Climb(more, i, n', y) == Climb(segs, i, n, y)
    decreases n + 1 - i
  {
    if i <= n {
      ClimbGrown(segs, more, i + Lsb(i), n, n', Apply(segs[i], y));
    } else {
      ClimbUntouched(more, i, n', y);
    }
  }

  /** `op` changes a segment's map by following it with `f`. */
  ghost predicate Follows(op: Seg -> Seg, f: nat -> nat) {
    forall seg: Seg, y: nat :: Apply(op(seg), y) == f(Apply(seg, y))
  }

  /** An update of the prefix 1..count is the last map on the climb from each of its points: the segment that takes
      it up is the last one on the climb that ends within the prefix, and those beyond have never been touched. */
  lemma {:induction false} UpdateIsLast(segs: seq<Seg>, segs': seq<Seg>, n: nat, count: nat, i: nat, y: nat, op: Seg -> Seg, f: nat -> nat)
    requires |segs| == |segs'| == n + 1 && count <= n && 0 < i <= count && y < M && Follows(op, f)
    requires forall k :: count < k <= n ==> segs[k] == Untouched()
    requires forall k :: 0 <= k <= n ==> segs'[k] == if k in Segments(0, count) then op(segs[k]) else segs[k]
    requires forall z: nat :: f(z) < M
    ensures Climb(segs', i, n, y) == f(Climb(segs, i, n, y))
    decreases n + 1 - i
  {
    PrefixSegments(count, i);
    var next := i + Lsb(i);
    if next <= count {
      UpdateIsLast(segs, segs', n, count, next, Apply(segs[i], y), op, f);
    } else {
      forall k | next <= k <= n ensures segs'[k] == Untouched() && segs[k] == Untouched() {
        if k in Segments(0, count) { SegmentsInRange(0, count, k); }
      }
      ClimbUntouched(segs, next, n, Apply(segs[i], y));
      ClimbUntouched(segs', next, n, Apply(segs'[i], y));
    }
  }

  function Plus(inc: nat): nat -> nat { (y: nat) => (y + inc) % M }

  function Times(m: nat): nat -> nat { (y: nat) => y * m % M }

  lemma AddFollows(inc: nat)
    ensures Follows(AddTo(inc), Plus(inc))
    ensures forall seg: Seg, y: nat :: Apply(AddTo(inc)(seg), y) == (Apply(seg, y) + inc) % 1_000_000_007
  {
    forall seg: Seg, y: nat ensures Apply(AddTo(inc)(seg), y) == Plus(inc)(Apply(seg, y)) {
      var p := y * seg.a;
      CongSelf(p, M);
      CongMod(seg.b + inc, M);
      CongAdd(p, p, (seg.b + inc) % M, seg.b + inc, M);
      SameMod(p + (seg.b + inc) % M, p + (seg.b + inc), M);
      CongSelf(inc, M);
      CongMod(p + seg.b, M);
      CongAdd((p + seg.b) % M, p + seg.b, inc, inc, M);
      SameMod((p + seg.b) % M + inc, p + seg.b + inc, M);
    }
  }

  lemma MultiplyFollows(m: nat)
    ensures Follows(MultiplyBy(m), Times(m))
    ensures forall seg: Seg, y: nat :: Apply(MultiplyBy(m)(seg), y) == Apply(seg, y) * m % 1_000_000_007
  {
    forall seg: Seg, y: nat ensures Apply(MultiplyBy(m)(seg), y) == Times(m)(Apply(seg, y)) {
      MultiplyOne(seg.a, seg.b, m, y);
    }
  }

  lemma MultiplyOne(a: nat, b: nat, m: nat, y: nat)
    ensures (y * (a * m % M) + b * m % M) % M == (y * a + b) % M * m % M
  {
    hide Cong;
    CongSelf(y, M);
    CongSelf(m, M);
    CongMod(a * m, M);
    CongMul(y, y, a * m % M, a * m, M);
    CongMod(b * m, M);
    CongAdd(y * (a * m % M), y * (a * m), b * m % M, b * m, M);
    SameMod(y * (a * m % M) + b * m % M, y * (a * m) + b * m, M);
    CongMod(y * a + b, M);
    CongMul((y * a + b) % M, y * a + b, m, m, M);
    SameMod((y * a + b) % M * m, (y * a + b) * m, M);
    Distribute(y, a, b, m);
  }

  lemma Distribute(y: nat, a: nat, b: nat, m: nat)
    ensures y * (a * m) + b * m == (y * a + b) * m
  {
    assert y * (a * m) == y * a * m;
  }

  function Map(s: seq<nat>, f: nat -> nat): seq<nat> { seq(|s|, i requires 0 <= i < |s| => f(s[i])) }

  function ValueAt(segs: seq<Seg>, points: seq<Seg>, size: nat, i: nat): nat
    requires |segs| == |points| == size + 1 && i < size
  {
    Climb(segs, i + 1, size, Start(points[i + 1]))
  }

  /** The list that a tree with `count` points stands for. */
  function Values(segs: seq<Seg>, points: seq<Seg>, size: nat, count: nat): seq<nat>
    requires |segs| == |points| == size + 1 && count <= size
  {
    seq(count, i requires 0 <= i < count => ValueAt(segs, points, size, i))
  }

  ghost predicate UntouchedBeyond(parts: seq<Seg>, count: nat) {
    forall k :: count < k < |parts| ==> parts[k] == Untouched()
  }

  /** Growing the tree and setting the next point appends one value. */
  lemma AppendedValue(segs: seq<Seg>, points: seq<Seg>, size: nat, count: nat, segs': seq<Seg>, points': seq<Seg>, size': nat, val: nat)
    requires |segs| == |points| == size + 1 && |segs'| == |points'| == size' + 1 && size <= size' && count <= size && count < size'
    requires UntouchedBeyond(segs, count) && UntouchedBeyond(points, count)
    requires segs <= segs' && UntouchedBeyond(segs', size)
    requires forall k :: 0 <= k <= count ==> points'[k] == points[k]
    requires points'[count + 1] == Untouched().(x := val)
    ensures Values(segs', points', size', count + 1) == Values(segs, points, size, count) + [val % M]
    ensures UntouchedBeyond(segs', count + 1)
  {
    hide Climb;
    forall i | 0 <= i < count ensures ValueAt(segs', points', size', i) == ValueAt(segs, points, size, i) {
      ClimbGrown(segs, segs', i + 1, size, size', Start(points[i + 1]));
    }
    forall k | count < k <= size' ensures segs'[k] == Untouched() {
      if k <= size { assert segs'[k] == segs[k]; }
    }
    ClimbUntouched(segs', count + 1, size', Start(points'[count + 1]));
  }

  lemma UpdatedValues(segs: seq<Seg>, points: seq<Seg>, size: nat, count: nat, segs': seq<Seg>, op: Seg -> Seg, f: nat -> nat)
    requires |segs| == |points| == |segs'| == size + 1 && count <= size && Follows(op, f) && forall z: nat :: f(z) < M
    requires UntouchedBeyond(segs, count)
    requires forall k :: 0 <= k <= size ==> segs'[k] == if k in Segments(0, count) then op(segs[k]) else segs[k]
    ensures Values(segs', points, size, count) == Map(Values(segs, points, size, count), f)
    ensures UntouchedBeyond(segs', count)
  {
    hide Climb, Follows;
    forall k | count < k <= size ensures segs'[k] == Untouched() {
      if k in Segments(0, count) { SegmentsInRange(0, count, k); }
    }
    forall i | 0 <= i < count ensures ValueAt(segs', points, size, i) == f(ValueAt(segs, points, size, i)) {
      UpdateIsLast(segs, segs', size, count, i + 1, Start(points[i + 1]), op, f);
    }
  }

  class Fancy {
    const tree: FenwickTree<Seg>
    var n: nat

    ghost predicate Valid()
      reads this, tree
    {
      && tree.Valid() && 0 < tree.n && n <= tree.n
      && UntouchedBeyond(tree.segs, n) && UntouchedBeyond(tree.points, n)
    }

    /** The list the tree stands for. */
    ghost function Contents(): seq<nat>
      requires Valid()
      reads this, tree
    {
      Values(tree.segs, tree.points, tree.n, n)
    }

    constructor ()
      ensures Valid() && fresh(tree) && Contents() == []
    {
      tree := new FenwickTree<Seg>(2, Untouched());
      n := 0;
    }

    method Append(val: nat)
      requires Valid()
      modifies this, tree
      ensures Valid() && Contents() == old(Contents()) + [val % 1_000_000_007]
    {
      hide Climb, Values;
      ghost var segs, points, size, count := tree.segs, tree.points, tree.n, n;
      n := n + 1;
      while n > tree.n
        invariant tree.Valid() && 0 < size <= tree.n && n == count + 1
        invariant segs <= tree.segs && UntouchedBeyond(tree.segs, size)
        invariant points <= tree.points && UntouchedBeyond(tree.points, count)
        decreases n - tree.n
      {
        tree.Grow(Untouched());
      }
      tree.SetPoint(n, tree.points[n].(x := val));
      AppendedValue(segs, points, size, count, tree.segs, tree.points, tree.n, val);
    }

    method AddAll(inc: nat)
      requires Valid()
      modifies this, tree
      ensures Valid() && |Contents()| == |old(Contents())|
      ensures forall i :: 0 <= i < |Contents()| ==> Contents()[i] == (old(Contents())[i] + inc) % 1_000_000_007
    {
      AddFollows(inc);
      UpdateAll(AddTo(inc), Plus(inc));
    }

    method MultAll(m: nat)
      requires Valid()
      modifies this, tree
      ensures Valid() && |Contents()| == |old(Contents())|
      ensures forall i :: 0 <= i < |Contents()| ==> Contents()[i] == old(Contents())[i] * m % 1_000_000_007
    {
      MultiplyFollows(m);
      UpdateAll(MultiplyBy(m), Times(m));
    }

    method UpdateAll(op: Seg -> Seg, ghost f: nat -> nat)
      requires Valid() && Follows(op, f) && forall z: nat :: f(z) < M
      modifies this, tree
      ensures Valid() && Contents() == Map(old(Contents()), f)
    {
      hide Climb, Follows, Values, Segments;
      ghost var segs, points := tree.segs, tree.points;
      PrefixSegments(n, 1);
      tree.TraverseSegmentsFor(1, n + 1, op);
      assert tree.points == points;
      UpdatedValues(segs, points, tree.n, n, tree.segs, op, f);
    }

    /** The element, or -1 beyond the end. */
    method GetIndex(idx: nat) returns (r: int)
      requires Valid()
      ensures r == if idx < |Contents()| then Contents()[idx] else -1
    {
      if idx + 1 > n {
        return -1;
      }
      var val := tree.points[idx + 1];
      var res: nat := (val.a * val.x + val.b) % M;
      var segIdx := idx + 1;
      ghost var value := ValueAt(tree.segs, tree.points, tree.n, idx);
      while segIdx <= tree.n
        invariant 0 < segIdx && Climb(tree.segs, segIdx, tree.n, res) == value
        decreases tree.n + 1 - segIdx
      {
        var seg := tree.segs[segIdx];
        res := (res * seg.a + seg.b) % M;
        segIdx := segIdx + Lsb(segIdx);
      }
      r := res;
    }
  }
}
