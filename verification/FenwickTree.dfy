/**
  The FenwickTree of cpp/fenwick-tree.cc: segment i stands for the points i - LSB(i) + 1 .. i.  A range is covered by
  segments and points that do not overlap, and a point is in exactly the segments that climbing from it visits.
*/
module FenwickTrees {
  import opened Arithmetic

  /** The least significant bit of a positive number. */
  function Lsb(x: nat): (b: nat)
    requires 0 < x
    ensures 0 < b <= x
  {
    if x % 2 == 1 then 1 else 2 * Lsb(x / 2)
  }

  /** The least power of two that is at least `n`. */
  method CeilingTwo(n: nat) returns (res: nat)
    ensures n <= res && 0 < res && (res == 1 || res < 2 * n)
    ensures exists k: nat :: res == Pow2(k)
  {
    res := 1;
    ghost var k: nat := 0;
    while res < n
      invariant 0 < res == Pow2(k) && (res == 1 || res < 2 * n)
    {
      res := res * 2;
      k := k + 1;
    }
  }

  /** Segment `i` contains point `p`. */
  predicate Contains(i: nat, p: nat) { 0 < i && i - Lsb(i) < p <= i }

  /** Climbing from `p` in steps of the least significant bit comes by `i`. */
  predicate Climbs(p: nat, i: nat)
    requires 0 < p
    decreases i - p
  {
    p == i || (p < i && Climbs(p + Lsb(p), i))
  }

  /** The segments traverseSegmentsFor visits for the points l + 1 .. r. */
  function Segments(l: nat, r: nat): set<nat>
  {
    if r <= l then {}
    else if l <= r - Lsb(r) then {r} + Segments(l, r - Lsb(r))
    else Segments(l, r - 1)
  }

  /** The points it visits one by one. */
  function Points(l: nat, r: nat): set<nat>
  {
    if r <= l then {}
    else if l <= r - Lsb(r) then Points(l, r - Lsb(r))
    else {r} + Points(l, r - 1)
  }

  /** It is the greatest power of two that divides the number. */
  lemma {:induction false} LsbDivides(x: nat) returns (k: nat, half: nat)
    requires 0 < x
    ensures Lsb(x) == Pow2(k) && x == (2 * half + 1) * Pow2(k)
  {
    if x % 2 == 1 {
      k, half := 0, x / 2;
    } else {
      k, half := LsbDivides(x / 2);
      Doubled(2 * half + 1, Pow2(k));
      k := k + 1;
    }
  }

  lemma Doubled(a: nat, p: nat)
    ensures a * (2 * p) == 2 * (a * p)
  {}

  lemma LsbOfDouble(x: nat)
    requires 0 < x
    ensures Lsb(2 * x) == 2 * Lsb(x)
  {}

  lemma {:induction false} NextBitIsLarger(x: nat)
    requires 0 < x
    ensures 2 * Lsb(x) <= Lsb(x + Lsb(x))
  {
    if x % 2 == 0 {
      NextBitIsLarger(x / 2);
      LsbOfDouble(x / 2 + Lsb(x / 2));
    }
  }

  /** Below a segment's end, no segment that begins before it ends inside it. */
  lemma {:induction false} LsbInside(i: nat, x: nat)
    requires 0 < i && i < x < i + Lsb(i)
    ensures Lsb(x) <= x - i
    decreases x
  {
    if x % 2 == 0 {
      LsbInside(i / 2, x / 2);
    }
  }

  /** The segments that contain `p` are those on the climb from `p`. */
  lemma {:induction false} ClimbIsContains(p: nat, x: nat, i: nat)
    requires 0 < p <= x && Contains(x, p) && x <= i
    ensures Climbs(x, i) <==> Contains(i, p)
    decreases i - x
  {
    if x < i {
      NextBitIsLarger(x);
      if x + Lsb(x) <= i {
        ClimbIsContains(p, x + Lsb(x), i);
      } else if Contains(i, p) {
        LsbInside(x, i);
      }
    }
  }

  lemma SegmentsInRange(l: nat, r: nat, i: nat)
    requires i in Segments(l, r) || i in Points(l, r)
    ensures l < i <= r
  {}

  /** Every point of the range is in exactly one visited part, and no visited part reaches out of the range. */
  lemma {:induction false} ExactCover(l: nat, r: nat, p: nat)
    ensures p in Points(l, r) ==> l < p <= r && forall i :: i in Segments(l, r) ==> !Contains(i, p)
    ensures l < p <= r && p !in Points(l, r) ==> exists i :: i in Segments(l, r) && Contains(i, p)
    ensures forall i, j :: i in Segments(l, r) && j in Segments(l, r) && Contains(i, p) && Contains(j, p) ==> i == j
    ensures forall i :: i in Segments(l, r) && Contains(i, p) ==> l < p <= r
    decreases r
  {
    if l < r {
      var rest := if l <= r - Lsb(r) then r - Lsb(r) else r - 1;
      ExactCover(l, rest, p);
      forall i | i in Segments(l, rest) ensures i <= rest { SegmentsInRange(l, rest, i); }
      if p in Points(l, rest) { SegmentsInRange(l, rest, p); }
      if l < p <= r && p !in Points(l, r) {
        if rest < p {
          assert r in Segments(l, r) && Contains(r, p);
        } else {
          var i :| i in Segments(l, rest) && Contains(i, p);
          assert i in Segments(l, r);
        }
      }
    }
  }

  /** A prefix 1..n is covered by segments alone: those that end at or before n and whose climb leaves the prefix. */
  lemma {:induction false} PrefixSegments(n: nat, i: nat)
    requires 0 < i
    ensures i in Segments(0, n) <==> i <= n < i + Lsb(i)
    ensures Points(0, n) == {}
    decreases n
  {
    if 0 < n {
      PrefixSegments(n - Lsb(n), i);
      if i < n {
        if n < i + Lsb(i) {
          LsbInside(i, n);
        } else if i <= n - Lsb(n) < i + Lsb(i) {
          StepStaysInside(i, n);
        }
      }
    }
  }

  /** Dropping the last bit does not jump from beyond a segment's reach to inside it. */
  lemma {:induction false} StepStaysInside(i: nat, n: nat)
    requires 0 < i && 0 < n && i <= n - Lsb(n) < i + Lsb(i)
    ensures n < i + Lsb(i)
    decreases n
  {
    Halves(i);
    Halves(n);
    if n % 2 == 0 && i % 2 == 0 { StepStaysInside(i / 2, n / 2); }
  }

  /** A number and its last bit, by half of it. */
  lemma Halves(x: nat)
    requires 0 < x
    ensures x == 2 * (x / 2) + x % 2
    ensures x % 2 == 1 ==> Lsb(x) == 1
    ensures x % 2 == 0 ==> 0 < x / 2 && Lsb(x) == 2 * Lsb(x / 2)
  {}

  class FenwickTree<T> {
    var n: nat
    var points: seq<T>
    var segs: seq<T>

    ghost predicate Valid()
      reads this
    {
      |points| == |segs| == n + 1
    }

    constructor (size: nat, zero: T)
      ensures Valid() && size <= n && 0 < n
      ensures forall i :: 0 <= i <= n ==> points[i] == zero && segs[i] == zero
    {
      var c := CeilingTwo(size);
      n, points, segs := c, seq(c + 1, _ => zero), seq(c + 1, _ => zero);
    }

    method SetPoint(idx: nat, x: T)
      requires Valid() && idx <= n
      modifies this
      ensures Valid() && n == old(n) && segs == old(segs) && points == old(points)[idx := x]
    {
      points := points[idx := x];
    }

    /** Applies `fn` to the parts that cover l..r-1, from right to left. */
    method TraverseSegmentsFor(l: nat, r: nat, fn: T -> T)
      requires Valid() && 1 <= l && 1 <= r <= n + 1
      modifies this
      ensures Valid() && n == old(n)
      ensures forall i :: 0 <= i <= n ==> segs[i] == if i in Segments(l - 1, r - 1) then fn(old(segs)[i]) else old(segs)[i]
      ensures forall i :: 0 <= i <= n ==> points[i] == if i in Points(l - 1, r - 1) then fn(old(points)[i]) else old(points)[i]
    {
      var lo, hi := l - 1, r - 1;
      ghost var allSegs, allPoints := Segments(lo, hi), Points(lo, hi);
      while hi > lo
        invariant Valid() && n == old(n) && hi <= n
        invariant Segments(lo, hi) <= allSegs && Points(lo, hi) <= allPoints
        invariant forall i :: 0 <= i <= n ==>
                    segs[i] == if i in allSegs && i !in Segments(lo, hi) then fn(old(segs)[i]) else old(segs)[i]
        invariant forall i :: 0 <= i <= n ==>
                    points[i] == if i in allPoints && i !in Points(lo, hi) then fn(old(points)[i]) else old(points)[i]
      {
        var next := hi - Lsb(hi);
        if next >= lo {
          NotAgain(lo, hi, next);
          segs := segs[hi := fn(segs[hi])];
          hi := next;
        } else {
          NotAgain(lo, hi, hi - 1);
          points := points[hi := fn(points[hi])];
          hi := hi - 1;
        }
      }
    }

    /** Doubles the capacity; what is there stays. */
    method Grow(zero: T)
      requires Valid() && 0 < n
      modifies this
      ensures Valid() && n == 2 * old(n)
      ensures points == old(points) + seq(old(n), _ => zero) && segs == old(segs) + seq(old(n), _ => zero)
    {
      points, segs := points + seq(n, _ => zero), segs + seq(n, _ => zero);
      n := 2 * n;
    }
  }

  lemma NotAgain(l: nat, r: nat, rest: nat)
    requires rest < r
    ensures r !in Segments(l, rest) && r !in Points(l, rest)
  {
    if r in Segments(l, rest) || r in Points(l, rest) { SegmentsInRange(l, rest, r); }
  }
}
