/**
  python/piecewise-max-function.py over the reals: the upper envelope of lines that arrive in slope order at either
  end, kept as segments in a double-ended queue, and the greatest damage two fighters can deal.
*/
module PiecewiseMaxes {
  import opened Sums
  import opened Sorting

  /** The right end of the domain. */
  function INF(): (inf: real)
    ensures 0.0 < inf
  {
    10000000000000000000000000000000000000000.0
  }

  /** How many lines may come in at either end. */
  function CAPACITY(): nat { 1000000 }

  datatype Line = Line(a: real, b: real)

  datatype Segment = Segment(line: Line, x1: real, x2: real)

  function Y(line: Line, x: real): real { line.a * x + line.b }

  // ---- Two lines ------------------------------------------------------------------------------------------------

  lemma Product(p: real, q: real)
    requires 0.0 <= p && 0.0 <= q
    ensures 0.0 <= p * q
  {}

  lemma ProductPositive(p: real, q: real)
    requires 0.0 < p && 0.0 < q
    ensures 0.0 < p * q
  {}

  /** The steeper line gains as x grows. */
  lemma SteeperGains(l: Line, s: Line, x: real, x': real)
    requires l.a <= s.a && x <= x'
    ensures Y(s, x) - Y(l, x) <= Y(s, x') - Y(l, x')
  {
    Product(s.a - l.a, x' - x);
    assert (s.a - l.a) * (x' - x) == (Y(s, x') - Y(l, x')) - (Y(s, x) - Y(l, x));
  }

  /** Lines that change their order between two points are not parallel. */
  lemma OrderChanges(l: Line, s: Line, x: real, x': real)
    requires l.a <= s.a && Y(s, x) - Y(l, x) < Y(s, x') - Y(l, x')
    ensures l.a < s.a && x < x'
  {
    assert (s.a - l.a) * (x' - x) == (Y(s, x') - Y(l, x')) - (Y(s, x) - Y(l, x));
    if x' <= x { SteeperGains(l, s, x', x); }
  }

  function Intersection(l: Line, s: Line): real
    requires l.a != s.a
  {
    (s.b - l.b) / (l.a - s.a)
  }

  lemma MeetThere(l: Line, s: Line)
    requires l.a != s.a
    ensures Y(l, Intersection(l, s)) == Y(s, Intersection(l, s))
  {
    var x := Intersection(l, s);
    assert (l.a - s.a) * x == s.b - l.b;
    assert (l.a - s.a) * x == l.a * x - s.a * x;
  }

  // ---- The envelope ---------------------------------------------------------------------------------------------

  /** Segments side by side, steeper to the right, each meeting the next; only the last may end before it starts. */
  ghost predicate Joined(w: seq<Segment>) {
    && (forall i: nat :: 0 < i < |w| ==> MeetsAt(w, i))
    && (forall i :: 0 <= i < |w| - 1 ==> w[i].x1 <= w[i].x2)
  }

  ghost predicate Meets(s: Segment, t: Segment) {
    s.x2 == t.x1 && s.line.a < t.line.a && Y(s.line, t.x1) == Y(t.line, t.x1)
  }

  ghost predicate MeetsAt(w: seq<Segment>, i: nat)
    requires 0 < i < |w|
  {
    Meets(w[i - 1], w[i])
  }

  ghost predicate Spans(w: seq<Segment>) { w != [] ==> w[0].x1 == 0.0 && w[|w| - 1].x2 == INF() }

  /** Some segment's line is at least `y` at `x`. */
  ghost predicate Reaches(w: seq<Segment>, x: real, y: real) { exists i :: 0 <= i < |w| && y <= Y(w[i].line, x) }

  predicate Domain(x: real) { 0.0 <= x <= INF() }

  ghost predicate Topped(w: seq<Segment>, lines: seq<Line>, k: nat, x: real) {
    k < |lines| && Domain(x) ==> Reaches(w, x, Y(lines[k], x))
  }

  ghost predicate ToppedOr(w: seq<Segment>, lines: seq<Line>, extra: Line, k: nat, x: real) {
    k < |lines| && Domain(x) ==> Y(lines[k], x) <= Y(extra, x) || Reaches(w, x, Y(lines[k], x))
  }

  /** At every point of the domain every line is topped by a segment or by `extra`. */
  ghost predicate Covered(w: seq<Segment>, lines: seq<Line>, extra: Line) {
    forall k: nat, x: real :: ToppedOr(w, lines, extra, k, x)
  }

  ghost predicate Envelope(w: seq<Segment>, lines: seq<Line>) {
    && Joined(w) && Spans(w) && (w == [] <==> lines == [])
    && (forall k: nat, x: real :: Topped(w, lines, k, x))
    && (forall i :: 0 <= i < |w| ==> w[i].line in lines)
  }

  ghost predicate IsMaximum(lines: seq<Line>, x: real, y: real) {
    && (forall i :: 0 <= i < |lines| ==> Y(lines[i], x) <= y)
    && (exists i :: 0 <= i < |lines| && Y(lines[i], x) == y)
  }

  lemma {:induction false} StartsIncrease(w: seq<Segment>, i: nat, j: nat)
    requires Joined(w) && i <= j < |w|
    ensures w[i].x1 <= w[j].x1 && w[i].line.a <= w[j].line.a
    decreases j
  {
    if i < j {
      assert MeetsAt(w, j);
      StartsIncrease(w, i, j - 1);
    }
  }

  /** Within a segment no other line is higher. */
  lemma {:induction false} HighestInside(w: seq<Segment>, i: nat, j: nat, x: real)
    requires Joined(w) && i < |w| && j < |w| && w[i].x1 <= x <= w[i].x2
    ensures Y(w[j].line, x) <= Y(w[i].line, x)
    decreases if i <= j then j - i else i - j
  {
    hide Y;
    if i < j {
      assert MeetsAt(w, j) && MeetsAt(w, i + 1);
      StartsIncrease(w, i + 1, j);
      SteeperGains(w[j - 1].line, w[j].line, x, w[j].x1);
      HighestInside(w, i, j - 1, x);
    } else if j < i {
      assert MeetsAt(w, j + 1);
      StartsIncrease(w, j + 1, i);
      SteeperGains(w[j].line, w[j + 1].line, w[j + 1].x1, x);
      HighestInside(w, i, j + 1, x);
    }
  }

  lemma MaximumFound(w: seq<Segment>, lines: seq<Line>, i: nat, x: real)
    requires Envelope(w, lines) && i < |w| && w[i].x1 <= x <= w[i].x2 && Domain(x)
    ensures IsMaximum(lines, x, Y(w[i].line, x))
  {
    forall k: nat | k < |lines| ensures Y(lines[k], x) <= Y(w[i].line, x) {
      assert Topped(w, lines, k, x);
      var j :| 0 <= j < |w| && Y(lines[k], x) <= Y(w[j].line, x);
      HighestInside(w, i, j, x);
    }
    var k :| 0 <= k < |lines| && lines[k] == w[i].line;
    assert Y(lines[k], x) == Y(w[i].line, x);
  }

  // ---- Appending ------------------------------------------------------------------------------------------------

  /** The last segment may go when the new, steeper line is as high where it starts. */
  lemma DropLast(w: seq<Segment>, lines: seq<Line>, line: Line)
    requires w != [] && Joined(w) && w[0].x1 == 0.0 && Covered(w, lines, line)
    requires var s := w[|w| - 1]; s.line.a <= line.a && Y(s.line, s.x1) <= Y(line, s.x1)
    ensures Joined(w[..|w| - 1]) && Covered(w[..|w| - 1], lines, line)
  {
    var n := |w| - 1;
    var s, v := w[n], w[..n];
    hide Y;
    assert Joined(v) by { forall i: nat | 0 < i < |v| ensures MeetsAt(v, i) { assert MeetsAt(w, i); } }
    forall k: nat, x: real | k < |lines| && Domain(x) && !(Y(lines[k], x) <= Y(line, x)) ensures Reaches(v, x, Y(lines[k], x)) {
      assert ToppedOr(w, lines, line, k, x);
      var i :| 0 <= i < |w| && Y(lines[k], x) <= Y(w[i].line, x);
      if i == n {
        if s.x1 <= x {
          SteeperGains(s.line, line, s.x1, x);
        } else {
          assert MeetsAt(w, n);
          SteeperGains(w[n - 1].line, s.line, x, s.x1);
          assert v[n - 1] == w[n - 1];
        }
      } else {
        assert v[i] == w[i];
      }
    }
  }

  lemma FirstLine(w: seq<Segment>, lines: seq<Line>, line: Line)
    requires w == [] && Covered(w, lines, line)
    ensures Envelope([Segment(line, 0.0, INF())], lines + [line])
  {
    var v := [Segment(line, 0.0, INF())];
    forall k: nat, x: real ensures Topped(v, lines + [line], k, x) {
      assert v[0].line == line && ToppedOr(w, lines, line, k, x);
    }
  }

  lemma AllCovered(w: seq<Segment>, lines: seq<Line>, line: Line)
    requires Envelope(w, lines)
    ensures Covered(w, lines, line)
  {
    forall k: nat, x: real ensures ToppedOr(w, lines, line, k, x) { assert Topped(w, lines, k, x); }
  }

  /** The last segment cut where it meets the new line, and the rest left to that. */
  function Appended(w: seq<Segment>, line: Line, mx: real): seq<Segment>
    requires w != []
  {
    w[|w| - 1 := w[|w| - 1].(x2 := mx)] + [Segment(line, mx, INF())]
  }

  lemma AppendLine(w: seq<Segment>, lines: seq<Line>, line: Line)
    requires w != [] && Joined(w) && w[0].x1 == 0.0 && Covered(w, lines, line) && (forall i :: 0 <= i < |w| ==> w[i].line in lines)
    requires var s := w[|w| - 1]; s.line.a < line.a && Y(line, s.x1) < Y(s.line, s.x1)
    ensures Envelope(Appended(w, line, Intersection(w[|w| - 1].line, line)), lines + [line])
  {
    var n := |w| - 1;
    var s := w[n];
    var mx := Intersection(s.line, line);
    var v, all := Appended(w, line, mx), lines + [line];
    MeetThere(s.line, line);
    hide Y, Intersection;
    OrderChanges(s.line, line, s.x1, mx);
    forall i: nat | 0 < i < |v| ensures MeetsAt(v, i) {
      if i <= n { assert MeetsAt(w, i); }
    }
    forall k: nat, x: real ensures Topped(v, all, k, x) {
      assert ToppedOr(w, lines, line, k, x);
      assert v[|v| - 1].line == line;
      if k < |lines| && Domain(x) && Reaches(w, x, Y(lines[k], x)) {
        var i :| 0 <= i < |w| && Y(lines[k], x) <= Y(w[i].line, x);
        assert v[i].line == w[i].line;
      }
    }
    forall i | 0 <= i < |v| ensures v[i].line in all { if i < |w| { assert v[i].line == w[i].line; } }
  }

  /** A line that is nowhere higher than one segment's line changes nothing. */
  lemma LowerLine(w: seq<Segment>, lines: seq<Line>, line: Line, i: nat)
    requires Envelope(w, lines) && i < |w| && forall x :: Domain(x) ==> Y(line, x) <= Y(w[i].line, x)
    ensures Envelope(w, lines + [line])
  {
    var all := lines + [line];
    forall k: nat, x: real | k < |all| && Domain(x) ensures Topped(w, all, k, x) {
      if k < |lines| { assert Topped(w, lines, k, x); } else { assert Y(line, x) <= Y(w[i].line, x); }
    }
  }

  // ---- Prepending -----------------------------------------------------------------------------------------------

  lemma DropFirst(w: seq<Segment>, lines: seq<Line>, line: Line)
    requires w != [] && Joined(w) && w[|w| - 1].x2 == INF() && Covered(w, lines, line)
    requires line.a <= w[0].line.a && Y(w[0].line, w[0].x2) <= Y(line, w[0].x2)
    ensures Joined(w[1..]) && Covered(w[1..], lines, line)
    ensures |w| > 1 ==> Y(w[1].line, w[1].x1) <= Y(line, w[1].x1) && line.a < w[1].line.a
  {
    var s, v := w[0], w[1..];
    hide Y;
    if |w| > 1 { assert MeetsAt(w, 1); }
    assert Joined(v) by {
      forall i: nat | 0 < i < |v| ensures MeetsAt(v, i) { assert MeetsAt(w, i + 1); }
    }
    forall k: nat, x: real | k < |lines| && Domain(x) && !(Y(lines[k], x) <= Y(line, x)) ensures Reaches(v, x, Y(lines[k], x)) {
      assert ToppedOr(w, lines, line, k, x);
      var i :| 0 <= i < |w| && Y(lines[k], x) <= Y(w[i].line, x);
      if i == 0 {
        if x <= s.x2 {
          SteeperGains(line, s.line, x, s.x2);
        } else {
          SteeperGains(s.line, w[1].line, w[1].x1, x);
          assert v[0] == w[1];
        }
      } else {
        assert v[i - 1] == w[i];
      }
    }
  }

  /** The new line up to where it meets the first segment, and that one cut there. */
  function Prepended(w: seq<Segment>, line: Line, mx: real): seq<Segment>
    requires w != []
  {
    [Segment(line, 0.0, mx)] + w[0 := w[0].(x1 := mx)]
  }

  lemma PrependLine(w: seq<Segment>, lines: seq<Line>, line: Line)
    requires w != [] && Joined(w) && w[|w| - 1].x2 == INF() && 0.0 <= w[0].x1
    requires Covered(w, lines, line) && (forall i :: 0 <= i < |w| ==> w[i].line in lines)
    requires line.a <= w[0].line.a && Y(w[0].line, w[0].x1) <= Y(line, w[0].x1) && Y(line, w[0].x2) < Y(w[0].line, w[0].x2)
    ensures line.a < w[0].line.a && Envelope(Prepended(w, line, Intersection(w[0].line, line)), lines + [line])
  {
    var s, all := w[0], lines + [line];
    OrderChanges(line, s.line, s.x1, s.x2);
    var mx := Intersection(s.line, line);
    var v := Prepended(w, line, mx);
    MeetThere(s.line, line);
    hide Y, Intersection;
    OrderChanges(line, s.line, mx, s.x2);
    if mx < s.x1 { SteeperGains(line, s.line, mx, s.x1); SameOrder(line, s.line, mx, s.x1); }
    forall i: nat | 0 < i < |v| ensures MeetsAt(v, i) {
      if 1 < i { assert MeetsAt(w, i - 1); }
    }
    forall k: nat, x: real ensures Topped(v, all, k, x) {
      assert ToppedOr(w, lines, line, k, x);
      assert v[0].line == line;
      if k < |lines| && Domain(x) && Reaches(w, x, Y(lines[k], x)) {
        var i :| 0 <= i < |w| && Y(lines[k], x) <= Y(w[i].line, x);
        assert v[i + 1].line == w[i].line;
      }
    }
    forall i | 0 <= i < |v| ensures v[i].line in all { if 0 < i { assert v[i].line == w[i - 1].line; } }
  }

  /** Lines that are not parallel meet once. */
  lemma SameOrder(l: Line, s: Line, x: real, x': real)
    requires l.a < s.a && x < x'
    ensures Y(s, x) - Y(l, x) < Y(s, x') - Y(l, x')
  {
    ProductPositive(s.a - l.a, x' - x);
    assert (s.a - l.a) * (x' - x) == (Y(s, x') - Y(l, x')) - (Y(s, x) - Y(l, x));
  }

  lemma EnvelopeParts(w: seq<Segment>, lines: seq<Line>)
    requires Envelope(w, lines)
    ensures Joined(w) && Spans(w) && (w == [] <==> lines == []) && forall i :: 0 <= i < |w| ==> w[i].line in lines
  {}

  lemma LastTwo(w: seq<Segment>)
    requires Joined(w) && 1 < |w|
    ensures w[|w| - 2].line.a < w[|w| - 1].line.a
  {
    assert MeetsAt(w, |w| - 1);
  }

  /** A line that starts lower at x and is no steeper is never higher. */
  lemma NeverHigher(l: Line, line: Line, x: real)
    requires Y(line, x) < Y(l, x) && (line.a == l.a || (line.a <= l.a && x == 0.0))
    ensures forall z :: Domain(z) ==> Y(line, z) <= Y(l, z)
  {
    forall z | Domain(z) ensures Y(line, z) <= Y(l, z) {
      if x <= z || line.a == l.a {
        if x <= z { SteeperGains(line, l, x, z); } else { SteeperGains(l, line, z, x); }
      }
    }
  }

  // ---- What the loops keep ---------------------------------------------------------------------------------------

  /** `v` is what is left of `w` after segments that the steeper line tops were dropped at the end. */
  ghost predicate EndDropped(w: seq<Segment>, v: seq<Segment>, lines: seq<Line>, line: Line) {
    && |v| <= |w| && v == w[..|v|] && Joined(v) && Covered(v, lines, line)
    && (v != [] ==> v[|v| - 1].line.a <= line.a && (|v| < |w| ==> v[|v| - 1].line.a < line.a))
  }

  lemma EndDroppedStart(w: seq<Segment>, lines: seq<Line>, line: Line)
    requires Envelope(w, lines) && (w != [] ==> w[|w| - 1].line.a <= line.a)
    ensures EndDropped(w, w, lines, line)
  {
    AllCovered(w, lines, line);
  }

  lemma EndDroppedStep(w: seq<Segment>, v: seq<Segment>, lines: seq<Line>, line: Line)
    requires Envelope(w, lines) && EndDropped(w, v, lines, line) && v != []
    requires var s := v[|v| - 1]; Y(s.line, s.x1) <= Y(line, s.x1)
    ensures EndDropped(w, v[..|v| - 1], lines, line)
  {
    hide Y, Covered;
    DropLast(v, lines, line);
    if 1 < |v| { LastTwo(v); }
  }

  /** The line lies lower than the last segment where that starts: it is parallel to it, or cuts it. */
  lemma EndReached(w: seq<Segment>, v: seq<Segment>, lines: seq<Line>, line: Line)
    requires Envelope(w, lines) && EndDropped(w, v, lines, line) && v != []
    requires var s := v[|v| - 1]; Y(line, s.x1) < Y(s.line, s.x1)
    ensures if v[|v| - 1].line.a == line.a then Envelope(v, lines + [line])
            else Envelope(Appended(v, line, Intersection(v[|v| - 1].line, line)), lines + [line])
  {
    hide Y, Covered, Intersection;
    var s := v[|v| - 1];
    if s.line.a == line.a {
      assert v == w;
      NeverHigher(s.line, line, s.x1);
      LowerLine(v, lines, line, |v| - 1);
    } else {
      forall i | 0 <= i < |v| ensures v[i].line in lines { assert v[i] == w[i]; }
      AppendLine(v, lines, line);
    }
  }

  /** `v` is what is left of `w` after segments that the flatter line tops were dropped in front. */
  ghost predicate FrontDropped(w: seq<Segment>, v: seq<Segment>, lines: seq<Line>, line: Line) {
    && |v| <= |w| && v == w[|w| - |v|..] && Joined(v) && Covered(v, lines, line)
    && (v != [] ==> line.a <= v[0].line.a && (|v| < |w| ==> Y(v[0].line, v[0].x1) <= Y(line, v[0].x1)))
  }

  lemma FrontDroppedStart(w: seq<Segment>, lines: seq<Line>, line: Line)
    requires Envelope(w, lines) && (w != [] ==> line.a <= w[0].line.a)
    ensures FrontDropped(w, w, lines, line)
  {
    AllCovered(w, lines, line);
  }

  lemma FrontDroppedStep(w: seq<Segment>, v: seq<Segment>, lines: seq<Line>, line: Line)
    requires Envelope(w, lines) && FrontDropped(w, v, lines, line) && v != []
    requires Y(v[0].line, v[0].x2) <= Y(line, v[0].x2)
    ensures FrontDropped(w, v[1..], lines, line)
  {
    hide Y, Covered;
    DropFirst(v, lines, line);
  }

  /** The line lies lower than the first segment where that ends: it lies lower all over, or cuts it. */
  lemma FrontReached(w: seq<Segment>, v: seq<Segment>, lines: seq<Line>, line: Line)
    requires Envelope(w, lines) && FrontDropped(w, v, lines, line) && v != []
    requires Y(line, v[0].x2) < Y(v[0].line, v[0].x2)
    ensures if Y(line, v[0].x1) < Y(v[0].line, v[0].x1) then Envelope(v, lines + [line])
            else v[0].line.a != line.a && Envelope(Prepended(v, line, Intersection(v[0].line, line)), lines + [line])
  {
    hide Y, Covered, Intersection;
    if Y(line, v[0].x1) < Y(v[0].line, v[0].x1) {
      assert v == w;
      NeverHigher(v[0].line, line, v[0].x1);
      LowerLine(v, lines, line, 0);
    } else {
      forall i | 0 <= i < |v| ensures v[i].line in lines { assert v[i] == w[|w| - |v| + i]; }
      StartsIncrease(w, 0, |w| - |v|);
      PrependLine(v, lines, line);
    }
  }

  /** In the window lo .. hi - 1 of `q` the segments before `i` end before `x`, and segment `j` does not. */
  ghost predicate Between(q: seq<Segment>, lo: nat, hi: nat, i: nat, j: nat, x: real) {
    lo <= i <= j <= hi <= |q| && (lo < i ==> q[i - 1].x2 < x) && (j < hi ==> x <= q[j].x2)
  }

  lemma BetweenStep(q: seq<Segment>, lo: nat, hi: nat, i: nat, j: nat, m: nat, x: real)
    requires Between(q, lo, hi, i, j, x) && i <= m < j
    ensures if q[m].x2 < x then Between(q, lo, hi, m + 1, j, x) else Between(q, lo, hi, i, m, x)
  {}

  lemma FallsInto(q: seq<Segment>, lo: nat, hi: nat, i: nat, x: real)
    requires lo < hi <= |q| && Joined(q[lo..hi]) && Spans(q[lo..hi]) && Domain(x) && Between(q, lo, hi, i, i, x)
    ensures i < hi && q[i].x1 <= x <= q[i].x2
  {
    var w, k := q[lo..hi], i - lo;
    assert w[|w| - 1] == q[hi - 1];
    if 0 < k {
      assert w[k - 1] == q[i - 1];
      if k < |w| { assert MeetsAt(w, k) && w[k] == q[i]; }
    } else {
      assert w[0] == q[i];
    }
  }

  lemma SliceAt(q: seq<Segment>, lo: nat, hi: nat, i: nat)
    requires lo <= i < hi <= |q|
    ensures i - lo < |q[lo..hi]| && q[lo..hi][i - lo] == q[i]
  {}

  /** The search stops at a segment that `x` falls into. */
  lemma SearchEnds(q: seq<Segment>, lo: nat, hi: nat, lines: seq<Line>, i: nat, x: real)
    requires lo < hi <= |q| && Envelope(q[lo..hi], lines) && Domain(x) && Between(q, lo, hi, i, i, x)
    ensures i < hi && IsMaximum(lines, x, Y(q[i].line, x))
  {
    var w := q[lo..hi];
    assert lo <= i;
    hide *;
    EnvelopeParts(w, lines);
    FallsInto(q, lo, hi, i, x);
    SliceAt(q, lo, hi, i);
    MaximumFound(w, lines, i - lo, x);
  }

  lemma AppendedWindow(q: seq<Segment>, head: nat, tail: nat, line: Line, mx: real)
    requires head < tail < |q|
    ensures q[tail - 1 := q[tail - 1].(x2 := mx)][tail := Segment(line, mx, INF())][head..tail + 1] == Appended(q[head..tail], line, mx)
  {}

  lemma PrependedWindow(q: seq<Segment>, head: nat, tail: nat, line: Line, mx: real)
    requires 0 < head < tail <= |q|
    ensures q[head := q[head].(x1 := mx)][head - 1 := Segment(line, 0.0, mx)][head - 1..tail] == Prepended(q[head..tail], line, mx)
  {}

  // ---- The deque ------------------------------------------------------------------------------------------------

  lemma OneLater<X>(q: seq<X>, lo: nat, hi: nat)
    requires lo < hi <= |q|
    ensures q[lo..hi][1..] == q[lo + 1..hi]
  {}

  lemma OneShorter<X>(q: seq<X>, lo: nat, hi: nat)
    requires lo <= hi < |q|
    ensures |q[lo..hi + 1]| == hi - lo + 1 && q[lo..hi + 1][..hi - lo] == q[lo..hi]
  {}

  class PiecewiseMax {
    var q: seq<Segment>
    var head: nat
    var tail: nat
    ghost var lines: seq<Line>

    ghost predicate Window()
      reads this
    {
      head <= tail <= |q|
    }

    ghost predicate Valid()
      reads this
    {
      Window() && Envelope(q[head..tail], lines)
    }

    constructor ()
      ensures Valid() && lines == [] && head == tail == CAPACITY() && |q| == 2 * CAPACITY() + 1
    {
      var n := CAPACITY();
      q := seq(2 * n + 1, _ => Segment(Line(0.0, 0.0), 0.0, 0.0));
      head, tail := n, n;
      lines := [];
    }

    method AddFirst(line: Line)
      requires Window() && head == tail < |q| && Covered(q[head..tail], lines, line)
      modifies this`tail, this`lines, this`q
      ensures |q| == |old(q)| && Valid() && lines == old(lines) + [line] && tail == old(tail) + 1 && q[old(tail)].line == line
    {
      FirstLine(q[head..tail], lines, line);
      q := q[tail := Segment(line, 0.0, INF())];
      tail := tail + 1;
      lines := lines + [line];
      assert q[head..tail] == [Segment(line, 0.0, INF())];
    }

    /** The greatest value at `x`, by a binary search for the segment that `x` falls into. */
    method MaxYFor(x: real) returns (y: real)
      requires Valid() && Domain(x)
      ensures if lines == [] then y == -INF() else IsMaximum(lines, x, y)
    {
      EnvelopeParts(q[head..tail], lines);
      hide Y, Envelope, IsMaximum, INF;
      if head == tail {
        return -INF();
      }
      var h, t := head, tail;
      assert Between(q, head, tail, h, t, x);
      hide Between;
      while h < t
        invariant head <= h <= t <= tail && Between(q, head, tail, h, t, x)
      {
        var m := (h + t) / 2;
        BetweenStep(q, head, tail, h, t, m, x);
        if q[m].x2 < x {
          h := m + 1;
        } else {
          t := m;
        }
      }
      SearchEnds(q, head, tail, lines, h, x);
      y := Y(q[h].line, x);
    }

    /** A line that is at least as steep as the last one. */
    method Append(line: Line)
      requires Valid() && tail < |q|
      requires head < tail ==> q[tail - 1].line.a <= line.a
      modifies this`tail, this`lines, this`q
      ensures |q| == |old(q)| && Valid() && lines == old(lines) + [line] && tail <= old(tail) + 1
      ensures head < tail && q[tail - 1].line.a <= line.a
    {
      hide Y, Covered, Envelope, Joined, EndDropped, INF, Appended, Intersection;
      ghost var w := q[head..tail];
      EnvelopeParts(w, lines);
      EndDroppedStart(w, lines, line);
      ghost var v := w;
      while head < tail && Y(q[tail - 1].line, q[tail - 1].x1) <= Y(line, q[tail - 1].x1)
        modifies this`tail
        invariant Window() && tail <= old(tail) && v == q[head..tail] && EndDropped(w, v, lines, line)
      {
        EndDroppedStep(w, v, lines, line);
        tail := tail - 1;
        OneShorter(q, head, tail);
        v := v[..|v| - 1];
      }
      EndDroppedParts(w, v, lines, line);
      if head == tail {
        AddFirst(line);
        return;
      }
      EndReached(w, v, lines, line);
      if q[tail - 1].line.a == line.a {
        lines := lines + [line];
        return;
      }
      CutLast(line, Intersection(q[tail - 1].line, line));
    }

    /** The last segment ends at `mx`, and a new one starts there. */
    method CutLast(line: Line, mx: real)
      requires head < tail < |q| && Envelope(Appended(q[head..tail], line, mx), lines + [line])
      modifies this`tail, this`lines, this`q
      ensures |q| == |old(q)| && Valid() && lines == old(lines) + [line] && tail == old(tail) + 1 && q[old(tail)].line == line
    {
      hide Envelope, Appended, INF;
      AppendedWindow(q, head, tail, line, mx);
      q := q[tail - 1 := q[tail - 1].(x2 := mx)];
      q := q[tail := Segment(line, mx, INF())];
      tail := tail + 1;
      lines := lines + [line];
    }

    /** A line that is at most as steep as the first one. */
    method Prepend(line: Line)
      requires Valid() && 0 < head && tail < |q|
      requires head < tail ==> line.a <= q[head].line.a
      modifies this`head, this`tail, this`lines, this`q
      ensures |q| == |old(q)| && Valid() && lines == old(lines) + [line] && old(head) - 1 <= head && tail <= old(tail) + 1
      ensures head < tail && line.a <= q[head].line.a
    {
      hide Y, Covered, Envelope, Joined, FrontDropped, INF, Prepended, Intersection;
      ghost var w := q[head..tail];
      EnvelopeParts(w, lines);
      FrontDroppedStart(w, lines, line);
      ghost var v := w;
      while head < tail && Y(q[head].line, q[head].x2) <= Y(line, q[head].x2)
        modifies this`head
        invariant Window() && old(head) <= head && v == q[head..tail] && FrontDropped(w, v, lines, line)
      {
        FrontDroppedStep(w, v, lines, line);
        head := head + 1;
        OneLater(q, head - 1, tail);
        v := v[1..];
      }
      FrontDroppedParts(w, v, lines, line);
      if head == tail {
        AddFirst(line);
        return;
      }
      FrontReached(w, v, lines, line);
      if !(Y(q[head].line, q[head].x1) <= Y(line, q[head].x1)) {
        lines := lines + [line];
        return;
      }
      var mx := Intersection(q[head].line, line);
      ghost var q0 := q;
      q := q[head := q[head].(x1 := mx)];
      head := head - 1;
      q := q[head := Segment(line, 0.0, mx)];
      lines := lines + [line];
      PrependedWindow(q0, head + 1, tail, line, mx);
    }
  }

  lemma EndDroppedParts(w: seq<Segment>, v: seq<Segment>, lines: seq<Line>, line: Line)
    requires EndDropped(w, v, lines, line)
    ensures Covered(v, lines, line) && (v != [] ==> v[|v| - 1].line.a <= line.a)
  {}

  lemma FrontDroppedParts(w: seq<Segment>, v: seq<Segment>, lines: seq<Line>, line: Line)
    requires FrontDropped(w, v, lines, line)
    ensures Covered(v, lines, line) && (v != [] ==> line.a <= v[0].line.a)
  {}

  // ---- The damage of two fighters ---------------------------------------------------------------------------------

  function Max(x: real, y: real): real { if x < y then y else x }

  datatype Fighter = Fighter(d: real, h: real)

  /** The damage a fighter deals while it is alone. */
  function Own(f: Fighter): real { f.d * f.h }

  /** What `first` in front and `second` behind deal before both are gone, times the damage per second they take. */
  function Damage(first: Fighter, second: Fighter): real {
    Own(first) + second.d * first.h + Own(second)
  }

  /** The line of a fighter (d, h): what it adds behind one with health x. */
  function LineOf(f: Fighter): Line { Line(f.d, Own(f)) }

  function LinesOf(fs: seq<Fighter>): seq<Line> { seq(|fs|, i requires 0 <= i < |fs| => LineOf(fs[i])) }

  /** Pairs (i, j), i in front: the later in front of the earlier, and from some fighter on also the other way round. */
  datatype Pairs = Later(hi: nat) | AlsoEarlier(n: nat, lo: nat)

  predicate Among(pairs: Pairs, i: int, j: int) {
    match pairs
    case Later(hi) => 0 <= j < i < hi
    case AlsoEarlier(n, lo) => 0 <= j < i < n || lo <= i < j < n
  }

  /** `res` is at least 0 and every damage of a pair (i, j) with `Among(among, i, j)`, and one of these. */
  ghost predicate Best(fs: seq<Fighter>, among: Pairs, res: real) {
    && 0.0 <= res
    && (forall i, j :: 0 <= i < |fs| && 0 <= j < |fs| && Among(among, i, j) ==> Damage(fs[i], fs[j]) <= res)
    && (res == 0.0 || exists i, j :: 0 <= i < |fs| && 0 <= j < |fs| && Among(among, i, j) && Damage(fs[i], fs[j]) == res)
  }

  lemma DamageByLine(first: Fighter, second: Fighter)
    ensures Damage(first, second) == Own(first) + Y(LineOf(second), first.h)
  {}

  /** One more fighter in front of those whose lines were queried: no damage is greater. */
  lemma NoneGreater(fs: seq<Fighter>, lo: nat, hi: nat, front: nat, lines: seq<Line>, y: real, j: nat)
    requires lo <= j < hi <= |fs| && front < |fs| && multiset(lines) == multiset(LinesOf(fs[lo..hi]))
    requires IsMaximum(lines, fs[front].h, y)
    ensures Damage(fs[front], fs[j]) <= Own(fs[front]) + y
  {
    var ls := LinesOf(fs[lo..hi]);
    assert ls[j - lo] == LineOf(fs[j]);
    assert ls[j - lo] in multiset(lines);
    var k :| 0 <= k < |lines| && lines[k] == ls[j - lo];
    DamageByLine(fs[front], fs[j]);
    hide Y, LineOf, Damage;
    assert Y(lines[k], fs[front].h) <= y;
  }

  /** And one is as great. */
  lemma OneAsGreat(fs: seq<Fighter>, lo: nat, hi: nat, front: nat, lines: seq<Line>, y: real) returns (j: nat)
    requires lo <= hi <= |fs| && front < |fs| && multiset(lines) == multiset(LinesOf(fs[lo..hi]))
    requires IsMaximum(lines, fs[front].h, y)
    ensures lo <= j < hi && Damage(fs[front], fs[j]) == Own(fs[front]) + y
  {
    var ls := LinesOf(fs[lo..hi]);
    var k :| 0 <= k < |lines| && Y(lines[k], fs[front].h) == y;
    assert lines[k] in multiset(ls);
    var i :| 0 <= i < |ls| && ls[i] == lines[k];
    j := lo + i;
    DamageByLine(fs[front], fs[j]);
  }

  lemma BestGrows(fs: seq<Fighter>, among: Pairs, among': Pairs, lo: nat, hi: nat, front: nat, lines: seq<Line>, y: real, own: real, res: real)
    requires lo <= hi <= |fs| && front < |fs| && Best(fs, among, res)
    requires forall i, j :: Among(among', i, j) <==> Among(among, i, j) || (i == front && lo <= j < hi)
    requires multiset(lines) == multiset(LinesOf(fs[lo..hi]))
    requires if lines == [] then y == -INF() else IsMaximum(lines, fs[front].h, y)
    requires own == Own(fs[front]) <= INF()
    ensures Best(fs, among', Max(res, own + y))
  {
    var res' := Max(res, own + y);
    assert |LinesOf(fs[lo..hi])| == |multiset(lines)| == |lines|;
    hide Damage, IsMaximum, LinesOf, INF;
    forall i, j | 0 <= i < |fs| && 0 <= j < |fs| && Among(among', i, j) ensures Damage(fs[i], fs[j]) <= res' {
      if !Among(among, i, j) { NoneGreater(fs, lo, hi, front, lines, y, j); }
    }
    if res < res' {
      var j := OneAsGreat(fs, lo, hi, front, lines, y);
      assert Among(among', front, j);
    } else if res != 0.0 {
      var i, j :| 0 <= i < |fs| && 0 <= j < |fs| && Among(among, i, j) && Damage(fs[i], fs[j]) == res;
      assert Among(among', i, j);
    }
  }

  /** By damage, ties by falling health. */
  predicate ByDamage(f: Fighter, g: Fighter) { f.d < g.d || (f.d == g.d && f.h >= g.h) }

  lemma ByDamageIsOrder()
    ensures TotalPreorder(ByDamage)
  {}

  predicate Fighters(fs: seq<Fighter>) {
    forall i :: 0 <= i < |fs| ==> 0.0 <= fs[i].d && Domain(fs[i].h) && Own(fs[i]) <= INF()
  }

  /** What the loops need of fighter `i`. */
  lemma FighterAt(fs: seq<Fighter>, i: nat)
    requires Fighters(fs) && i < |fs|
    ensures Domain(fs[i].h) && Own(fs[i]) <= INF()
    ensures LinesOf(fs[..i + 1]) == LinesOf(fs[..i]) + [Line(fs[i].d, Own(fs[i]))]
    ensures multiset(LinesOf(fs[i..])) == multiset(LinesOf(fs[i + 1..])) + multiset{Line(fs[i].d, Own(fs[i]))}
  {
    hide Own;
    var l, down, rest := LineOf(fs[i]), fs[i..], fs[i + 1..];
    assert LinesOf(fs[..i + 1]) == LinesOf(fs[..i]) + [l];
    assert forall k :: 0 < k < |down| ==> down[k] == rest[k - 1];
    assert LinesOf(down) == [l] + LinesOf(rest);
  }

  lemma DamageRises(fs: seq<Fighter>, i: nat, j: nat)
    requires Sorted(fs, ByDamage) && i < j < |fs|
    ensures fs[i].d <= fs[j].d
  {
    assert ByDamage(fs[i], fs[j]);
  }

  /** The best of the pairs with a later fighter, but one before `i`, in front of an earlier one. */
  ghost predicate BestInFront(fs: seq<Fighter>, i: nat, res: real) { Best(fs, Later(i), res) }

  lemma BestInFrontGrows(fs: seq<Fighter>, i: nat, lines: seq<Line>, y: real, own: real, res: real)
    requires i < |fs| && BestInFront(fs, i, res) && multiset(lines) == multiset(LinesOf(fs[..i]))
    requires if lines == [] then y == -INF() else IsMaximum(lines, fs[i].h, y)
    requires own == Own(fs[i]) <= INF()
    ensures BestInFront(fs, i + 1, Max(res, own + y))
  {
    assert fs[0..i] == fs[..i];
    BestGrows(fs, Later(i), Later(i + 1), 0, i, i, lines, y, own, res);
  }

  /** The best of these pairs, and of those with a fighter from `i` on in front of a later one. */
  ghost predicate BestSoFar(fs: seq<Fighter>, i: nat, res: real) { Best(fs, AlsoEarlier(|fs|, i), res) }

  lemma BestSoFarGrows(fs: seq<Fighter>, i: nat, lines: seq<Line>, y: real, own: real, res: real)
    requires i < |fs| && BestSoFar(fs, i + 1, res) && multiset(lines) == multiset(LinesOf(fs[i + 1..]))
    requires if lines == [] then y == -INF() else IsMaximum(lines, fs[i].h, y)
    requires own == Own(fs[i]) <= INF()
    ensures BestSoFar(fs, i, Max(res, own + y))
  {
    assert fs[i + 1..|fs|] == fs[i + 1..];
    BestGrows(fs, AlsoEarlier(|fs|, i + 1), AlsoEarlier(|fs|, i), i + 1, |fs|, i, lines, y, own, res);
  }

  /** The lines of the fighters before `i` are in `pw`, with room for the others at the end. */
  ghost predicate HoldsBefore(pw: PiecewiseMax, fs: seq<Fighter>, i: nat)
    requires i <= |fs|
    reads pw
  {
    && pw.Valid() && pw.tail + (|fs| - i) < |pw.q| && pw.lines == LinesOf(fs[..i])
    && (pw.head < pw.tail ==> 0 < i && pw.q[pw.tail - 1].line.a <= fs[i - 1].d)
  }

  /** Fighter `i` in front of those before it in the order. */
  method InFront(fs: seq<Fighter>, pw: PiecewiseMax, i: nat, best: real) returns (res: real)
    requires Sorted(fs, ByDamage) && Fighters(fs) && i < |fs| && HoldsBefore(pw, fs, i) && BestInFront(fs, i, best)
    modifies pw
    ensures HoldsBefore(pw, fs, i + 1) && BestInFront(fs, i + 1, res)
  {
    hide BestInFront, BestSoFar, Best, IsMaximum, INF, Damage, LinesOf, Fighters, Envelope, Sorted, Domain, ByDamage, Own, Max;
    FighterAt(fs, i);
    var own := Own(fs[i]);
    var y := pw.MaxYFor(fs[i].h);
    BestInFrontGrows(fs, i, pw.lines, y, own, best);
    res := Max(best, own + y);
    if 0 < i { DamageRises(fs, i - 1, i); }
    pw.Append(Line(fs[i].d, own));
  }

  /** The first loop: every fighter in front of one that deals no more damage. */
  method FightersInFront(fs: seq<Fighter>) returns (res: real)
    requires Sorted(fs, ByDamage) && Fighters(fs) && |fs| <= CAPACITY()
    ensures BestInFront(fs, |fs|, res)
  {
    var pw := new PiecewiseMax();
    BestOfNone(fs, Later(0));
    LinesOfNone(fs);
    res := AllInFront(fs, pw);
  }

  method AllInFront(fs: seq<Fighter>, pw: PiecewiseMax) returns (res: real)
    requires Sorted(fs, ByDamage) && Fighters(fs) && HoldsBefore(pw, fs, 0) && BestInFront(fs, 0, 0.0)
    modifies pw
    ensures BestInFront(fs, |fs|, res)
  {
    hide BestInFront, HoldsBefore, Fighters, Sorted;
    res := 0.0;
    for i := 0 to |fs|
      invariant HoldsBefore(pw, fs, i) && BestInFront(fs, i, res)
    {
      res := InFront(fs, pw, i, res);
    }
  }

  lemma LinesOfNone(fs: seq<Fighter>)
    ensures LinesOf(fs[..0]) == [] && LinesOf(fs[|fs|..]) == []
  {}

  lemma BestOfNone(fs: seq<Fighter>, among: Pairs)
    requires forall i, j :: 0 <= i < |fs| && 0 <= j < |fs| ==> !Among(among, i, j)
    ensures Best(fs, among, 0.0)
  {}

  lemma NoneEarlierYet(fs: seq<Fighter>, res: real)
    requires BestInFront(fs, |fs|, res)
    ensures BestSoFar(fs, |fs|, res)
  {
    forall i, j ensures Among(Later(|fs|), i, j) == Among(AlsoEarlier(|fs|, |fs|), i, j) {}
    hide Damage, Among;
  }

  /** The lines of the fighters from `i` on are in `pw`, with room for the others in front. */
  ghost predicate HoldsFrom(pw: PiecewiseMax, fs: seq<Fighter>, i: nat)
    requires i <= |fs|
    reads pw
  {
    && pw.Valid() && i <= pw.head && pw.tail + i < |pw.q| && multiset(pw.lines) == multiset(LinesOf(fs[i..]))
    && (pw.head < pw.tail ==> i < |fs| && fs[i].d <= pw.q[pw.head].line.a)
  }

  /** Fighter `i` in front of those after it in the order. */
  method Behind(fs: seq<Fighter>, pw: PiecewiseMax, i: nat, best: real) returns (res: real)
    requires Sorted(fs, ByDamage) && Fighters(fs) && i < |fs| && HoldsFrom(pw, fs, i + 1) && BestSoFar(fs, i + 1, best)
    modifies pw
    ensures HoldsFrom(pw, fs, i) && BestSoFar(fs, i, res)
  {
    hide BestInFront, BestSoFar, Best, IsMaximum, INF, Damage, LinesOf, Fighters, Envelope, Sorted, Domain, ByDamage, Own, Max;
    FighterAt(fs, i);
    var own := Own(fs[i]);
    var y := pw.MaxYFor(fs[i].h);
    BestSoFarGrows(fs, i, pw.lines, y, own, best);
    res := Max(best, own + y);
    if i + 1 < |fs| { DamageRises(fs, i, i + 1); }
    pw.Prepend(Line(fs[i].d, own));
  }

  lemma HoldsNone(pw: PiecewiseMax, fs: seq<Fighter>)
    requires pw.Valid() && pw.lines == [] && |fs| <= pw.head == pw.tail && pw.tail + |fs| < |pw.q|
    ensures HoldsFrom(pw, fs, |fs|)
  {
    LinesOfNone(fs);
  }

  /** The second loop: every fighter in front of one that deals no less damage. */
  method FightersBehind(fs: seq<Fighter>, best: real) returns (res: real)
    requires Sorted(fs, ByDamage) && Fighters(fs) && |fs| <= CAPACITY() && BestInFront(fs, |fs|, best)
    ensures BestSoFar(fs, 0, res)
  {
    var pw := new PiecewiseMax();
    NoneEarlierYet(fs, best);
    HoldsNone(pw, fs);
    res := AllBehind(fs, pw, best);
  }

  method AllBehind(fs: seq<Fighter>, pw: PiecewiseMax, best: real) returns (res: real)
    requires Sorted(fs, ByDamage) && Fighters(fs) && HoldsFrom(pw, fs, |fs|) && BestSoFar(fs, |fs|, best)
    modifies pw
    ensures BestSoFar(fs, 0, res)
  {
    hide BestSoFar, HoldsFrom, Fighters, Sorted;
    res := best;
    var i: nat := |fs|;
    while 0 < i
      invariant i <= |fs| && HoldsFrom(pw, fs, i) && BestSoFar(fs, i, res)
    {
      res := Behind(fs, pw, i - 1, res);
      i := i - 1;
    }
  }

  /** Different fighters of one order are different fighters of another. */
  lemma PairElsewhere(fs: seq<Fighter>, gs: seq<Fighter>, i: nat, j: nat) returns (i': nat, j': nat)
    requires multiset(fs) == multiset(gs) && i < |fs| && j < |fs| && i != j
    ensures i' < |gs| && j' < |gs| && i' != j' && gs[i'] == fs[i] && gs[j'] == fs[j]
  {
    i' := FoundAgain(fs, gs, i);
    MultisetWithout(fs, i);
    MultisetWithout(gs, i');
    var k := if j < i then j else j - 1;
    WithoutAt(fs, i, k);
    hide Without;
    j' := FoundAgain(Without(fs, i), Without(gs, i'), k);
    WithoutAt(gs, i', j');
    j' := if j' < i' then j' else j' + 1;
  }

  lemma ProductOfFighters(f: Fighter, g: Fighter)
    requires 0.0 <= f.d && 0.0 <= f.h && 0.0 <= g.d && 0.0 <= g.h
    ensures 0.0 <= Damage(f, g)
  {
    Product(f.d, f.h);
    Product(g.d, f.h);
    Product(g.d, g.h);
  }

  lemma BestBounds(gs: seq<Fighter>, res: real, i: nat, j: nat)
    requires BestSoFar(gs, 0, res) && i < |gs| && j < |gs| && i != j
    ensures Damage(gs[i], gs[j]) <= res
  {
    hide Damage;
    assert Among(AlsoEarlier(|gs|, 0), i, j);
  }

  lemma BestPair(gs: seq<Fighter>, res: real) returns (i: nat, j: nat)
    requires BestSoFar(gs, 0, res) && res != 0.0
    ensures i < |gs| && j < |gs| && i != j && Damage(gs[i], gs[j]) == res
  {
    hide Damage;
    i, j :| 0 <= i < |gs| && 0 <= j < |gs| && Among(AlsoEarlier(|gs|, 0), i, j) && Damage(gs[i], gs[j]) == res;
  }

  lemma BestOfFew(gs: seq<Fighter>, res: real)
    requires BestSoFar(gs, 0, res) && |gs| < 2
    ensures res == 0.0
  {
    if res != 0.0 { var i, j := BestPair(gs, res); }
  }

  /** With two fighters the best damage is one that a pair deals. */
  lemma BestIsDealt(fs: seq<Fighter>, gs: seq<Fighter>, res: real)
    requires multiset(fs) == multiset(gs) && BestSoFar(gs, 0, res) && Fighters(fs)
    ensures forall i, j :: 0 <= i < |fs| && 0 <= j < |fs| && i != j ==> Damage(fs[i], fs[j]) <= res
    ensures if |fs| < 2 then res == 0.0 else exists i, j :: 0 <= i < |fs| && 0 <= j < |fs| && i != j && Damage(fs[i], fs[j]) == res
  {
    assert |fs| == |multiset(fs)| == |multiset(gs)| == |gs|;
    if 2 <= |fs| { ProductOfFighters(fs[0], fs[1]); }
    hide Damage, INF, BestSoFar, Fighters;
    forall i, j | 0 <= i < |fs| && 0 <= j < |fs| && i != j ensures Damage(fs[i], fs[j]) <= res {
      var i', j' := PairElsewhere(fs, gs, i, j);
      BestBounds(gs, res, i', j');
    }
    if |fs| < 2 {
      BestOfFew(gs, res);
    } else if res == 0.0 {
      assert Damage(fs[0], fs[1]) == res;
    } else {
      var i', j' := BestPair(gs, res);
      var i, j := PairElsewhere(gs, fs, i', j');
      assert Damage(fs[i], fs[j]) == res;
    }
  }

  /** getMaxDamageDealt: the best damage of two different fighters, over the damage `b` they take per second. */
  method GetMaxDamageDealt(n: nat, h: seq<real>, d: seq<real>, b: real) returns (res: real)
    requires |h| == |d| == n <= 1_000_000 && 0.0 < b
    requires var limit := 10000000000000000000000000000000000000000.0;
      forall i :: 0 <= i < n ==> 0.0 <= d[i] && 0.0 <= h[i] <= limit && d[i] * h[i] <= limit
    ensures forall i, j :: 0 <= i < n && 0 <= j < n && i != j ==> (d[i] * h[i] + d[j] * h[i] + d[j] * h[j]) / b <= res
    ensures if n < 2 then res == 0.0 else
      exists i, j :: 0 <= i < n && 0 <= j < n && i != j && res == (d[i] * h[i] + d[j] * h[i] + d[j] * h[j]) / b
  {
    var fs := seq(n, i requires 0 <= i < n => Fighter(d[i], h[i]));
    ByDamageIsOrder();
    var sorted := Sort(fs, ByDamage);
    hide CAPACITY, Fighters, Best, Damage, INF, Sorted, Own, ByDamage, Among;
    FightersOf(n, h, d, fs);
    FightersSorted(fs, sorted);
    var best := FightersInFront(sorted);
    best := FightersBehind(sorted, best);
    BestIsDealt(fs, sorted, best);
    res := best / b;
    DealtPerSecond(n, h, d, fs, best, b);
  }

  lemma DealtPerSecond(n: nat, h: seq<real>, d: seq<real>, fs: seq<Fighter>, best: real, b: real)
    requires |h| == |d| == |fs| == n && 0.0 < b && forall i :: 0 <= i < n ==> fs[i] == Fighter(d[i], h[i])
    requires forall i, j :: 0 <= i < n && 0 <= j < n && i != j ==> Damage(fs[i], fs[j]) <= best
    requires if n < 2 then best == 0.0 else exists i, j :: 0 <= i < n && 0 <= j < n && i != j && Damage(fs[i], fs[j]) == best
    ensures forall i, j :: 0 <= i < n && 0 <= j < n && i != j ==> (d[i] * h[i] + d[j] * h[i] + d[j] * h[j]) / b <= best / b
    ensures if n < 2 then best / b == 0.0 else
      exists i, j :: 0 <= i < n && 0 <= j < n && i != j && best / b == (d[i] * h[i] + d[j] * h[i] + d[j] * h[j]) / b
  {
    hide Damage;
    DealtAtMost(n, h, d, fs, best, b);
    if 2 <= n { DealtBySome(n, h, d, fs, best, b); }
  }

  lemma DealtAtMost(n: nat, h: seq<real>, d: seq<real>, fs: seq<Fighter>, best: real, b: real)
    requires |h| == |d| == |fs| == n && 0.0 < b && forall i :: 0 <= i < n ==> fs[i] == Fighter(d[i], h[i])
    requires forall i, j :: 0 <= i < n && 0 <= j < n && i != j ==> Damage(fs[i], fs[j]) <= best
    ensures forall i, j :: 0 <= i < n && 0 <= j < n && i != j ==> (d[i] * h[i] + d[j] * h[i] + d[j] * h[j]) / b <= best / b
  {
    hide Damage;
    forall i, j | 0 <= i < n && 0 <= j < n && i != j ensures (d[i] * h[i] + d[j] * h[i] + d[j] * h[j]) / b <= best / b {
      OverDamage(d[i], h[i], d[j], h[j], best, b);
    }
  }

  lemma DealtBySome(n: nat, h: seq<real>, d: seq<real>, fs: seq<Fighter>, best: real, b: real)
    requires |h| == |d| == |fs| == n && 0.0 < b && forall i :: 0 <= i < n ==> fs[i] == Fighter(d[i], h[i])
    requires exists i, j :: 0 <= i < n && 0 <= j < n && i != j && Damage(fs[i], fs[j]) == best
    ensures exists i, j :: 0 <= i < n && 0 <= j < n && i != j && best / b == (d[i] * h[i] + d[j] * h[i] + d[j] * h[j]) / b
  {
    hide Damage;
    var i, j :| 0 <= i < n && 0 <= j < n && i != j && Damage(fs[i], fs[j]) == best;
    DamageWritten(fs[i], fs[j]);
    assert best == d[i] * h[i] + d[j] * h[i] + d[j] * h[j];
  }

  lemma OverDamage(d: real, h: real, d': real, h': real, best: real, b: real)
    requires Damage(Fighter(d, h), Fighter(d', h')) <= best && 0.0 < b
    ensures (d * h + d' * h + d' * h') / b <= best / b
  {
    DamageWritten(Fighter(d, h), Fighter(d', h'));
    QuotientRises(Damage(Fighter(d, h), Fighter(d', h')), best, b);
  }

  /** The one in front deals until it is gone, the one behind until both are. */
  lemma DamageWritten(first: Fighter, second: Fighter)
    ensures Damage(first, second) == first.d * first.h + second.d * first.h + second.d * second.h
  {}

  lemma FightersOf(n: nat, h: seq<real>, d: seq<real>, fs: seq<Fighter>)
    requires |h| == |d| == |fs| == n && forall i :: 0 <= i < n ==> fs[i] == Fighter(d[i], h[i])
    requires forall i :: 0 <= i < n ==> 0.0 <= d[i] && 0.0 <= h[i] <= INF() && d[i] * h[i] <= INF()
    ensures Fighters(fs)
  {
    hide INF;
    forall i | 0 <= i < n ensures Own(fs[i]) <= INF() { assert d[i] * h[i] <= INF(); }
  }

  lemma FightersSorted(fs: seq<Fighter>, sorted: seq<Fighter>)
    requires Fighters(fs) && multiset(fs) == multiset(sorted)
    ensures Fighters(sorted)
  {
    forall i | 0 <= i < |sorted| ensures sorted[i] in fs { assert sorted[i] in multiset(sorted); }
  }

  lemma QuotientRises(x: real, y: real, b: real)
    requires x <= y && 0.0 < b
    ensures x / b <= y / b
  {
    Product(y - x, 1.0 / b);
    assert (y - x) * (1.0 / b) == y / b - x / b;
  }
}
