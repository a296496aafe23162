/**
  The BookMyShow of cpp/segment-tree.cc: rows of m seats, filled from the left, under a segment tree in heap layout.
  A segment that is marked full leaves its children stale, and they are never looked at again.
*/
module BookMyShows {
  import opened Arithmetic
  import opened Wrappers
  import FenwickTrees

  datatype Seats = Seats(minOccupied: nat, sumOccupied: nat)

  function Min(a: nat, b: nat): nat { if a <= b then a else b }

  // ---- Plain rows -----------------------------------------------------------------------------------------------

  /** Row `i` may take a group of `k` side by side. */
  predicate Fits(m: nat, rows: seq<nat>, k: nat, limit: int, i: int) {
    0 <= i < |rows| && i < limit && rows[i] + k <= m
  }

  /** `found` is the first row that takes the group, or negative when none does. */
  ghost predicate FirstFit(m: nat, rows: seq<nat>, k: nat, limit: int, found: int) {
    && (0 <= found ==> Fits(m, rows, k, limit, found))
    && (forall i :: 0 <= i && (found < 0 || i < found) ==> !Fits(m, rows, k, limit, i))
  }

  ghost predicate AtMost(m: nat, rows: seq<nat>) { forall i :: 0 <= i < |rows| ==> rows[i] <= m }

  /** The free seats in the first `limit` rows. */
  function Free(m: nat, rows: seq<nat>, limit: int): nat
    requires AtMost(m, rows)
  {
    if rows == [] || limit <= 0 then 0 else m - rows[0] + Free(m, rows[1..], limit - 1)
  }

  /** `need` seats taken in the first `limit` rows, from the first row on. */
  function Fill(m: nat, rows: seq<nat>, limit: int, need: nat): seq<nat>
    requires AtMost(m, rows)
  {
    if rows == [] || limit <= 0 then rows
    else
      var taken := Min(need, m - rows[0]);
      [rows[0] + taken] + Fill(m, rows[1..], limit - 1, need - taken)
  }

  function Total(rows: seq<nat>): nat {
    if rows == [] then 0 else rows[0] + Total(rows[1..])
  }

  lemma {:induction false} TotalConcat(a: seq<nat>, b: seq<nat>)
    ensures Total(a + b) == Total(a) + Total(b)
  {
    if a == [] { assert a + b == b; } else {
      assert (a + b)[1..] == a[1..] + b;
      TotalConcat(a[1..], b);
    }
  }

  lemma {:induction false} FreeConcat(m: nat, a: seq<nat>, b: seq<nat>, limit: int)
    requires AtMost(m, a) && AtMost(m, b)
    ensures AtMost(m, a + b) && Free(m, a + b, limit) == Free(m, a, limit) + Free(m, b, limit - |a|)
  {
    if a == [] { assert a + b == b; } else {
      assert (a + b)[1..] == a[1..] + b;
      FreeConcat(m, a[1..], b, limit - 1);
      if limit <= 0 { NoRowsFree(m, b, limit - |a|); }
    }
  }

  lemma NoRowsFree(m: nat, rows: seq<nat>, limit: int)
    requires AtMost(m, rows) && limit <= 0
    ensures Free(m, rows, limit) == 0
  {}

  function Left(need: nat, free: nat): nat { if need <= free then 0 else need - free }

  lemma AtMostConcat(m: nat, a: seq<nat>, b: seq<nat>)
    requires AtMost(m, a) && AtMost(m, b)
    ensures AtMost(m, a + b) && (a != [] ==> a[0] <= m && AtMost(m, a[1..]))
  {}

  lemma FillFirst(m: nat, first: nat, rest: seq<nat>, limit: int, need: nat)
    requires AtMost(m, rest) && first <= m && 0 < limit && AtMost(m, [first] + rest)
    ensures var taken := Min(need, m - first);
      taken <= need && Fill(m, [first] + rest, limit, need) == [first + taken] + Fill(m, rest, limit - 1, need - taken)
      && Left(need - taken, Free(m, rest, limit - 1)) == Left(need, Free(m, [first] + rest, limit))
  {
    assert ([first] + rest)[1..] == rest;
  }

  lemma FillNoRows(m: nat, a: seq<nat>, b: seq<nat>, limit: int, need: nat)
    requires AtMost(m, a) && AtMost(m, b) && AtMost(m, a + b) && (a == [] || limit <= 0)
    ensures Fill(m, a + b, limit, need) == Fill(m, a, limit, need) + Fill(m, b, limit - |a|, Left(need, Free(m, a, limit)))
  {
    if a == [] {
      assert a + b == b;
      assert Left(need, Free(m, a, limit)) == need && Fill(m, a, limit, need) == [];
    }
  }

  lemma {:induction false} FillConcat(m: nat, a: seq<nat>, b: seq<nat>, limit: int, need: nat)
    requires AtMost(m, a) && AtMost(m, b)
    ensures AtMost(m, a + b)
    ensures Fill(m, a + b, limit, need) == Fill(m, a, limit, need) + Fill(m, b, limit - |a|, Left(need, Free(m, a, limit)))
  {
    AtMostConcat(m, a, b);
    hide Fill, Free, AtMost, Min, Left;
    if a == [] || limit <= 0 {
      FillNoRows(m, a, b, limit, need);
    } else {
      var x, t := a[0], a[1..];
      assert a == [x] + t && a + b == [x] + (t + b);
      FillConcat(m, t, b, limit - 1, need - Min(need, m - x)) by { FillFirst(m, x, t, limit, need); }
      FillMore(m, x, t, b, limit, need);
    }
  }

  /** The step of FillConcat. */
  lemma FillMore(m: nat, x: nat, t: seq<nat>, b: seq<nat>, limit: int, need: nat)
    requires x <= m && AtMost(m, t) && AtMost(m, b) && AtMost(m, t + b) && 0 < limit && AtMost(m, [x] + t) && AtMost(m, [x] + (t + b))
    requires Min(need, m - x) <= need
    requires Fill(m, t + b, limit - 1, need - Min(need, m - x))
          == Fill(m, t, limit - 1, need - Min(need, m - x)) + Fill(m, b, limit - 1 - |t|, Left(need - Min(need, m - x), Free(m, t, limit - 1)))
    ensures Fill(m, [x] + (t + b), limit, need)
         == Fill(m, [x] + t, limit, need) + Fill(m, b, limit - |[x] + t|, Left(need, Free(m, [x] + t, limit)))
  {
    FillFirst(m, x, t, limit, need);
    FillFirst(m, x, t + b, limit, need);
    hide *;
  }

  /** What filling does to each row: it gets what the rows before it could not take. */
  lemma {:induction false} FillRow(m: nat, rows: seq<nat>, limit: int, need: nat, i: nat)
    requires AtMost(m, rows) && i < |rows|
    ensures |Fill(m, rows, limit, need)| == |rows|
    ensures AtMost(m, rows[..i])
    ensures Fill(m, rows, limit, need)[i] ==
      if i < limit then Min(m, rows[i] + Left(need, Free(m, rows[..i], i))) else rows[i]
  {
    FillLength(m, rows, limit, need);
    if 0 < limit && 0 < i {
      assert rows[..i][1..] == rows[1..][..i - 1];
      FillRow(m, rows[1..], limit - 1, need - Min(need, m - rows[0]), i - 1);
    }
  }

  lemma {:induction false} FillLength(m: nat, rows: seq<nat>, limit: int, need: nat)
    requires AtMost(m, rows)
    ensures |Fill(m, rows, limit, need)| == |rows|
    ensures AtMost(m, Fill(m, rows, limit, need))
  {
    if rows != [] && 0 < limit {
      FillLength(m, rows[1..], limit - 1, need - Min(need, m - rows[0]));
    }
  }

  /** No seat is lost or invented: what was taken and what is still free add up. */
  lemma {:induction false} FillTakes(m: nat, rows: seq<nat>, limit: int, need: nat)
    requires AtMost(m, rows)
    ensures Total(Fill(m, rows, limit, need)) == Total(rows) + Min(need, Free(m, rows, limit))
    ensures AtMost(m, Fill(m, rows, limit, need))
    ensures Free(m, Fill(m, rows, limit, need), limit) == Free(m, rows, limit) - Min(need, Free(m, rows, limit))
  {
    FillLength(m, rows, limit, need);
    if rows != [] && 0 < limit {
      FillTakes(m, rows[1..], limit - 1, need - Min(need, m - rows[0]));
    }
  }

  lemma {:induction false} FillNothing(m: nat, rows: seq<nat>, limit: int)
    requires AtMost(m, rows)
    ensures Fill(m, rows, limit, 0) == rows
  {
    if rows != [] && 0 < limit { FillNothing(m, rows[1..], limit - 1); }
  }

  lemma {:induction false} FillEverything(m: nat, rows: seq<nat>, limit: int, need: nat)
    requires AtMost(m, rows) && |rows| <= limit && Free(m, rows, limit) <= need
    ensures Fill(m, rows, limit, need) == seq(|rows|, _ => m)
  {
    if rows != [] { FillEverything(m, rows[1..], limit - 1, need - (m - rows[0])); }
  }

  lemma {:induction false} FullRows(m: nat, n: nat, limit: int, need: nat)
    ensures var full := seq(n, _ => m); AtMost(m, full) && Total(full) == m * n && Free(m, full, limit) == 0 && Fill(m, full, limit, need) == full
  {
    var full := seq(n, _ => m);
    if n != 0 {
      assert full[1..] == seq(n - 1, _ => m);
      FullRows(m, n - 1, limit - 1, need);
      assert m * n == m * (n - 1) + m;
    }
  }

  /** The rows that all count have as many free seats as their total leaves. */
  lemma {:induction false} FreeOfTotal(m: nat, rows: seq<nat>, limit: int)
    requires AtMost(m, rows) && |rows| <= limit
    ensures Free(m, rows, limit) == m * |rows| - Total(rows)
  {
    if rows != [] {
      FreeOfTotal(m, rows[1..], limit - 1);
      assert m * |rows| == m * (|rows| - 1) + m;
    }
  }

  // ---- The tree -------------------------------------------------------------------------------------------------

  /** Segment `i` of height `h` and all below it have their places. */
  predicate Room(i: nat, h: nat, total: nat)
    decreases h
  {
    i < total && (h != 0 ==> Room(2 * i + 1, h - 1, total) && Room(2 * i + 2, h - 1, total))
  }

  lemma {:induction false} RoomFor(i: nat, h: nat, total: nat)
    requires (i + 2) * Pow2(h) <= total
    ensures Room(i, h, total)
    decreases h
  {
    AtLeastOnce(Pow2(h), i + 2);
    if h != 0 {
      var p := Pow2(h - 1);
      assert (2 * i + 4) * p == (i + 2) * (2 * p);
      assert (2 * i + 3) * p <= (2 * i + 4) * p;
      RoomFor(2 * i + 1, h - 1, total);
      RoomFor(2 * i + 2, h - 1, total);
    }
  }

  /** Segment `j` is `i` or below it. */
  predicate Below(i: nat, j: nat) { j == i || (i < j && Below(i, (j - 1) / 2)) }

  lemma {:induction false} HalvesBelow(i: nat, j: nat)
    ensures Below(2 * i + 1, j) || Below(2 * i + 2, j) ==> Below(i, j) && j != i
    ensures !(Below(2 * i + 1, j) && Below(2 * i + 2, j))
    decreases j
  {
    if 2 * i + 2 < j { HalvesBelow(i, (j - 1) / 2); }
  }

  /** The seats taken in each row, a full segment speaking for all of its rows. */
  function Rows(m: nat, segs: seq<Seats>, i: nat, h: nat): (rows: seq<nat>)
    requires Room(i, h, |segs|)
    ensures |rows| == Pow2(h)
    decreases h
  {
    if segs[i].minOccupied == m then seq(Pow2(h), _ => m)
    else if h == 0 then [segs[i].minOccupied]
    else Rows(m, segs, 2 * i + 1, h - 1) + Rows(m, segs, 2 * i + 2, h - 1)
  }

  /** A segment that is not full agrees with its halves. */
  ghost predicate Valid(m: nat, segs: seq<Seats>, i: nat, h: nat)
    requires Room(i, h, |segs|)
    decreases h
  {
    if segs[i].minOccupied == m then segs[i].sumOccupied == m * Pow2(h)
    else if h == 0 then segs[i].minOccupied == segs[i].sumOccupied < m
    else
      && Room(2 * i + 1, h - 1, |segs|) && Room(2 * i + 2, h - 1, |segs|)
      && Valid(m, segs, 2 * i + 1, h - 1) && Valid(m, segs, 2 * i + 2, h - 1)
      && segs[i] == UpdateSegment(segs[2 * i + 1], segs[2 * i + 2])
  }

  /** The two numbers of a segment are the least occupied row and the number of seats taken. */
  lemma {:induction false} SegmentMeans(m: nat, segs: seq<Seats>, i: nat, h: nat)
    requires Room(i, h, |segs|) && Valid(m, segs, i, h)
    ensures var rows := Rows(m, segs, i, h);
      AtMost(m, rows) && segs[i].sumOccupied == Total(rows) &&
      (forall j :: 0 <= j < |rows| ==> segs[i].minOccupied <= rows[j]) && segs[i].minOccupied in rows
    decreases h
  {
    if segs[i].minOccupied == m {
      FullRows(m, Pow2(h), 0, 0);
      assert Rows(m, segs, i, h)[0] == m;
    } else if h != 0 {
      SegmentMeans(m, segs, 2 * i + 1, h - 1);
      SegmentMeans(m, segs, 2 * i + 2, h - 1);
      TotalConcat(Rows(m, segs, 2 * i + 1, h - 1), Rows(m, segs, 2 * i + 2, h - 1));
    }
  }

  ghost predicate SameBelow(segs: seq<Seats>, segs': seq<Seats>, i: nat) {
    |segs| == |segs'| && forall j: nat :: j < |segs| && Below(i, j) ==> segs[j] == segs'[j]
  }

  ghost predicate SameElsewhere(segs: seq<Seats>, segs': seq<Seats>, i: nat) {
    |segs| == |segs'| && forall j: nat :: j < |segs| && !Below(i, j) ==> segs[j] == segs'[j]
  }

  lemma {:induction false} Untouched(m: nat, segs: seq<Seats>, segs': seq<Seats>, i: nat, h: nat)
    requires SameBelow(segs, segs', i) && Room(i, h, |segs|)
    ensures Rows(m, segs, i, h) == Rows(m, segs', i, h)
    ensures Valid(m, segs, i, h) == Valid(m, segs', i, h)
    decreases h
  {
    assert Below(i, i);
    if h != 0 {
      forall j: nat ensures Below(2 * i + 1, j) || Below(2 * i + 2, j) ==> Below(i, j) { HalvesBelow(i, j); }
      Untouched(m, segs, segs', 2 * i + 1, h - 1);
      Untouched(m, segs, segs', 2 * i + 2, h - 1);
    }
  }

  /** updateSegment. */
  function UpdateSegment(a: Seats, b: Seats): Seats {
    Seats(Min(a.minOccupied, b.minOccupied), a.sumOccupied + b.sumOccupied)
  }

  /** Changes to the halves stay in the segment, and those to one half leave the other alone. */
  lemma HalvesApart(s0: seq<Seats>, s1: seq<Seats>, s2: seq<Seats>, s3: seq<Seats>, i: nat, x: Seats)
    requires 2 * i + 2 < |s0| && SameElsewhere(s0, s1, 2 * i + 1) && SameElsewhere(s1, s2, 2 * i + 2) && s3 == s2[i := x]
    ensures SameElsewhere(s0, s3, i) && SameBelow(s0, s1, 2 * i + 2)
    ensures SameBelow(s1, s3, 2 * i + 1) && SameBelow(s2, s3, 2 * i + 2)
  {
    assert Below(i, i);
    forall j: nat
      ensures !(Below(2 * i + 1, j) && Below(2 * i + 2, j))
      ensures Below(2 * i + 1, j) || Below(2 * i + 2, j) ==> Below(i, j) && j != i
    {
      HalvesBelow(i, j);
    }
    hide Below;
  }

  /** Both halves visited, the left one first, and the segment updated. */
  lemma HalvesVisited(m: nat, s0: seq<Seats>, s1: seq<Seats>, s2: seq<Seats>, s3: seq<Seats>, i: nat, h: nat)
    requires 0 < h && Room(i, h, |s0|)
    requires SameElsewhere(s0, s1, 2 * i + 1) && Valid(m, s1, 2 * i + 1, h - 1)
    requires SameElsewhere(s1, s2, 2 * i + 2) && Valid(m, s2, 2 * i + 2, h - 1)
    requires s3 == s2[i := UpdateSegment(s2[2 * i + 1], s2[2 * i + 2])]
    ensures Valid(m, s3, i, h) && SameElsewhere(s0, s3, i)
    ensures Rows(m, s1, 2 * i + 2, h - 1) == Rows(m, s0, 2 * i + 2, h - 1)
    ensures Rows(m, s3, i, h) == Rows(m, s1, 2 * i + 1, h - 1) + Rows(m, s2, 2 * i + 2, h - 1)
  {
    var lc, rc := 2 * i + 1, 2 * i + 2;
    HalvesApart(s0, s1, s2, s3, i, s3[i]);
    Untouched(m, s0, s1, rc, h - 1);
    Untouched(m, s1, s3, lc, h - 1);
    Untouched(m, s2, s3, rc, h - 1);
    SegmentUpdated(m, s3, i, h);
  }

  lemma SegmentUpdated(m: nat, segs: seq<Seats>, i: nat, h: nat)
    requires 0 < h && Room(i, h, |segs|)
    requires Valid(m, segs, 2 * i + 1, h - 1) && Valid(m, segs, 2 * i + 2, h - 1)
    requires segs[i] == UpdateSegment(segs[2 * i + 1], segs[2 * i + 2])
    ensures Valid(m, segs, i, h)
    ensures Rows(m, segs, i, h) == Rows(m, segs, 2 * i + 1, h - 1) + Rows(m, segs, 2 * i + 2, h - 1)
  {
    FullIfLeast(m, segs, 2 * i + 1, h - 1);
    FullIfLeast(m, segs, 2 * i + 2, h - 1);
  }

  lemma FullIfLeast(m: nat, segs: seq<Seats>, i: nat, h: nat)
    requires Room(i, h, |segs|) && Valid(m, segs, i, h)
    ensures segs[i].minOccupied <= m
    ensures segs[i].minOccupied == m ==> Rows(m, segs, i, h) == seq(Pow2(h), _ => m) && segs[i].sumOccupied == m * Pow2(h)
  {
    SegmentMeans(m, segs, i, h);
  }

  lemma FirstFitConcat(m: nat, a: seq<nat>, b: seq<nat>, k: nat, limit: int, fa: int, fb: int)
    requires FirstFit(m, a, k, limit, fa) && (fa < 0 ==> FirstFit(m, b, k, limit - |a|, fb))
    ensures FirstFit(m, a + b, k, limit, if 0 <= fa then fa else if 0 <= fb then |a| + fb else -1)
  {
    forall i
      ensures i < |a| ==> Fits(m, a + b, k, limit, i) == Fits(m, a, k, limit, i)
      ensures |a| <= i ==> Fits(m, a + b, k, limit, i) == Fits(m, b, k, limit - |a|, i - |a|)
    {}
    if fa < 0 {
      forall i | 0 <= i < |a| ensures !Fits(m, a, k, limit, i) {}
    }
  }

  function Offset(row: int, l: nat): int { if row < 0 then -1 else row - l }

  /** The rows after a group of `k` was seated in row `found`, if there is one. */
  /** The free seats that gather looks for: full rows are passed over before the size of the group counts. */
  function Wanted(k: nat): nat { if k == 0 then 1 else k }

  /** For a group of none that is the first row exactly when this is not full; otherwise a later one is given, or none. */
  lemma GroupOfNone(m: nat, rows: seq<nat>, limit: int, found: int)
    requires rows != [] && rows[0] <= m && 0 < limit && FirstFit(m, rows, Wanted(0), limit, found)
    ensures FirstFit(m, rows, 0, limit, found) <==> rows[0] < m
  {
    assert Fits(m, rows, 0, limit, 0);
    assert Fits(m, rows, 1, limit, 0) <==> rows[0] < m;
  }

  /** A full first row: a group of none is sent to the second, or away. */
  lemma NoneSentOn()
    ensures FirstFit(1, [1, 0], Wanted(0), 2, 1) && !FirstFit(1, [1, 0], 0, 2, 1)
    ensures FirstFit(1, [1, 0], Wanted(0), 1, -1) && !FirstFit(1, [1, 0], 0, 1, -1)
  {
    assert Fits(1, [1, 0], 0, 2, 0) && Fits(1, [1, 0], 0, 1, 0) && Fits(1, [1, 0], 1, 2, 1);
  }

  function Seated(rows: seq<nat>, k: nat, found: int): seq<nat>
    requires found < |rows|
  {
    if found < 0 then rows else rows[found := rows[found] + k]
  }

  /** A segment whose least occupied row is too full, or that lies past the limit, has no row for the group. */
  lemma NoneFits(m: nat, segs: seq<Seats>, i: nat, h: nat, k: nat, limit: int)
    requires Room(i, h, |segs|) && Valid(m, segs, i, h)
    requires m < segs[i].minOccupied + k || limit <= 0
    ensures FirstFit(m, Rows(m, segs, i, h), k, limit, -1)
    ensures forall seats: nat :: Seated(Rows(m, segs, i, h), seats, -1) == Rows(m, segs, i, h)
  {
    SegmentMeans(m, segs, i, h);
  }

  /** A segment that is entered is made of its halves. */
  lemma Entered(m: nat, segs: seq<Seats>, i: nat, h: nat)
    requires 0 < h && Room(i, h, |segs|) && Valid(m, segs, i, h) && segs[i].minOccupied != m
    ensures Room(2 * i + 1, h - 1, |segs|) && Room(2 * i + 2, h - 1, |segs|)
    ensures Valid(m, segs, 2 * i + 1, h - 1) && Valid(m, segs, 2 * i + 2, h - 1)
    ensures Rows(m, segs, i, h) == Rows(m, segs, 2 * i + 1, h - 1) + Rows(m, segs, 2 * i + 2, h - 1)
  {}

  /** A row of its own. */
  lemma OneRow(m: nat, segs: seq<Seats>, i: nat, more: nat)
    requires Room(i, 0, |segs|) && Valid(m, segs, i, 0) && segs[i].minOccupied + more <= m
    ensures var segs' := segs[i := Seats(segs[i].minOccupied + more, segs[i].minOccupied + more)];
      Rows(m, segs, i, 0) == [segs[i].minOccupied] && segs[i].sumOccupied == segs[i].minOccupied
      && Valid(m, segs', i, 0) && Rows(m, segs', i, 0) == [segs[i].minOccupied + more] && SameElsewhere(segs, segs', i)
  {
    assert Pow2(0) == 1;
    assert Below(i, i);
  }

  lemma OneRowFits(m: nat, row: nat, k: nat, limit: int)
    requires row + Wanted(k) <= m && 0 < limit
    ensures FirstFit(m, [row], Wanted(k), limit, 0) && Seated([row], k, 0) == [row + k]
  {}

  class BookMyShow {
    const m: nat
    var size: nat
    var segs: seq<Seats>
    ghost var height: nat

    ghost predicate Ok()
      reads this
    {
      size == Pow2(height) && Room(0, height, |segs|) && Valid(m, segs, 0, height)
    }

    /** The seats taken in each row. */
    ghost function Contents(): (rows: seq<nat>)
      requires Ok()
      reads this
    {
      Rows(m, segs, 0, height)
    }

    constructor (n: nat, m: nat)
      ensures Ok() && this.m == m && n <= |Contents()| && Contents() == seq(|Contents()|, _ => 0)
    {
      this.m := m;
      var c := FenwickTrees.CeilingTwo(n);
      size := c;
      segs := seq(2 * c, _ => Seats(0, 0));
      ghost var h :| c == Pow2(h);
      height := h;
      new;
      RoomFor(0, height, |segs|);
      NobodySeated(m, segs, 0, height);
    }

    /** filterOutSeg. */
    predicate FilterOut(seg: Seats, l: nat, maxR: nat) { seg.minOccupied == m || maxR <= l }

    /** dfsIf with the callback canGather, at segment `i` for the rows l .. r - 1. */
    method GatherAt(i: nat, l: nat, r: nat, ghost h: nat, k: nat, maxR: nat, row: int, col: int) returns (row': int, col': int)
      requires r == l + Pow2(h) && Room(i, h, |segs|) && Valid(m, segs, i, h)
      modifies this`segs
      ensures |segs| == |old(segs)| && SameElsewhere(old(segs), segs, i) && Valid(m, segs, i, h)
      ensures 0 <= row ==> segs == old(segs) && row' == row && col' == col
      ensures row < 0 ==> Offset(row', l) < Pow2(h) && FirstFit(m, old(Rows(m, segs, i, h)), Wanted(k), maxR - l, Offset(row', l))
      ensures row < 0 ==> Rows(m, segs, i, h) == Seated(old(Rows(m, segs, i, h)), k, Offset(row', l))
      ensures row < 0 <= row' ==> l <= row' && col' == old(Rows(m, segs, i, h))[row' - l]
      decreases h
    {
      hide Valid, Rows, FirstFit, Below, SameElsewhere, Pow2, Seated;
      row', col' := row, col;
      ghost var s0 := segs;
      SameSegments(segs, i);
      SegmentMeans(m, segs, i, h);
      ghost var rows := Rows(m, segs, i, h);
      if 0 <= row {
        return;
      }
      if FilterOut(segs[i], l, maxR) || m < segs[i].minOccupied + k {
        NoneFits(m, segs, i, h, Wanted(k), maxR - l);
        return;
      }
      if l + 1 == r {
        HeightOfOne(h);
        OneRow(m, segs, i, k);
        OneRowFits(m, segs[i].minOccupied, k, maxR - l);
        row', col' := l, segs[i].minOccupied;
        segs := segs[i := Seats(segs[i].minOccupied + k, segs[i].sumOccupied + k)];
        return;
      }
      HeightOfMore(h);
      Entered(m, segs, i, h);
      var mid := (l + r) / 2;
      ghost var a, b := Rows(m, segs, 2 * i + 1, h - 1), Rows(m, segs, 2 * i + 2, h - 1);
      row', col' := GatherAt(2 * i + 1, l, mid, h - 1, k, maxR, row', col');
      ghost var s1, fa := segs, Offset(row', l);
      OtherHalf(m, s0, s1, i, h);
      row', col' := GatherAt(2 * i + 2, mid, r, h - 1, k, maxR, row', col');
      ghost var s2, fb := segs, Offset(row', mid);
      segs := segs[i := UpdateSegment(segs[2 * i + 1], segs[2 * i + 2])];
      HalvesVisited(m, s0, s1, s2, segs, i, h);
      FirstFitConcat(m, a, b, Wanted(k), maxR - l, fa, fb);
      SeatedConcat(a, b, k, fa, fb);
    }

    /** Seats `k` people side by side in the first row up to `maxRow` that has the places; for nobody, in the first that is
        not full. */
    method Gather(k: nat, maxRow: nat) returns (seat: Option<(nat, nat)>)
      requires Ok()
      modifies this`segs
      ensures Ok() && |Contents()| == old(|Contents()|)
      ensures seat.None? ==> FirstFit(m, old(Contents()), Wanted(k), maxRow + 1, -1) && Contents() == old(Contents())
      ensures seat.Some? ==>
        var (row, col) := seat.value;
        && FirstFit(m, old(Contents()), Wanted(k), maxRow + 1, row) && col == old(Contents())[row]
        && Contents() == old(Contents())[row := col + k]
    {
      hide Room, Valid, Rows, FirstFit;
      var row, col := GatherAt(0, 0, size, height, k, maxRow + 1, -1, -1);
      SameRoom(0, height, old(|segs|), |segs|);
      seat := if 0 <= row then Some((row, col)) else None;
      assert old(Contents()) == old(Rows(m, segs, 0, height));
    }

    /** The callback scatterSeg: takes what it can of segment `i`, or has the search enter it.  The first of the two
        passes of `Scatter` leaves everything as it is. */
    method ScatterSeg(i: nat, l: nat, r: nat, ghost h: nat, maxr: nat, updateNode: bool, neededSeats: nat)
      returns (enter: bool, needed: nat)
      requires r == l + Pow2(h) && Room(i, h, |segs|) && Valid(m, segs, i, h)
      requires AtMost(m, Rows(m, segs, i, h))
      modifies this`segs
      ensures |segs| == |old(segs)| && SameElsewhere(old(segs), segs, i) && Valid(m, segs, i, h)
      ensures enter ==> needed == neededSeats && segs == old(segs) && l + 1 != r && segs[i].minOccupied != m
      ensures !enter ==> needed == Left(neededSeats, old(Free(m, Rows(m, segs, i, h), maxr - l)))
      ensures !enter && !updateNode ==> segs == old(segs)
      ensures !enter && updateNode ==> Rows(m, segs, i, h) == old(Fill(m, Rows(m, segs, i, h), maxr - l, neededSeats))
    {
      hide Valid, Rows, Below, SameElsewhere, Pow2, Free, Fill, AtMost;
      needed := neededSeats;
      SameSegments(segs, i);
      SegmentMeans(m, segs, i, h);
      FillNothing(m, Rows(m, segs, i, h), maxr - l);
      if needed == 0 {
        return false, needed;
      }
      if FilterOut(segs[i], l, maxr) {
        NothingToTake(m, segs, i, h, maxr - l, neededSeats);
        return false, needed;
      }
      if r <= maxr {
        TakeSegment(m, segs, i, h, maxr - l, neededSeats);
        var seats := (r - l) * m - segs[i].sumOccupied;
        if seats <= needed {
          if updateNode {
            segs := segs[i := Seats(m, m * (r - l))];
          }
          return false, needed - seats;
        } else if l + 1 == r {
          HeightOfOne(h);
          OneRowPartly(m, segs, i, maxr - l, neededSeats);
          if updateNode {
            var taken := segs[i].minOccupied + needed;
            segs := segs[i := Seats(taken, taken)];
          }
          return false, 0;
        }
      }
      return true, needed;
    }

    /** dfsIf with this callback, at segment `i` for the rows l .. r - 1. */
    method ScatterAt(i: nat, l: nat, r: nat, ghost h: nat, maxr: nat, updateNode: bool, neededSeats: nat) returns (needed: nat)
      requires r == l + Pow2(h) && Room(i, h, |segs|) && Valid(m, segs, i, h)
      requires AtMost(m, Rows(m, segs, i, h))
      modifies this`segs
      ensures |segs| == |old(segs)| && SameElsewhere(old(segs), segs, i) && Valid(m, segs, i, h)
      ensures needed == Left(neededSeats, old(Free(m, Rows(m, segs, i, h), maxr - l)))
      ensures !updateNode ==> segs == old(segs)
      ensures updateNode ==> Rows(m, segs, i, h) == old(Fill(m, Rows(m, segs, i, h), maxr - l, neededSeats))
      decreases h
    {
      hide Valid, Rows, Below, SameElsewhere, Pow2, Free, Fill, AtMost;
      ghost var s0 := segs;
      var enter;
      enter, needed := ScatterSeg(i, l, r, h, maxr, updateNode, neededSeats);
      if !enter {
        return;
      }
      HeightOfMore(h);
      Entered(m, segs, i, h);
      var mid := (l + r) / 2;
      ghost var a, b := Rows(m, segs, 2 * i + 1, h - 1), Rows(m, segs, 2 * i + 2, h - 1);
      SegmentMeans(m, segs, 2 * i + 1, h - 1);
      SegmentMeans(m, segs, 2 * i + 2, h - 1);
      FreeConcat(m, a, b, maxr - l);
      FillConcat(m, a, b, maxr - l, neededSeats);
      needed := ScatterAt(2 * i + 1, l, mid, h - 1, maxr, updateNode, needed);
      ghost var s1 := segs;
      OtherHalf(m, s0, s1, i, h);
      needed := ScatterAt(2 * i + 2, mid, r, h - 1, maxr, updateNode, needed);
      ghost var s2 := segs;
      if updateNode {
        segs := segs[i := UpdateSegment(segs[2 * i + 1], segs[2 * i + 2])];
        HalvesVisited(m, s0, s1, s2, segs, i, h);
      }
    }

    /** Seats `k` people in the rows up to `maxRow`, from the first row on, if there are that many places. */
    method Scatter(k: nat, maxRow: nat) returns (ok: bool)
      requires Ok()
      modifies this`segs
      ensures Ok() && AtMost(m, old(Contents()))
      ensures ok <==> k <= Free(m, old(Contents()), maxRow + 1)
      ensures Contents() == if ok then Fill(m, old(Contents()), maxRow + 1, k) else old(Contents())
    {
      hide Room, Valid, Rows, Free, Fill, AtMost;
      SegmentMeans(m, segs, 0, height);
      var neededSeats := ScatterAt(0, 0, size, height, maxRow + 1, false, k);
      if 0 < neededSeats {
        return false;
      }
      neededSeats := ScatterAt(0, 0, size, height, maxRow + 1, true, k);
      SameRoom(0, height, old(|segs|), |segs|);
      return true;
    }
  }

  lemma SameRoom(i: nat, h: nat, total: nat, total': nat)
    requires Room(i, h, total) && total == total'
    ensures Room(i, h, total')
  {}

  /** A full segment, and one past the limit, gives no seat. */
  lemma NothingToTake(m: nat, segs: seq<Seats>, i: nat, h: nat, limit: int, need: nat)
    requires Room(i, h, |segs|) && Valid(m, segs, i, h) && AtMost(m, Rows(m, segs, i, h))
    requires segs[i].minOccupied == m || limit <= 0
    ensures Free(m, Rows(m, segs, i, h), limit) == 0
    ensures Fill(m, Rows(m, segs, i, h), limit, need) == Rows(m, segs, i, h)
  {
    FullRows(m, Pow2(h), limit, need);
  }

  /** A segment of usable rows: its free seats, and the record that takes them all. */
  lemma TakeSegment(m: nat, segs: seq<Seats>, i: nat, h: nat, limit: int, need: nat)
    requires Room(i, h, |segs|) && Valid(m, segs, i, h) && AtMost(m, Rows(m, segs, i, h)) && Pow2(h) <= limit
    ensures Free(m, Rows(m, segs, i, h), limit) == Pow2(h) * m - segs[i].sumOccupied
    ensures var segs' := segs[i := Seats(m, m * Pow2(h))];
      Room(i, h, |segs'|) && Valid(m, segs', i, h) && SameElsewhere(segs, segs', i) &&
      (Free(m, Rows(m, segs, i, h), limit) <= need ==> Rows(m, segs', i, h) == Fill(m, Rows(m, segs, i, h), limit, need))
  {
    var rows := Rows(m, segs, i, h);
    SegmentMeans(m, segs, i, h);
    FreeOfTotal(m, rows, limit);
    assert Below(i, i);
    if Free(m, rows, limit) <= need { FillEverything(m, rows, limit, need); }
  }

  lemma OneRowPartly(m: nat, segs: seq<Seats>, i: nat, limit: int, need: nat)
    requires Room(i, 0, |segs|) && Valid(m, segs, i, 0) && 0 < limit && AtMost(m, Rows(m, segs, i, 0))
    requires need < Free(m, Rows(m, segs, i, 0), limit)
    ensures var taken := segs[i].minOccupied + need;
      var segs' := segs[i := Seats(taken, taken)];
      Room(i, 0, |segs'|) && Valid(m, segs', i, 0) && SameElsewhere(segs, segs', i)
      && Rows(m, segs', i, 0) == Fill(m, Rows(m, segs, i, 0), limit, need)
  {
    SegmentMeans(m, segs, i, 0);
    assert Pow2(0) == 1;
    assert Below(i, i);
    FillRow(m, Rows(m, segs, i, 0), limit, need, 0);
  }

  lemma SameSegments(segs: seq<Seats>, i: nat)
    ensures SameElsewhere(segs, segs, i)
  {}

  lemma OtherHalf(m: nat, s0: seq<Seats>, s1: seq<Seats>, i: nat, h: nat)
    requires 0 < h && Room(i, h, |s0|) && SameElsewhere(s0, s1, 2 * i + 1)
    ensures Rows(m, s0, 2 * i + 2, h - 1) == Rows(m, s1, 2 * i + 2, h - 1)
    ensures Valid(m, s0, 2 * i + 2, h - 1) == Valid(m, s1, 2 * i + 2, h - 1)
  {
    HalvesApart(s0, s1, s1, s1, i, s1[i]);
    Untouched(m, s0, s1, 2 * i + 2, h - 1);
  }

  lemma SeatedConcat(a: seq<nat>, b: seq<nat>, k: nat, fa: int, fb: int)
    requires fa < |a| && fb < |b|
    ensures 0 <= fa ==> Seated(a + b, k, fa) == Seated(a, k, fa) + b
    ensures fa < 0 <= fb ==> Seated(a + b, k, |a| + fb) == Seated(a, k, fa) + Seated(b, k, fb)
    ensures fa < 0 && fb < 0 ==> Seated(a + b, k, -1) == Seated(a, k, fa) + Seated(b, k, fb)
  {}

  lemma HeightOfOne(h: nat)
    requires Pow2(h) == 1
    ensures h == 0
  {}

  lemma HeightOfMore(h: nat)
    requires Pow2(h) != 1
    ensures 0 < h && Pow2(h) == 2 * Pow2(h - 1)
  {}

  lemma {:induction false} NobodySeated(m: nat, segs: seq<Seats>, i: nat, h: nat)
    requires Room(i, h, |segs|) && forall j :: 0 <= j < |segs| ==> segs[j] == Seats(0, 0)
    ensures Valid(m, segs, i, h) && Rows(m, segs, i, h) == seq(Pow2(h), _ => 0)
    decreases h
  {
    if m == 0 {
      assert 0 * Pow2(h) == 0;
    } else if h != 0 {
      NobodySeated(m, segs, 2 * i + 1, h - 1);
      NobodySeated(m, segs, 2 * i + 2, h - 1);
    }
  }
}
