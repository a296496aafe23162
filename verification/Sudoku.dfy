/**
  cpp/4fun/Sudoku-Solver.cpp: backtracking over the blank cell with the fewest feasible digits, with one mask of used digits
  per row, column and box.

  A mask is the set of the digits whose bit is set; digits count from 0.
*/
module Sudoku {
  import opened FiniteSets

  datatype Cell = Blank | Digit(d: nat)

  type Grid = seq<seq<Cell>>

  predicate Proper(g: Grid) {
    |g| == 9 && forall r :: 0 <= r < 9 ==> |g[r]| == 9 && forall c :: 0 <= c < 9 ==> g[r][c].Digit? ==> g[r][c].d < 9
  }

  function BoxOf(r: nat, c: nat): nat { r / 3 * 3 + c / 3 }

  predicate SameUnit(r: nat, c: nat, r': nat, c': nat) { r == r' || c == c' || BoxOf(r, c) == BoxOf(r', c') }

  predicate Clash(g: Grid, r: nat, c: nat, r': nat, c': nat)
    requires Proper(g) && r < 9 && c < 9 && r' < 9 && c' < 9
  {
    (r != r' || c != c') && SameUnit(r, c, r', c') && g[r][c] == g[r'][c'] && g[r][c].Digit?
  }

  /** No digit twice in a row, a column or a box. */
  ghost predicate Consistent(g: Grid)
    requires Proper(g)
  {
    forall r: nat, c: nat, r': nat, c': nat :: r < 9 && c < 9 && r' < 9 && c' < 9 ==> !Clash(g, r, c, r', c')
  }

  predicate NoBlank(g: Grid)
    requires Proper(g)
  {
    forall r, c :: 0 <= r < 9 && 0 <= c < 9 ==> g[r][c].Digit?
  }

  /** `full` keeps every digit of `g`. */
  predicate Extends(g: Grid, full: Grid)
    requires Proper(g) && Proper(full)
  {
    forall r, c :: 0 <= r < 9 && 0 <= c < 9 && g[r][c].Digit? ==> full[r][c] == g[r][c]
  }

  /** A solution of the puzzle `g`. */
  ghost predicate Solution(g: Grid, full: Grid)
    requires Proper(g)
  {
    Proper(full) && NoBlank(full) && Consistent(full) && Extends(g, full)
  }

  function Put(g: Grid, r: nat, c: nat, x: Cell): (g': Grid)
    requires Proper(g) && r < 9 && c < 9 && (x.Digit? ==> x.d < 9)
    ensures Proper(g')
    ensures forall i, j :: 0 <= i < 9 && 0 <= j < 9 ==> g'[i][j] == if i == r && j == c then x else g[i][j]
  {
    g[r := g[r][c := x]]
  }

  // ---- Masks ----------------------------------------------------------------------------------------------------

  function Toggle(s: set<nat>, d: nat): set<nat> { if d in s then s - {d} else s + {d} }

  datatype Masks = Masks(rows: seq<set<nat>>, cols: seq<set<nat>>, boxes: seq<set<nat>>)

  predicate Nine(m: Masks) { |m.rows| == |m.cols| == |m.boxes| == 9 }

  function Used(m: Masks, r: nat, c: nat): set<nat>
    requires Nine(m) && r < 9 && c < 9
  {
    m.rows[r] + m.cols[c] + m.boxes[BoxOf(r, c)]
  }

  function Toggled(m: Masks, r: nat, c: nat, d: nat): (m': Masks)
    requires Nine(m) && r < 9 && c < 9
    ensures Nine(m')
  {
    Masks(m.rows[r := Toggle(m.rows[r], d)], m.cols[c := Toggle(m.cols[c], d)], m.boxes[BoxOf(r, c) := Toggle(m.boxes[BoxOf(r, c)], d)])
  }

  /** A row, a column or a box. */
  datatype House = Row(k: nat) | Column(k: nat) | Box(k: nat)

  predicate In(u: House, r: nat, c: nat) {
    match u case Row(k) => r == k case Column(k) => c == k case Box(k) => BoxOf(r, c) == k
  }

  function MaskOf(m: Masks, u: House): set<nat>
    requires Nine(m) && u.k < 9
  {
    match u case Row(k) => m.rows[k] case Column(k) => m.cols[k] case Box(k) => m.boxes[k]
  }

  /** The cells of a house that have the digit. */
  ghost function CellsWith(g: Grid, u: House, d: nat): set<(nat, nat)>
    requires Proper(g)
  {
    set r: nat, c: nat | r < 9 && c < 9 && In(u, r, c) && g[r][c] == Digit(d) :: (r, c)
  }

  ghost predicate OddIn(g: Grid, u: House, d: nat)
    requires Proper(g)
  {
    |CellsWith(g, u, d)| % 2 == 1
  }

  /** Exclusive or makes a mask hold the digits that are there an odd number of times. */
  ghost predicate Parity(g: Grid, m: Masks)
    requires Proper(g) && Nine(m)
  {
    forall u: House, d: nat :: u.k < 9 ==> (d in MaskOf(m, u) <==> OddIn(g, u, d))
  }

  lemma ToggledTwice(s: seq<set<nat>>, i: nat, d: nat)
    requires i < |s|
    ensures s[i := Toggle(s[i], d)][i := Toggle(Toggle(s[i], d), d)] == s
  {
    assert Toggle(Toggle(s[i], d), d) == s[i];
  }

  lemma ToggledBack(m: Masks, r: nat, c: nat, d: nat)
    requires Nine(m) && r < 9 && c < 9
    ensures Toggled(Toggled(m, r, c, d), r, c, d) == m
  {
    ToggledTwice(m.rows, r, d);
    ToggledTwice(m.cols, c, d);
    ToggledTwice(m.boxes, BoxOf(r, c), d);
  }

  lemma ToggledMask(m: Masks, r: nat, c: nat, d: nat, u: House, x: nat)
    requires Nine(m) && r < 9 && c < 9 && u.k < 9
    ensures x in MaskOf(Toggled(m, r, c, d), u) <==> ((x in MaskOf(m, u)) != (In(u, r, c) && x == d))
  {}

  /** A digit at a blank cell adds the cell to those with the digit in its three houses, and changes nothing else. */
  lemma CellsAfterPut(g: Grid, r: nat, c: nat, d: nat, u: House, x: nat)
    requires Proper(g) && r < 9 && c < 9 && d < 9 && g[r][c] == Blank
    ensures CellsWith(Put(g, r, c, Digit(d)), u, x) == if In(u, r, c) && x == d then CellsWith(g, u, x) + {(r, c)} else CellsWith(g, u, x)
    ensures (r, c) !in CellsWith(g, u, x)
  {}

  lemma OddAfterPut(g: Grid, r: nat, c: nat, d: nat, u: House, x: nat)
    requires Proper(g) && r < 9 && c < 9 && d < 9 && g[r][c] == Blank
    ensures OddIn(Put(g, r, c, Digit(d)), u, x) <==> (OddIn(g, u, x) != (In(u, r, c) && x == d))
  {
    CellsAfterPut(g, r, c, d, u, x);
    hide CellsWith;
    OneMoreIsOdd(CellsWith(g, u, x), (r, c));
  }

  lemma OneMoreIsOdd<X>(s: set<X>, x: X)
    requires x !in s
    ensures |s + {x}| % 2 == 1 <==> |s| % 2 != 1
  {
    assert |s + {x}| == |s| + 1;
  }

  lemma PutParity(g: Grid, m: Masks, r: nat, c: nat, d: nat)
    requires Proper(g) && Nine(m) && Parity(g, m) && r < 9 && c < 9 && d < 9 && g[r][c] == Blank
    ensures Parity(Put(g, r, c, Digit(d)), Toggled(m, r, c, d))
  {
    hide OddIn, Toggled;
    forall u: House, x: nat | u.k < 9 ensures x in MaskOf(Toggled(m, r, c, d), u) <==> OddIn(Put(g, r, c, Digit(d)), u, x) {
      ToggledMask(m, r, c, d, u, x);
      OddAfterPut(g, r, c, d, u, x);
    }
  }

  lemma UsedIsOdd(g: Grid, m: Masks, r: nat, c: nat, d: nat)
    requires Proper(g) && Nine(m) && Parity(g, m) && r < 9 && c < 9
    ensures BoxOf(r, c) < 9
    ensures d in Used(m, r, c) <==> OddIn(g, Row(r), d) || OddIn(g, Column(c), d) || OddIn(g, Box(BoxOf(r, c)), d)
    ensures d !in Used(m, r, c) <==> forall u: House :: In(u, r, c) ==> !OddIn(g, u, d)
  {
    assert In(Row(r), r, c) && In(Column(c), r, c) && In(Box(BoxOf(r, c)), r, c);
    assert d in MaskOf(m, Row(r)) <==> OddIn(g, Row(r), d);
    assert d in MaskOf(m, Column(c)) <==> OddIn(g, Column(c), d);
    assert d in MaskOf(m, Box(BoxOf(r, c))) <==> OddIn(g, Box(BoxOf(r, c)), d);
  }

  // ---- What the search finds ------------------------------------------------------------------------------------

  /** `full` gives the blank cell (r, c) a digit that no given of its houses makes odd and no other filled cell repeats. */
  ghost predicate Fits(g: Grid, full: Grid, r: nat, c: nat)
    requires Proper(g) && Proper(full) && r < 9 && c < 9
  {
    && full[r][c].Digit?
    && (forall u: House :: In(u, r, c) ==> !OddIn(g, u, full[r][c].d))
    && (forall r': nat, c': nat :: r' < 9 && c' < 9 && g[r'][c'] == Blank ==> !Clash(full, r, c, r', c'))
  }

  /** What the masks let pass: the blank cells are filled with digits that differ within every house and occur an even
      number of times among its givens. */
  ghost predicate Filling(g: Grid, full: Grid)
    requires Proper(g)
  {
    && Proper(full) && NoBlank(full) && Extends(g, full)
    && forall r: nat, c: nat :: r < 9 && c < 9 && g[r][c] == Blank ==> Fits(g, full, r, c)
  }

  lemma SharedHouse(r: nat, c: nat, r': nat, c': nat)
    requires r < 9 && c < 9 && r' < 9 && c' < 9
    ensures SameUnit(r, c, r', c') <==> exists u: House :: In(u, r, c) && In(u, r', c')
  {
    if r == r' { assert In(Row(r), r, c) && In(Row(r), r', c'); }
    if c == c' { assert In(Column(c), r, c) && In(Column(c), r', c'); }
    if BoxOf(r, c) == BoxOf(r', c') { assert In(Box(BoxOf(r, c)), r, c) && In(Box(BoxOf(r, c)), r', c'); }
  }

  /** One cell of a filling: seen from the grid with (r, c) filled or from the grid with it blank. */
  lemma FitsAfterPut(g: Grid, full: Grid, r: nat, c: nat, r': nat, c': nat)
    requires Proper(g) && Proper(full) && r < 9 && c < 9 && r' < 9 && c' < 9 && g[r][c] == g[r'][c'] == Blank
    requires full[r][c].Digit? && (r != r' || c != c')
    ensures var g' := Put(g, r, c, full[r][c]);
      Fits(g, full, r, c) ==> (Fits(g, full, r', c') <==> Fits(g', full, r', c'))
    ensures var g' := Put(g, r, c, full[r][c]);
      (forall u: House :: In(u, r, c) ==> !OddIn(g, u, full[r][c].d)) && Fits(g', full, r', c') ==> !Clash(full, r, c, r', c') && Fits(g, full, r', c')
  {
    hide OddIn;
    var d := full[r][c].d;
    var g' := Put(g, r, c, Digit(d));
    SharedHouse(r, c, r', c');
    forall u: House, x: nat ensures OddIn(g', u, x) <==> (OddIn(g, u, x) != (In(u, r, c) && x == d)) {
      OddAfterPut(g, r, c, d, u, x);
    }
  }

  /** The fillings with d at a blank cell are those of the grid with d there, provided that the masks let d pass. */
  lemma FillingPuts(g: Grid, m: Masks, r: nat, c: nat, d: nat, full: Grid)
    requires Proper(g) && Nine(m) && Parity(g, m) && r < 9 && c < 9 && d < 9 && g[r][c] == Blank
    ensures Filling(g, full) && full[r][c] == Digit(d) <==> d !in Used(m, r, c) && Filling(Put(g, r, c, Digit(d)), full)
  {
    var g' := Put(g, r, c, Digit(d));
    UsedIsOdd(g, m, r, c, d);
    if Filling(g, full) && full[r][c] == Digit(d) {
      assert Fits(g, full, r, c);
      forall i: nat, j: nat | i < 9 && j < 9 && g'[i][j] == Blank ensures Fits(g', full, i, j) {
        assert g[i][j] == Blank && Fits(g, full, i, j);
        FitsAfterPut(g, full, r, c, i, j);
      }
    }
    if d !in Used(m, r, c) && Filling(g', full) {
      forall i: nat, j: nat | i < 9 && j < 9 && g[i][j] == Blank && (i != r || j != c)
        ensures Fits(g, full, i, j) && !Clash(full, r, c, i, j)
      {
        assert g'[i][j] == Blank && Fits(g', full, i, j);
        assert g'[r][c] == full[r][c];
        FitsAfterPut(g, full, r, c, i, j);
      }
      assert Fits(g, full, r, c);
    }
  }

  lemma FullIsFilling(g: Grid)
    requires Proper(g) && NoBlank(g)
    ensures Filling(g, g)
  {}

  // ---- When that is a solution ----------------------------------------------------------------------------------

  /** On a consistent grid a digit is in a house once or not at all. */
  lemma OnceOrNever(g: Grid, u: House, d: nat)
    requires Proper(g) && Consistent(g)
    ensures OddIn(g, u, d) <==> CellsWith(g, u, d) != {}
    ensures |CellsWith(g, u, d)| <= 1
  {
    if CellsWith(g, u, d) != {} {
      var p :| p in CellsWith(g, u, d);
      forall q | q in CellsWith(g, u, d) ensures q == p {
        SharedHouse(p.0, p.1, q.0, q.1);
        assert !Clash(g, p.0, p.1, q.0, q.1);
      }
      assert CellsWith(g, u, d) == {p};
    }
  }

  /** On a consistent board a digit is used exactly when putting it would clash. */
  lemma UsedMeansClash(g: Grid, m: Masks, r: nat, c: nat, d: nat)
    requires Proper(g) && Nine(m) && Parity(g, m) && Consistent(g) && r < 9 && c < 9 && d < 9 && g[r][c] == Blank
    ensures d in Used(m, r, c) <==> exists r': nat, c': nat :: r' < 9 && c' < 9 && Clash(Put(g, r, c, Digit(d)), r, c, r', c')
  {
    var g' := Put(g, r, c, Digit(d));
    UsedIsOdd(g, m, r, c, d);
    if d in Used(m, r, c) {
      var u: House :| In(u, r, c) && OddIn(g, u, d);
      OnceOrNever(g, u, d);
      var p :| p in CellsWith(g, u, d);
      SharedHouse(r, c, p.0, p.1);
      assert Clash(g', r, c, p.0, p.1);
    }
    if i: nat, j: nat :| i < 9 && j < 9 && Clash(g', r, c, i, j) {
      SharedHouse(r, c, i, j);
      var u: House :| In(u, r, c) && In(u, i, j);
      assert (i, j) in CellsWith(g, u, d);
      OnceOrNever(g, u, d);
    }
  }

  lemma PutConsistent(g: Grid, m: Masks, r: nat, c: nat, d: nat)
    requires Proper(g) && Nine(m) && Parity(g, m) && Consistent(g) && r < 9 && c < 9 && d < 9 && g[r][c] == Blank && d !in Used(m, r, c)
    ensures Consistent(Put(g, r, c, Digit(d)))
  {
    var g' := Put(g, r, c, Digit(d));
    UsedMeansClash(g, m, r, c, d);
    forall i: nat, j: nat, i': nat, j': nat | i < 9 && j < 9 && i' < 9 && j' < 9 ensures !Clash(g', i, j, i', j') {
      assert !Clash(g, i, j, i', j') && !Clash(g', r, c, i', j') && !Clash(g', r, c, i, j);
    }
  }

  lemma FillingIsSolution(g: Grid, full: Grid)
    requires Proper(g) && Consistent(g)
    ensures Filling(g, full) <==> Solution(g, full)
  {
    if Filling(g, full) {
      forall r: nat, c: nat, r': nat, c': nat | r < 9 && c < 9 && r' < 9 && c' < 9 ensures !Clash(full, r, c, r', c') {
        if g[r][c].Digit? && g[r'][c'].Digit? {
          assert !Clash(g, r, c, r', c');
        } else if g[r][c] == Blank {
          FilledApart(g, full, r, c, r', c');
        } else {
          FilledApart(g, full, r', c', r, c);
        }
      }
    }
    if Solution(g, full) {
      forall r: nat, c: nat | r < 9 && c < 9 && g[r][c] == Blank ensures Fits(g, full, r, c) {
        SolutionFits(g, full, r, c);
      }
    }
  }

  lemma FilledApart(g: Grid, full: Grid, r: nat, c: nat, r': nat, c': nat)
    requires Proper(g) && Consistent(g) && Filling(g, full) && r < 9 && c < 9 && r' < 9 && c' < 9 && g[r][c] == Blank
    ensures !Clash(full, r, c, r', c')
  {
    assert Fits(g, full, r, c);
    if g[r'][c'].Digit? && Clash(full, r, c, r', c') {
      SharedHouse(r, c, r', c');
      var u: House :| In(u, r, c) && In(u, r', c');
      assert (r', c') in CellsWith(g, u, full[r][c].d);
      OnceOrNever(g, u, full[r][c].d);
    }
  }

  lemma SolutionFits(g: Grid, full: Grid, r: nat, c: nat)
    requires Proper(g) && Consistent(g) && Solution(g, full) && r < 9 && c < 9 && g[r][c] == Blank
    ensures Fits(g, full, r, c)
  {
    forall u: House | In(u, r, c) ensures !OddIn(g, u, full[r][c].d) {
      OnceOrNever(g, u, full[r][c].d);
      forall i: nat, j: nat | i < 9 && j < 9 ensures (i, j) !in CellsWith(g, u, full[r][c].d) {
        SharedHouse(r, c, i, j);
        assert !Clash(full, r, c, i, j);
      }
    }
    forall i: nat, j: nat | i < 9 && j < 9 && g[i][j] == Blank ensures !Clash(full, r, c, i, j) {}
  }

  lemma NoSolution(g: Grid, full: Grid)
    requires Proper(g) && !Consistent(g)
    ensures !Solution(g, full)
  {
    var r: nat, c: nat, r': nat, c': nat :| r < 9 && c < 9 && r' < 9 && c' < 9 && Clash(g, r, c, r', c');
    if Solution(g, full) { assert Clash(full, r, c, r', c'); }
  }

  ghost predicate Solvable(g: Grid)
    requires Proper(g)
  {
    exists full :: Solution(g, full)
  }

  ghost predicate Fillable(g: Grid)
    requires Proper(g)
  {
    exists full :: Filling(g, full)
  }

  /** Taking a filling for a solution is wrong exactly on a clashing board that has one. */
  lemma WrongExactlyWhen(g: Grid)
    requires Proper(g)
    ensures (Fillable(g) <==> Solvable(g)) <==> Consistent(g) || !Fillable(g)
    ensures Solvable(g) ==> Consistent(g)
  {
    if full :| Solution(g, full) && !Consistent(g) { NoSolution(g, full); }
    if Consistent(g) {
      if full :| Filling(g, full) { FillingIsSolution(g, full); }
      if full :| Solution(g, full) { FillingIsSolution(g, full); }
    }
  }

  /** A solved grid with one digit changed at (8, 8), and (0, 0) as given. */
  function Spoilt(first: Cell): (g: Grid)
    requires first.Digit? ==> first.d < 9
    ensures Proper(g)
    ensures forall r, c :: 0 <= r < 9 && 0 <= c < 9 ==>
      g[r][c] == if r == 0 && c == 0 then first else if r == 8 && c == 8 then Digit(6) else Digit((3 * (r % 3) + r / 3 + c) % 9)
  {
    seq(9, r requires 0 <= r < 9 => seq(9, c requires 0 <= c < 9 =>
      if r == 0 && c == 0 then first else if r == 8 && c == 8 then Digit(6) else Digit((3 * (r % 3) + r / 3 + c) % 9)))
  }

  lemma NoZeroNearby(u: House, r: nat, c: nat)
    requires In(u, 0, 0) && In(u, r, c) && r < 9 && c < 9
    ensures Spoilt(Blank)[r][c] != Digit(0)
  {
    var g := Spoilt(Blank);
    if u.Row? {
      assert g[0][c] == if c == 0 then Blank else Digit(c);
    } else if u.Column? {
      assert r % 3 == r - 3 * (r / 3);
    } else {
      assert r < 3 && c < 3 && r % 3 == r && r / 3 == 0;
    }
  }

  lemma ZeroFits()
    ensures Fits(Spoilt(Blank), Spoilt(Digit(0)), 0, 0)
  {
    var g, full := Spoilt(Blank), Spoilt(Digit(0));
    forall u: House | In(u, 0, 0) ensures !OddIn(g, u, 0) {
      forall r: nat, c: nat | r < 9 && c < 9 && In(u, r, c) ensures g[r][c] != Digit(0) { NoZeroNearby(u, r, c); }
      assert CellsWith(g, u, 0) == {};
    }
  }

  /** A board with two equal digits in its last row and a blank cell that the masks let be filled. */
  lemma ClashingBoardFilled()
    ensures var g := Spoilt(Blank);
      g[0][0] == Blank && Clash(g, 8, 7, 8, 8) && !Consistent(g) && Filling(g, Spoilt(Digit(0))) && !Solvable(g)
  {
    hide Fits, In;
    var g := Spoilt(Blank);
    assert Clash(g, 8, 7, 8, 8);
    ZeroFits();
    WrongExactlyWhen(g);
  }

  // ---- The rules of the game --------------------------------------------------------------------------------------

  ghost function InRow(g: Grid, r: nat, d: nat): set<(nat, nat)>
    requires Proper(g) && r < 9
  {
    set c: nat | c < 9 && g[r][c] == Digit(d) :: (r, c)
  }

  ghost function InColumn(g: Grid, c: nat, d: nat): set<(nat, nat)>
    requires Proper(g) && c < 9
  {
    set r: nat | r < 9 && g[r][c] == Digit(d) :: (r, c)
  }

  /** The three rows from 3 * a and the three columns from 3 * b. */
  ghost function InBlock(g: Grid, a: nat, b: nat, d: nat): set<(nat, nat)>
    requires Proper(g) && a < 3 && b < 3
  {
    set r: nat, c: nat | 3 * a <= r < 3 * a + 3 && 3 * b <= c < 3 * b + 3 && g[r][c] == Digit(d) :: (r, c)
  }

  /** No digit is twice in a row, a column or a block. */
  ghost predicate AtMostOnce(g: Grid)
    requires Proper(g)
  {
    && (forall k: nat, d: nat :: k < 9 && d < 9 ==> |InRow(g, k, d)| <= 1 && |InColumn(g, k, d)| <= 1)
    && forall a: nat, b: nat, d: nat :: a < 3 && b < 3 && d < 9 ==> |InBlock(g, a, b, d)| <= 1
  }

  /** Every digit is once in every row, every column and every block. */
  ghost predicate EachOnce(g: Grid)
    requires Proper(g)
  {
    && (forall k: nat, d: nat :: k < 9 && d < 9 ==> |InRow(g, k, d)| == 1 && |InColumn(g, k, d)| == 1)
    && forall a: nat, b: nat, d: nat :: a < 3 && b < 3 && d < 9 ==> |InBlock(g, a, b, d)| == 1
  }

  lemma InHouses(g: Grid, d: nat)
    requires Proper(g)
    ensures forall k: nat :: k < 9 ==> InRow(g, k, d) == CellsWith(g, Row(k), d) && InColumn(g, k, d) == CellsWith(g, Column(k), d)
    ensures forall a: nat, b: nat :: a < 3 && b < 3 ==> InBlock(g, a, b, d) == CellsWith(g, Box(3 * a + b), d)
  {}

  lemma NotTwice<X>(s: set<X>, p: X, q: X)
    requires |s| <= 1 && p in s && q in s
    ensures p == q
  {
    SubsetSize({p, q}, s);
  }

  lemma SizeInHouse(g: Grid, u: House, d: nat)
    requires Proper(g) && AtMostOnce(g) && u.k < 9 && d < 9
    ensures |CellsWith(g, u, d)| <= 1
  {
    InHouses(g, d);
    hide InRow, InColumn, InBlock, CellsWith;
    match u
    case Row(k) =>
    case Column(k) =>
    case Box(k) =>
      var a, b := k / 3, k % 3;
      assert u == Box(3 * a + b);
      assert |InBlock(g, a, b, d)| <= 1;
  }

  lemma OnceIsConsistent(g: Grid)
    requires Proper(g) && AtMostOnce(g)
    ensures Consistent(g)
  {
    forall r: nat, c: nat, r': nat, c': nat | r < 9 && c < 9 && r' < 9 && c' < 9 ensures !Clash(g, r, c, r', c') {
      if Clash(g, r, c, r', c') {
        SharedHouse(r, c, r', c');
        var u: House :| In(u, r, c) && In(u, r', c');
        SizeInHouse(g, u, g[r][c].d);
        NotTwice(CellsWith(g, u, g[r][c].d), (r, c), (r', c'));
      }
    }
  }

  /** The nine cells of a house. */
  function CellOf(u: House, i: nat): (p: (nat, nat))
    requires u.k < 9 && i < 9
    ensures p.0 < 9 && p.1 < 9
  {
    match u case Row(k) => (k, i) case Column(k) => (i, k) case Box(k) => (k / 3 * 3 + i / 3, k % 3 * 3 + i % 3)
  }

  lemma CellOfHouse(u: House, i: nat)
    requires u.k < 9 && i < 9
    ensures In(u, CellOf(u, i).0, CellOf(u, i).1)
  {
    if u.Box? { BoxOfCell(u.k / 3, u.k % 3, i / 3, i % 3); }
  }

  lemma BoxOfCell(a: nat, b: nat, r: nat, c: nat)
    requires a < 3 && b < 3 && r < 3 && c < 3
    ensures BoxOf(a * 3 + r, b * 3 + c) == 3 * a + b
  {}

  lemma CellsDiffer(u: House, i: nat, j: nat)
    requires u.k < 9 && i < j < 9
    ensures CellOf(u, i) != CellOf(u, j)
  {}

  lemma DigitsDiffer(g: Grid, u: House, p: (nat, nat), q: (nat, nat))
    requires Proper(g) && Consistent(g) && NoBlank(g) && p.0 < 9 && p.1 < 9 && q.0 < 9 && q.1 < 9
    requires p != q && In(u, p.0, p.1) && In(u, q.0, q.1)
    ensures g[p.0][p.1].d != g[q.0][q.1].d
  {
    SharedHouse(p.0, p.1, q.0, q.1);
    assert !Clash(g, p.0, p.1, q.0, q.1);
  }

  /** Nine different digits are all nine. */
  lemma AllNine(ds: seq<nat>, d: nat) returns (i: nat)
    requires |ds| == 9 && Distinct(ds) && d < 9 && forall k :: 0 <= k < 9 ==> ds[k] < 9
    ensures i < 9 && ds[i] == d
  {
    DistinctSize(ds);
    SubsetSize(ElementsOf(ds), UpTo(9));
    assert d in ElementsOf(ds);
    i :| 0 <= i < 9 && ds[i] == d;
  }

  function DigitAt(g: Grid, p: (nat, nat)): (d: nat)
    requires Proper(g) && NoBlank(g) && p.0 < 9 && p.1 < 9
    ensures d < 9 && g[p.0][p.1] == Digit(d)
  {
    g[p.0][p.1].d
  }

  lemma EveryDigit(g: Grid, u: House, d: nat)
    requires Proper(g) && Consistent(g) && NoBlank(g) && u.k < 9 && d < 9
    ensures CellsWith(g, u, d) != {}
  {
    hide Consistent, CellOf, Proper, NoBlank, DigitAt;
    var ds := seq(9, i requires 0 <= i < 9 => DigitAt(g, CellOf(u, i)));
    forall i, j | 0 <= i < j < 9 ensures ds[i] != ds[j] {
      CellsDiffer(u, i, j);
      CellOfHouse(u, i);
      CellOfHouse(u, j);
      DigitsDiffer(g, u, CellOf(u, i), CellOf(u, j));
    }
    var i := AllNine(ds, d);
    CellOfHouse(u, i);
    assert CellOf(u, i) in CellsWith(g, u, d);
  }

  lemma SizesOfHouse(g: Grid, u: House, d: nat)
    requires Proper(g) && Consistent(g) && u.k < 9 && d < 9
    ensures |CellsWith(g, u, d)| <= 1 && (NoBlank(g) ==> |CellsWith(g, u, d)| == 1)
  {
    OnceOrNever(g, u, d);
    if NoBlank(g) { EveryDigit(g, u, d); }
  }

  /** What clashes mean: on any grid that no digit is twice in a row, column or block, on a full one that each is once. */
  lemma ConsistentMeans(g: Grid)
    requires Proper(g)
    ensures Consistent(g) <==> AtMostOnce(g)
    ensures NoBlank(g) ==> (Consistent(g) <==> EachOnce(g))
  {
    if AtMostOnce(g) { OnceIsConsistent(g); }
    hide CellsWith, InRow, InColumn, InBlock, Consistent, NoBlank;
    if Consistent(g) {
      forall k: nat, d: nat | k < 9 && d < 9
        ensures |InRow(g, k, d)| <= 1 && |InColumn(g, k, d)| <= 1
        ensures NoBlank(g) ==> |InRow(g, k, d)| == 1 && |InColumn(g, k, d)| == 1
      {
        InHouses(g, d);
        SizesOfHouse(g, Row(k), d);
        SizesOfHouse(g, Column(k), d);
      }
      forall a: nat, b: nat, d: nat | a < 3 && b < 3 && d < 9
        ensures |InBlock(g, a, b, d)| <= 1 && (NoBlank(g) ==> |InBlock(g, a, b, d)| == 1)
      {
        InHouses(g, d);
        SizesOfHouse(g, Box(3 * a + b), d);
      }
    }
  }

  /** A solution in terms of the rules alone. */
  lemma SolutionMeans(g: Grid, full: Grid)
    requires Proper(g) && Proper(full)
    ensures Solution(g, full) <==> NoBlank(full) && EachOnce(full) && Extends(g, full)
  {
    ConsistentMeans(full);
  }

  // ---- Blank cells and reading the board ------------------------------------------------------------------------

  function BlankCells(g: Grid): set<(nat, nat)>
    requires Proper(g)
  {
    set r: nat, c: nat | r < 9 && c < 9 && g[r][c] == Blank :: (r, c)
  }

  lemma FewerBlanks(g: Grid, r: nat, c: nat, d: nat)
    requires Proper(g) && r < 9 && c < 9 && d < 9 && g[r][c] == Blank
    ensures |BlankCells(Put(g, r, c, Digit(d)))| < |BlankCells(g)|
  {
    var g' := Put(g, r, c, Digit(d));
    assert BlankCells(g') <= BlankCells(g) - {(r, c)};
    assert (r, c) in BlankCells(g);
    SubsetSize(BlankCells(g'), BlankCells(g) - {(r, c)});
  }

  /** The grid with the cells from the `k`-th on blank, row by row. */
  function Part(g: Grid, k: nat): (part: Grid)
    requires Proper(g)
    ensures Proper(part)
    ensures forall r, c :: 0 <= r < 9 && 0 <= c < 9 ==> part[r][c] == if 9 * r + c < k then g[r][c] else Blank
  {
    seq(9, r requires 0 <= r < 9 => seq(9, c requires 0 <= c < 9 => if 9 * r + c < k then g[r][c] else Blank))
  }

  lemma NoDigitsYet(g: Grid)
    requires Proper(g)
    ensures var none := seq(9, _ => {}); Parity(Part(g, 0), Masks(none, none, none))
  {
    forall u: House, d: nat ensures !OddIn(Part(g, 0), u, d) { assert CellsWith(Part(g, 0), u, d) == {}; }
  }

  lemma WholeGrid(g: Grid)
    requires Proper(g)
    ensures Part(g, 81) == g
  {
    forall r | 0 <= r < 9 ensures Part(g, 81)[r] == g[r] {}
  }

  lemma NextCell(g: Grid, m: Masks, r: nat, c: nat)
    requires Proper(g) && Nine(m) && r < 9 && c < 9 && Parity(Part(g, 9 * r + c), m)
    ensures Parity(Part(g, 9 * r + c + 1), if g[r][c].Digit? then Toggled(m, r, c, g[r][c].d) else m)
  {
    var part, next := Part(g, 9 * r + c), Part(g, 9 * r + c + 1);
    if g[r][c].Digit? {
      SameGrid(next, Put(part, r, c, g[r][c]));
      PutParity(part, m, r, c, g[r][c].d);
    } else {
      SameGrid(next, part);
    }
  }

  lemma SameGrid(a: Grid, b: Grid)
    requires Proper(a) && Proper(b) && forall r, c :: 0 <= r < 9 && 0 <= c < 9 ==> a[r][c] == b[r][c]
    ensures a == b
  {
    forall r | 0 <= r < 9 ensures a[r] == b[r] {}
  }

  class SudokuSolver {
    var masks: Masks
    var board: Grid

    constructor (board: Grid)
      ensures this.board == board && Nine(masks)
    {
      this.board := board;
      var none: seq<set<nat>> := seq(9, _ => {});
      masks := Masks(none, none, none);
    }

    method SetDigit(r: nat, c: nat, d: nat)
      requires Nine(masks) && r < 9 && c < 9
      modifies this`masks
      ensures masks == Toggled(old(masks), r, c, d)
    {
      masks := Toggled(masks, r, c, d);
    }

    /** Whatever the board, the masks become its parities. */
    method Init()
      requires Proper(board)
      modifies this`masks
      ensures Nine(masks) && Parity(board, masks)
    {
      hide Parity;
      var none: seq<set<nat>> := seq(9, _ => {});
      masks := Masks(none, none, none);
      NoDigitsYet(board);
      for r: nat := 0 to 9
        invariant Nine(masks) && Parity(Part(board, 9 * r), masks)
      {
        for c: nat := 0 to 9
          invariant Nine(masks) && Parity(Part(board, 9 * r + c), masks)
        {
          NextCell(board, masks, r, c);
          if board[r][c] != Blank {
            SetDigit(r, c, board[r][c].d);
          }
        }
      }
      WholeGrid(board);
    }

    /** Every blank cell above or to the left has more feasible digits. */
    predicate FirstBest(r: nat, c: nat)
      requires Proper(board) && Nine(masks) && r < 9 && c < 9
      reads this
    {
      forall i, j :: 0 <= i <= r && 0 <= j < 9 && (i < r || j < c) && board[i][j] == Blank ==>
        |Used(masks, i, j)| < |Used(masks, r, c)|
    }

    /** The first of the blank cells with the fewest feasible digits, or none. */
    method BestCell() returns (found: bool, r: nat, c: nat)
      requires Proper(board) && Nine(masks)
      ensures found ==> r < 9 && c < 9 && board[r][c] == Blank
      ensures found ==> forall i, j :: 0 <= i < 9 && 0 <= j < 9 && board[i][j] == Blank ==> |Used(masks, i, j)| <= |Used(masks, r, c)|
      ensures found ==> FirstBest(r, c)
      ensures !found ==> NoBlank(board)
    {
      var minFeasibleDigits: int := 10;
      r, c := 0, 0;
      for i := 0 to 9
        invariant minFeasibleDigits <= 10
        invariant minFeasibleDigits < 10 ==> r < 9 && c < 9 && board[r][c] == Blank && minFeasibleDigits == 9 - |Used(masks, r, c)|
        invariant minFeasibleDigits < 10 ==> r < i && FirstBest(r, c)
        invariant forall k, j :: 0 <= k < i && 0 <= j < 9 && board[k][j] == Blank ==> minFeasibleDigits < 10 && minFeasibleDigits <= 9 - |Used(masks, k, j)|
      {
        for j := 0 to 9
          invariant minFeasibleDigits <= 10
          invariant minFeasibleDigits < 10 ==> r < 9 && c < 9 && board[r][c] == Blank && minFeasibleDigits == 9 - |Used(masks, r, c)|
          invariant minFeasibleDigits < 10 ==> (r < i || (r == i && c < j)) && FirstBest(r, c)
          invariant forall k, l :: 0 <= k <= i && 0 <= l < 9 && (k < i || l < j) && board[k][l] == Blank ==>
                      minFeasibleDigits < 10 && minFeasibleDigits <= 9 - |Used(masks, k, l)|
        {
          if board[i][j] == Blank {
            var numFeasibleBits := 9 - |Used(masks, i, j)|;
            if numFeasibleBits < minFeasibleDigits {
              minFeasibleDigits := numFeasibleBits;
              r, c := i, j;
            }
          }
        }
      }
      found := minFeasibleDigits <= 9;
    }

    /** Finds a filling if there is one, and leaves board and masks as they were if there is none. */
    method SolveFrom() returns (ok: bool)
      requires Proper(board) && Nine(masks) && Parity(board, masks)
      modifies this
      ensures Proper(board) && Nine(masks) && Parity(board, masks)
      ensures ok <==> Fillable(old(board))
      ensures ok ==> Filling(old(board), board)
      ensures !ok ==> board == old(board) && masks == old(masks)
      decreases |BlankCells(board)|
    {
      hide Parity, BlankCells, Filling, Used, Toggled;
      var found, r, c := BestCell();
      if !found {
        FullIsFilling(board);
        return true;
      }
      var used := Used(masks, r, c);
      ghost var g, m := board, masks;
      for d := 0 to 9
        invariant board == g && masks == m
        invariant forall x: nat, full :: x < d && x !in used ==> !Filling(Put(g, r, c, Digit(x)), full)
      {
        if d !in used {
          PutParity(g, m, r, c, d);
          FewerBlanks(g, r, c, d);
          SetDigit(r, c, d);
          board := Put(board, r, c, Digit(d));
          var solved := SolveFrom();
          if solved {
            FillingPuts(g, m, r, c, d, board);
            return true;
          }
          ToggledBack(m, r, c, d);
          SetDigit(r, c, d);
          board := Put(board, r, c, Blank);
          SameGrid(board, g);
        }
      }
      forall full ensures !Filling(g, full) {
        if Filling(g, full) { FillingDigit(g, m, r, c, full); }
      }
      ok := false;
    }

    /** True exactly when the blank cells can be filled as the masks see it, and then the board is such a filling.  On a
        consistent board that is a solution; on any other there is no solution. */
    method Solve() returns (ok: bool)
      requires Proper(board)
      modifies this
      ensures Proper(board)
      ensures ok <==> Fillable(old(board))
      ensures ok ==> Filling(old(board), board)
      ensures !ok ==> board == old(board)
      ensures Consistent(old(board)) ==> (ok <==> Solvable(old(board))) && (ok ==> Solution(old(board), board))
      ensures (ok <==> Solvable(old(board))) <==> Consistent(old(board)) || !Fillable(old(board))
      ensures AtMostOnce(old(board)) && ok ==> NoBlank(board) && EachOnce(board) && Extends(old(board), board)
      ensures AtMostOnce(old(board)) && !ok ==>
        forall full :: Proper(full) && NoBlank(full) && EachOnce(full) ==> !Extends(old(board), full)
    {
      hide Filling, Solution, Consistent, Parity, AtMostOnce, EachOnce, Extends, NoBlank;
      Init();
      ghost var g := board;
      ok := SolveFrom();
      WrongExactlyWhen(g);
      if ok && Consistent(g) { FillingIsSolution(g, board); }
      ConsistentMeans(g);
      forall full | Proper(full) ensures Solution(g, full) <==> NoBlank(full) && EachOnce(full) && Extends(g, full) {
        SolutionMeans(g, full);
      }
    }
  }

  lemma FillingDigit(g: Grid, m: Masks, r: nat, c: nat, full: Grid)
    requires Proper(g) && Nine(m) && Parity(g, m) && r < 9 && c < 9 && g[r][c] == Blank && Filling(g, full)
    ensures exists d: nat :: d < 9 && d !in Used(m, r, c) && Filling(Put(g, r, c, Digit(d)), full)
  {
    var d := full[r][c].d;
    FillingPuts(g, m, r, c, d, full);
    assert d < 9 && d !in Used(m, r, c) && Filling(Put(g, r, c, Digit(d)), full);
  }
}
