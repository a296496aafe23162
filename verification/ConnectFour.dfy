/**
  cpp/connext_4.cc: the game tree of Connect Four searched with a table of known results under packed keys.

  A position is seven columns of pieces from the bottom up.  A win is what isWinningMove of the source says: three
  pieces of the own colour among the three cells on either side, in one of four directions.
*/
module ConnectFour {
  import opened Arithmetic

  const EMPTY: nat := 0
  const RED: nat := 1
  const YELLOW: nat := 2
  /** The padding around the board, and with it the size of the array. */
  const P: nat := 3
  const HEIGHTS_SHIFT: nat := 42

  type Board = seq<seq<nat>>

  predicate Padded(board: Board) { |board| == 13 && forall i :: 0 <= i < 13 ==> |board[i]| == 12 }

  function SetCell(board: Board, col: nat, row: nat, color: nat): (r: Board)
    requires Padded(board) && col < 7 && row < 6
    ensures Padded(r)
  {
    var column: seq<nat> := board[col + P][row + P := color];
    board[col + P := column]
  }

  // ---- The game -------------------------------------------------------------------------------------------------

  predicate Column(column: seq<nat>) { |column| <= 6 && forall i :: 0 <= i < |column| ==> column[i] == RED || column[i] == YELLOW }

  predicate Columns(pos: seq<seq<nat>>) { forall c :: 0 <= c < |pos| ==> Column(pos[c]) }

  predicate Position(pos: seq<seq<nat>>) { |pos| == 7 && Columns(pos) }

  /** The empty board. */
  function Opening(): (pos: seq<seq<nat>>)
    ensures Position(pos) && forall c :: 0 <= c < 7 ==> pos[c] == []
  {
    seq(7, _ => [])
  }

  function Pieces(pos: seq<seq<nat>>): nat {
    if pos == [] then 0 else |pos[0]| + Pieces(pos[1..])
  }

  /** Red moves first. */
  function Mover(pos: seq<seq<nat>>): (color: nat)
    ensures color == RED || color == YELLOW
  {
    if Pieces(pos) % 2 == 0 then RED else YELLOW
  }

  function Other(color: nat): nat { if color == RED then YELLOW else RED }

  predicate Playable(pos: seq<seq<nat>>, c: nat)
    requires Position(pos)
  {
    c < 7 && |pos[c]| < 6
  }

  function Drop(pos: seq<seq<nat>>, c: nat): seq<seq<nat>>
    requires c < |pos|
  {
    var column: seq<nat> := pos[c] + [Mover(pos)];
    pos[c := column]
  }

  function CellAt(pos: seq<seq<nat>>, i: nat, j: nat): nat
    requires Position(pos)
  {
    if P <= i < 7 + P && P <= j < |pos[i - P]| + P then pos[i - P][j - P] else EMPTY
  }

  function Render(pos: seq<seq<nat>>): (board: Board)
    requires Position(pos)
    ensures Padded(board)
  {
    seq(13, i requires 0 <= i < 13 => seq(12, j requires 0 <= j < 12 => CellAt(pos, i, j)))
  }

  function Match(board: Board, col: int, row: int, color: nat): nat
    requires Padded(board) && -3 <= col < 10 && -3 <= row < 9
  {
    if board[col + P][row + P] == color then 1 else 0
  }

  /** How many of the three cells in one direction have the colour. */
  function CountFrom(board: Board, col: nat, row: nat, dcol: int, drow: int, color: nat): nat
    requires Padded(board) && col < 7 && row < 6 && -1 <= dcol <= 1 && -1 <= drow <= 1
  {
    Match(board, col + dcol, row + drow, color) + Match(board, col + 2 * dcol, row + 2 * drow, color)
      + Match(board, col + 3 * dcol, row + 3 * drow, color)
  }

  predicate IsWinningMove(board: Board, col: nat, row: nat, color: nat)
    requires Padded(board) && col < 7 && row < 6
  {
    || CountFrom(board, col, row, 1, 0, color) + CountFrom(board, col, row, -1, 0, color) >= 3
    || CountFrom(board, col, row, 0, 1, color) + CountFrom(board, col, row, 0, -1, color) >= 3
    || CountFrom(board, col, row, 1, 1, color) + CountFrom(board, col, row, -1, -1, color) >= 3
    || CountFrom(board, col, row, 1, -1, color) + CountFrom(board, col, row, -1, 1, color) >= 3
  }

  predicate WinsAtOnce(pos: seq<seq<nat>>, c: nat)
    requires Position(pos) && Playable(pos, c)
  {
    IsWinningMove(Render(pos), c, |pos[c]|, Mover(pos))
  }

  // ---- What a win is ----------------------------------------------------------------------------------------------

  /** Up to three steps away, on either side. */
  function Nearby(): set<int> { {-3, -2, -1, 1, 2, 3} }

  ghost function HowMany(has: int -> bool, ks: set<int>): nat { |set k | k in ks && has(k)| }

  lemma OneMore(has: int -> bool, ks: set<int>, k: int)
    requires k !in ks
    ensures HowMany(has, ks + {k}) == HowMany(has, ks) + if has(k) then 1 else 0
  {
    var s, s' := set l | l in ks && has(l), set l | l in ks + {k} && has(l);
    if has(k) { assert s' == s + {k}; } else { assert s' == s; }
  }

  lemma OnBothSides(has: int -> bool)
    ensures var one := (k: int) => if has(k) then 1 else 0;
      HowMany(has, Nearby()) == one(1) + one(2) + one(3) + (one(-1) + one(-2) + one(-3))
  {
    var ks := {-3};
    assert (set k | k in {} && has(k)) == {};
    assert {} + {-3} == ks;
    OneMore(has, {}, -3);
    OneMore(has, ks, -2);
    OneMore(has, ks + {-2}, -1);
    OneMore(has, ks + {-2} + {-1}, 1);
    OneMore(has, ks + {-2} + {-1} + {1}, 2);
    OneMore(has, ks + {-2} + {-1} + {1} + {2}, 3);
    assert ks + {-2} + {-1} + {1} + {2} + {3} == Nearby();
  }

  lemma CountsNearby(board: Board, col: nat, row: nat, dcol: int, drow: int, color: nat, has: int -> bool)
    requires Padded(board) && col < 7 && row < 6 && -1 <= dcol <= 1 && -1 <= drow <= 1
    requires has(1) == (board[col + 3 + dcol][row + 3 + drow] == color) && has(-1) == (board[col + 3 - dcol][row + 3 - drow] == color)
    requires has(2) == (board[col + 3 + 2 * dcol][row + 3 + 2 * drow] == color)
    requires has(-2) == (board[col + 3 - 2 * dcol][row + 3 - 2 * drow] == color)
    requires has(3) == (board[col + 3 + 3 * dcol][row + 3 + 3 * drow] == color)
    requires has(-3) == (board[col + 3 - 3 * dcol][row + 3 - 3 * drow] == color)
    ensures CountFrom(board, col, row, dcol, drow, color) + CountFrom(board, col, row, -dcol, -drow, color) == HowMany(has, Nearby())
  {
    hide HowMany;
    OnBothSides(has);
  }

  lemma NearbyInRow(board: Board, col: nat, row: nat, color: nat)
    requires Padded(board) && col < 7 && row < 6
    ensures |set k | k in Nearby() && board[col + 3 + k][row + 3] == color|
         == CountFrom(board, col, row, 1, 0, color) + CountFrom(board, col, row, -1, 0, color)
  {
    var has := (k: int) => k in Nearby() && board[col + 3 + k][row + 3] == color;
    CountsNearby(board, col, row, 1, 0, color, has);
    assert (set k | k in Nearby() && board[col + 3 + k][row + 3] == color) == set k | k in Nearby() && has(k);
  }

  lemma NearbyInColumn(board: Board, col: nat, row: nat, color: nat)
    requires Padded(board) && col < 7 && row < 6
    ensures |set k | k in Nearby() && board[col + 3][row + 3 + k] == color|
         == CountFrom(board, col, row, 0, 1, color) + CountFrom(board, col, row, 0, -1, color)
  {
    var has := (k: int) => k in Nearby() && board[col + 3][row + 3 + k] == color;
    CountsNearby(board, col, row, 0, 1, color, has);
    assert (set k | k in Nearby() && board[col + 3][row + 3 + k] == color) == set k | k in Nearby() && has(k);
  }

  lemma NearbyRising(board: Board, col: nat, row: nat, color: nat)
    requires Padded(board) && col < 7 && row < 6
    ensures |set k | k in Nearby() && board[col + 3 + k][row + 3 + k] == color|
         == CountFrom(board, col, row, 1, 1, color) + CountFrom(board, col, row, -1, -1, color)
  {
    var has := (k: int) => k in Nearby() && board[col + 3 + k][row + 3 + k] == color;
    CountsNearby(board, col, row, 1, 1, color, has);
    assert (set k | k in Nearby() && board[col + 3 + k][row + 3 + k] == color) == set k | k in Nearby() && has(k);
  }

  lemma NearbyFalling(board: Board, col: nat, row: nat, color: nat)
    requires Padded(board) && col < 7 && row < 6
    ensures |set k | k in Nearby() && board[col + 3 + k][row + 3 - k] == color|
         == CountFrom(board, col, row, 1, -1, color) + CountFrom(board, col, row, -1, 1, color)
  {
    var has := (k: int) => k in Nearby() && board[col + 3 + k][row + 3 - k] == color;
    CountsNearby(board, col, row, 1, -1, color, has);
    assert (set k | k in Nearby() && board[col + 3 + k][row + 3 - k] == color) == set k | k in Nearby() && has(k);
  }

  /** A move wins exactly when, in a row, in a column or on one of the two diagonals, three of the cells up to three
      steps away have the colour. */
  lemma WinIsThreeNearby(board: Board, col: nat, row: nat, color: nat)
    requires Padded(board) && col < 7 && row < 6
    ensures IsWinningMove(board, col, row, color) <==>
      || 3 <= |set k | k in Nearby() && board[col + 3 + k][row + 3] == color|
      || 3 <= |set k | k in Nearby() && board[col + 3][row + 3 + k] == color|
      || 3 <= |set k | k in Nearby() && board[col + 3 + k][row + 3 + k] == color|
      || 3 <= |set k | k in Nearby() && board[col + 3 + k][row + 3 - k] == color|
  {
    hide CountFrom;
    NearbyInRow(board, col, row, color);
    NearbyInColumn(board, col, row, color);
    NearbyRising(board, col, row, color);
    NearbyFalling(board, col, row, color);
  }

  // ---- Plain minimax --------------------------------------------------------------------------------------------

  lemma {:induction false} PiecesDropped(pos: seq<seq<nat>>, c: nat, color: nat)
    requires c < |pos|
    ensures Pieces(pos[c := pos[c] + [color]]) == Pieces(pos) + 1
  {
    var pos' := pos[c := pos[c] + [color]];
    if c == 0 {
      assert pos'[1..] == pos[1..];
    } else {
      PiecesDropped(pos[1..], c - 1, color);
      assert pos'[1..] == pos[1..][c - 1 := pos[1..][c - 1] + [color]];
    }
  }

  lemma {:induction false} AtMostFull(pos: seq<seq<nat>>)
    requires Columns(pos)
    ensures Pieces(pos) <= 6 * |pos|
    ensures (exists c :: 0 <= c < |pos| && |pos[c]| < 6) ==> Pieces(pos) < 6 * |pos|
  {
    if pos != [] {
      AtMostFull(pos[1..]);
      if c :| 0 < c < |pos| && |pos[c]| < 6 { assert |pos[1..][c - 1]| < 6; }
    }
  }

  lemma Dropped(pos: seq<seq<nat>>, c: nat)
    requires Position(pos) && Playable(pos, c)
    ensures Position(Drop(pos, c)) && Pieces(Drop(pos, c)) == Pieces(pos) + 1 <= 42 && Mover(Drop(pos, c)) == Other(Mover(pos))
  {
    PiecesDropped(pos, c, Mover(pos));
    AtMostFull(pos);
    var pos' := Drop(pos, c);
    forall k | 0 <= k < 7 ensures Column(pos'[k]) { assert Column(pos[k]); }
  }

  /** What moving in column `c` is worth: EMPTY for a draw, or the colour that wins with best play. */
  ghost function MoveValue(pos: seq<seq<nat>>, c: nat): nat
    requires Position(pos) && Playable(pos, c)
    decreases 43 - Pieces(pos), 0
  {
    Dropped(pos, c);
    if WinsAtOnce(pos, c) then Mover(pos) else Value(Drop(pos, c))
  }

  /** The mover picks a win if there is one, else a draw if there is one. */
  ghost function Value(pos: seq<seq<nat>>): nat
    requires Position(pos)
    decreases 43 - Pieces(pos), 1
  {
    AtMostFull(pos);
    if Pieces(pos) == 42 then EMPTY
    else if exists c: nat :: c < 7 && Playable(pos, c) && MoveValue(pos, c) == Mover(pos) then Mover(pos)
    else if exists c: nat :: c < 7 && Playable(pos, c) && MoveValue(pos, c) == EMPTY then EMPTY
    else Other(Mover(pos))
  }

  // ---- Mirror images ----------------------------------------------------------------------------------------------

  /** The columns from right to left. */
  function Mirrored(pos: seq<seq<nat>>): (r: seq<seq<nat>>)
    requires Position(pos)
    ensures Position(r)
  {
    seq(7, c requires 0 <= c < 7 => pos[6 - c])
  }

  lemma {:induction false} PiecesReversed(pos: seq<seq<nat>>, rev: seq<seq<nat>>)
    requires |pos| == |rev| && forall c :: 0 <= c < |pos| ==> rev[c] == pos[|pos| - 1 - c]
    ensures Pieces(rev) == Pieces(pos)
  {
    if pos != [] {
      var n := |pos| - 1;
      PiecesReversed(pos[1..], rev[..n]);
      PiecesLast(rev[..n], rev[n]);
      assert rev == rev[..n] + [rev[n]];
    }
  }

  lemma {:induction false} PiecesLast(pos: seq<seq<nat>>, column: seq<nat>)
    ensures Pieces(pos + [column]) == Pieces(pos) + |column|
  {
    if pos == [] {
      assert (pos + [column])[1..] == [];
    } else {
      PiecesLast(pos[1..], column);
      assert (pos + [column])[1..] == pos[1..] + [column];
    }
  }

  lemma RenderMirrored(pos: seq<seq<nat>>)
    requires Position(pos)
    ensures forall i, j :: 0 <= i < 13 && 0 <= j < 12 ==> Render(Mirrored(pos))[i][j] == Render(pos)[12 - i][j]
  {}

  lemma CountMirrored(board: Board, rev: Board, c: nat, row: nat, dcol: int, drow: int, color: nat)
    requires Padded(board) && Padded(rev) && c < 7 && row < 6 && -1 <= dcol <= 1 && -1 <= drow <= 1
    requires forall i, j :: 0 <= i < 13 && 0 <= j < 12 ==> rev[i][j] == board[12 - i][j]
    ensures CountFrom(rev, 6 - c, row, dcol, drow, color) == CountFrom(board, c, row, -dcol, drow, color)
  {}

  lemma WinMirrored(pos: seq<seq<nat>>, c: nat)
    requires Position(pos) && Playable(pos, c)
    ensures Playable(Mirrored(pos), 6 - c) && (WinsAtOnce(Mirrored(pos), 6 - c) <==> WinsAtOnce(pos, c))
  {
    PiecesReversed(pos, Mirrored(pos));
    RenderMirrored(pos);
    var board, rev, row, color := Render(pos), Render(Mirrored(pos)), |pos[c]|, Mover(pos);
    hide Render, CountFrom, Pieces;
    CountMirrored(board, rev, c, row, 1, 0, color);
    CountMirrored(board, rev, c, row, -1, 0, color);
    CountMirrored(board, rev, c, row, 0, 1, color);
    CountMirrored(board, rev, c, row, 0, -1, color);
    CountMirrored(board, rev, c, row, 1, 1, color);
    CountMirrored(board, rev, c, row, -1, -1, color);
    CountMirrored(board, rev, c, row, 1, -1, color);
    CountMirrored(board, rev, c, row, -1, 1, color);
  }

  lemma DropMirrored(pos: seq<seq<nat>>, c: nat)
    requires Position(pos) && Playable(pos, c) && Position(Drop(pos, c))
    ensures Drop(Mirrored(pos), 6 - c) == Mirrored(Drop(pos, c))
  {
    PiecesReversed(pos, Mirrored(pos));
  }

  lemma {:induction false} MoveMirrored(pos: seq<seq<nat>>, c: nat)
    requires Position(pos) && Playable(pos, c)
    ensures Playable(Mirrored(pos), 6 - c) && MoveValue(Mirrored(pos), 6 - c) == MoveValue(pos, c)
    decreases 43 - Pieces(pos), 0
  {
    Dropped(pos, c);
    PiecesReversed(pos, Mirrored(pos));
    WinMirrored(pos, c);
    DropMirrored(pos, c);
    hide WinsAtOnce, Value;
    if !WinsAtOnce(pos, c) { MirrorKeepsValue(Drop(pos, c)); }
  }

  /** A position and its mirror image are worth the same. */
  lemma {:induction false} MirrorKeepsValue(pos: seq<seq<nat>>)
    requires Position(pos)
    ensures Value(Mirrored(pos)) == Value(pos)
    decreases 43 - Pieces(pos), 1
  {
    AtMostFull(pos);
    PiecesReversed(pos, Mirrored(pos));
    hide MoveValue;
    forall c: nat | c < 7 && Playable(pos, c)
      ensures Playable(Mirrored(pos), 6 - c) && MoveValue(Mirrored(pos), 6 - c) == MoveValue(pos, c)
    {
      MoveMirrored(pos, c);
    }
    SameMoves(pos, Mirrored(pos));
  }

  lemma SameMoves(pos: seq<seq<nat>>, rev: seq<seq<nat>>)
    requires Position(pos) && Position(rev) && Pieces(rev) == Pieces(pos)
    requires forall c: nat :: c < 7 ==> |rev[c]| == |pos[6 - c]|
    requires forall c: nat :: c < 7 && Playable(pos, c) ==> MoveValue(rev, 6 - c) == MoveValue(pos, c)
    ensures Value(rev) == Value(pos)
  {
    hide MoveValue;
    forall c: nat | c < 7 && Playable(rev, c) ensures Playable(pos, 6 - c) && MoveValue(rev, c) == MoveValue(pos, 6 - c) {}
  }

  // ---- Packed keys ----------------------------------------------------------------------------------------------

  function HeightsOf(pos: seq<seq<nat>>): nat {
    if pos == [] then 0 else |pos[0]| + 8 * HeightsOf(pos[1..])
  }

  function Bits(column: seq<nat>): nat {
    if column == [] then 0 else (if column[0] == YELLOW then 1 else 0) + 2 * Bits(column[1..])
  }

  function ColorsOf(pos: seq<seq<nat>>): nat {
    if pos == [] then 0 else Bits(pos[0]) + 64 * ColorsOf(pos[1..])
  }

  function KeyOf(pos: seq<seq<nat>>): nat { HeightsOf(pos) * Pow2(HEIGHTS_SHIFT) + ColorsOf(pos) }

  /** `x >> 3 * k`. */
  function ShiftHeights(x: nat, k: nat): nat { if k == 0 then x else ShiftHeights(x / 8, k - 1) }

  /** `x >> 6 * k`. */
  function ShiftColors(x: nat, k: nat): nat { if k == 0 then x else ShiftColors(x / 64, k - 1) }

  function Power(base: nat, k: nat): nat { if k == 0 then 1 else base * Power(base, k - 1) }

  lemma {:induction false} BitsBound(column: seq<nat>)
    ensures Bits(column) < Pow2(|column|)
  {
    if column != [] { BitsBound(column[1..]); }
  }

  lemma ColumnBits(column: seq<nat>)
    requires Column(column)
    ensures Bits(column) < 64
  {
    BitsBound(column);
    if |column| < 6 { Pow2Increases(|column|, 6); }
    PowSix();
  }

  lemma EightTimes(k: nat)
    ensures Pow2(k + 3) == 8 * Pow2(k)
  {
    assert Pow2(k + 3) == 2 * Pow2(k + 2);
    assert Pow2(k + 2) == 2 * Pow2(k + 1);
  }

  lemma PowSix()
    ensures Pow2(6) == 64
  {
    EightTimes(0);
    EightTimes(3);
  }

  lemma {:induction false} ColorsBound(pos: seq<seq<nat>>)
    requires Columns(pos)
    ensures ColorsOf(pos) < Power(64, |pos|)
  {
    if pos != [] {
      ColumnBits(pos[0]);
      ColorsBound(pos[1..]);
    }
  }

  lemma FortyTwo()
    ensures Power(64, 7) == Pow2(42)
  {
    SixAtATime(7);
  }

  lemma {:induction false} SixAtATime(k: nat)
    ensures Power(64, k) == Pow2(6 * k)
  {
    if k != 0 {
      SixAtATime(k - 1);
      EightTimes(6 * k - 6);
      EightTimes(6 * k - 3);
    }
  }

  /** The two parts of a key can be taken apart. */
  lemma KeyParts(pos: seq<seq<nat>>)
    requires Position(pos)
    ensures KeyOf(pos) / Pow2(HEIGHTS_SHIFT) == HeightsOf(pos) && KeyOf(pos) % Pow2(HEIGHTS_SHIFT) == ColorsOf(pos)
  {
    ColorsBound(pos);
    FortyTwo();
    Remainder(KeyOf(pos), Pow2(HEIGHTS_SHIFT), HeightsOf(pos), ColorsOf(pos));
  }

  lemma {:induction false} SameBits(a: seq<nat>, b: seq<nat>)
    requires |a| == |b| && Column(a) && Column(b) && Bits(a) == Bits(b)
    ensures a == b
    decreases |a|
  {
    if a != [] {
      SameBits(a[1..], b[1..]);
      assert a == [a[0]] + a[1..] && b == [b[0]] + b[1..];
    }
  }

  lemma FirstColors(pos: seq<seq<nat>>)
    requires pos != [] && Columns(pos)
    ensures ColorsOf(pos) % 64 == Bits(pos[0]) && ColorsOf(pos) / 64 == ColorsOf(pos[1..])
  {
    ColumnBits(pos[0]);
    Remainder(ColorsOf(pos), 64, ColorsOf(pos[1..]), Bits(pos[0]));
  }

  lemma {:induction false} SameParts(a: seq<seq<nat>>, b: seq<seq<nat>>)
    requires |a| == |b| && Columns(a) && Columns(b) && HeightsOf(a) == HeightsOf(b) && ColorsOf(a) == ColorsOf(b)
    ensures a == b
    decreases |a|
  {
    if a != [] {
      FirstColors(a);
      FirstColors(b);
      assert Column(a[0]) && Column(b[0]);
      hide ColorsOf, Bits;
      SameBits(a[0], b[0]);
      SameParts(a[1..], b[1..]);
      assert a == [a[0]] + a[1..] && b == [b[0]] + b[1..];
    }
  }

  /** A key belongs to one position only. */
  lemma KeyIsUnique(a: seq<seq<nat>>, b: seq<seq<nat>>)
    requires Position(a) && Position(b) && KeyOf(a) == KeyOf(b)
    ensures a == b
  {
    KeyParts(a);
    KeyParts(b);
    SameParts(a, b);
  }

  // ---- Keys after a move ----------------------------------------------------------------------------------------

  lemma {:induction false} HeightDigit(pos: seq<seq<nat>>, c: nat)
    requires Columns(pos) && c < |pos|
    ensures ShiftHeights(HeightsOf(pos), c) % 8 == |pos[c]|
  {
    if c != 0 { HeightDigit(pos[1..], c - 1); }
  }

  lemma {:induction false} ColorDigit(pos: seq<seq<nat>>, c: nat)
    requires Columns(pos) && c < |pos|
    ensures ShiftColors(ColorsOf(pos), c) % 64 == Bits(pos[c])
  {
    ColumnBits(pos[0]);
    Remainder(ColorsOf(pos), 64, ColorsOf(pos[1..]), Bits(pos[0]));
    if c != 0 { ColorDigit(pos[1..], c - 1); }
  }

  lemma {:induction false} HeightsDropped(pos: seq<seq<nat>>, c: nat, color: nat)
    requires c < |pos|
    ensures HeightsOf(pos[c := pos[c] + [color]]) == HeightsOf(pos) + Power(8, c)
  {
    var pos' := pos[c := pos[c] + [color]];
    if c == 0 {
      assert pos'[1..] == pos[1..];
    } else {
      HeightsDropped(pos[1..], c - 1, color);
      assert pos'[1..] == pos[1..][c - 1 := pos[1..][c - 1] + [color]];
    }
  }

  lemma {:induction false} BitsDropped(column: seq<nat>, color: nat)
    ensures Bits(column + [color]) == Bits(column) + if color == YELLOW then Pow2(|column|) else 0
  {
    if column != [] {
      BitsDropped(column[1..], color);
      assert (column + [color])[1..] == column[1..] + [color];
    } else {
      assert (column + [color])[1..] == [];
    }
  }

  /** The bit of a cell among the colour bits. */
  function CellBit(c: nat, row: nat): nat { Power(64, c) * Pow2(row) }

  lemma {:induction false} ColorsDropped(pos: seq<seq<nat>>, c: nat, color: nat)
    requires c < |pos|
    ensures ColorsOf(pos[c := pos[c] + [color]]) == ColorsOf(pos) + if color == YELLOW then CellBit(c, |pos[c]|) else 0
  {
    var pos' := pos[c := pos[c] + [color]];
    if c == 0 {
      BitsDropped(pos[0], color);
      assert pos'[1..] == pos[1..];
    } else {
      ColorsDropped(pos[1..], c - 1, color);
      assert pos'[1..] == pos[1..][c - 1 := pos[1..][c - 1] + [color]];
      NextColumn(c - 1, |pos[c]|);
    }
  }

  lemma NextColumn(c: nat, row: nat)
    ensures CellBit(c + 1, row) == 64 * CellBit(c, row)
  {
    Associative(64, Power(64, c), Pow2(row));
  }

  lemma Associative(a: int, b: int, c: int)
    ensures a * b * c == a * (b * c)
  {}

  predicate BitSet(v: nat, b: nat)
    requires 0 < b
  {
    v / b % 2 == 1
  }

  /** Exclusive or with one bit. */
  function FlipBit(x: nat, c: nat, row: nat): int {
    if BitSet(ShiftColors(x, c) % 64, Pow2(row)) then x - CellBit(c, row) else x + CellBit(c, row)
  }

  /** Flipping a bit again gives the number back. */
  lemma FlippedTwice(x: nat, c: nat, row: nat)
    requires row < 6
    ensures 0 <= FlipBit(x, c, row) != x && FlipBit(FlipBit(x, c, row), c, row) == x
  {
    var s, p := ShiftColors(x, c), Power(64, c);
    var b: int := Pow2(row);
    SixBits(s, row);
    ShiftDown(x, c);
    Product(p, b);
    hide ShiftColors, Power, Pow2, BitSet;
    if !BitSet(s % 64, b) {
      ShiftAdds(x, c, b);
    } else {
      Product(p, s - b);
      Times(p, s, b);
      ShiftAdds(x, c, 0 - b);
    }
  }

  lemma Times(p: int, s: int, b: int)
    ensures p * (s - b) == p * s - p * b && p * (0 - b) == -(p * b)
  {}

  lemma Product(a: int, b: int)
    requires 0 <= a && 0 <= b
    ensures 0 <= a * b && (0 < a && 0 < b ==> 0 < a * b)
  {}

  lemma SixBits(s: nat, row: nat)
    requires row < 6
    ensures var b := Pow2(row);
      0 < b && if BitSet(s % 64, b) then b <= s && !BitSet((s - b) % 64, b) else BitSet((s + b) % 64, b)
  {
    var b, v := Pow2(row), s % 64;
    PowSix();
    assert Pow2(4) == 2 * Pow2(3) && Pow2(3) == 2 * Pow2(2) && Pow2(2) == 2 * Pow2(1);
    assert b in {1, 2, 4, 8, 16, 32};
    hide BitSet, Pow2;
    OneBit(v, b);
    if BitSet(v, b) { Remainder(s - b, 64, s / 64, v - b); } else { Remainder(s + b, 64, s / 64, v + b); }
  }

  lemma EvenEndsBelow(q: nat, b: nat, r: nat)
    requires b in {1, 2, 4, 8, 16, 32} && q * b + r < 64 && r < b && q % 2 == 0
    ensures q * b + r + b < 64
  {
    if b == 1 {
    } else if b == 2 {
    } else if b == 4 {
    } else if b == 8 {
    } else if b == 16 {
    } else {
    }
  }

  lemma OneBit(v: nat, b: nat)
    requires v < 64 && b in {1, 2, 4, 8, 16, 32}
    ensures if BitSet(v, b) then b <= v && !BitSet(v - b, b) else v + b < 64 && BitSet(v + b, b)
  {
    hide BitSet;
    var q, r := v / b, v % b;
    NextBit(v, b, q, r);
    if q % 2 == 0 { EvenEndsBelow(q, b, r); }
  }

  lemma BitIs(v: nat, b: nat, q: int, r: nat)
    requires r < b && v == q * b + r
    ensures BitSet(v, b) <==> q % 2 == 1
  {
    Remainder(v, b, q, r);
  }

  lemma NextBit(v: nat, b: nat, q: nat, r: nat)
    requires r < b && v == q * b + r
    ensures BitSet(v, b) <==> q % 2 == 1
    ensures q % 2 == 0 ==> BitSet(v + b, b)
    ensures q % 2 == 1 ==> b <= v && !BitSet(v - b, b)
  {
    hide BitSet;
    OneMoreOrLess(q, b);
    BitIs(v, b, q, r);
    BitIs(v + b, b, q + 1, r);
    if q % 2 == 1 {
      Product(q - 1, b);
      BitIs(v - b, b, q - 1, r);
    }
  }

  lemma OneMoreOrLess(q: int, b: int)
    ensures (q + 1) * b == q * b + b && (q - 1) * b == q * b - b
  {}

  lemma {:induction false} ShiftDown(x: nat, c: nat)
    ensures Power(64, c) * ShiftColors(x, c) <= x && 0 < Power(64, c)
  {
    if c != 0 {
      ShiftDown(x / 64, c - 1);
      Associative(64, Power(64, c - 1), ShiftColors(x, c));
    }
  }

  lemma {:induction false} ShiftAdds(x: int, c: nat, d: int)
    requires 0 <= x && 0 <= x + Power(64, c) * d
    ensures ShiftColors(x + Power(64, c) * d, c) == ShiftColors(x, c) + d
  {
    if c != 0 {
      var p := Power(64, c - 1) * d;
      assert Power(64, c) * d == 64 * p by { Associative(64, Power(64, c - 1), d); }
      assert (x + 64 * p) / 64 == x / 64 + p;
      ShiftAdds(x / 64, c - 1, d);
    }
  }

  /** The bit of an empty cell is not set. */
  lemma EmptyCellBit(pos: seq<seq<nat>>, c: nat)
    requires Columns(pos) && c < |pos|
    ensures FlipBit(ColorsOf(pos), c, |pos[c]|) == ColorsOf(pos) + CellBit(c, |pos[c]|)
  {
    ColorDigit(pos, c);
    BitsBound(pos[c]);
    Remainder(Bits(pos[c]), Pow2(|pos[c]|), 0, Bits(pos[c]));
  }

  lemma KeyDropped(pos: seq<seq<nat>>, c: nat)
    requires Position(pos) && Playable(pos, c)
    ensures ShiftHeights(HeightsOf(pos), c) % 8 == |pos[c]|
    ensures HeightsOf(Drop(pos, c)) == HeightsOf(pos) + Power(8, c)
    ensures ColorsOf(Drop(pos, c)) == if Mover(pos) == YELLOW then FlipBit(ColorsOf(pos), c, |pos[c]|) else ColorsOf(pos)
  {
    HeightDigit(pos, c);
    HeightsDropped(pos, c, Mover(pos));
    ColorsDropped(pos, c, Mover(pos));
    EmptyCellBit(pos, c);
  }

  lemma RenderDropped(pos: seq<seq<nat>>, c: nat)
    requires Position(pos) && Playable(pos, c) && Position(Drop(pos, c))
    ensures SetCell(Render(pos), c, |pos[c]|, Mover(pos)) == Render(Drop(pos, c))
    ensures SetCell(Render(Drop(pos, c)), c, |pos[c]|, EMPTY) == Render(pos)
  {
    var pos' := Drop(pos, c);
    forall i | 0 <= i < 13
      ensures SetCell(Render(pos), c, |pos[c]|, Mover(pos))[i] == Render(pos')[i]
      ensures SetCell(Render(pos'), c, |pos[c]|, EMPTY)[i] == Render(pos)[i]
    {}
  }

  lemma NextHeight(pos: seq<seq<nat>>, c: nat)
    requires Position(pos) && c < 7
    ensures HeightsOf(pos[c..]) % 8 == |pos[c]| && HeightsOf(pos[c..]) / 8 == HeightsOf(pos[c + 1..])
  {
    assert pos[c..][1..] == pos[c + 1..] && Column(pos[c]);
  }

  // ---- The search -----------------------------------------------------------------------------------------------

  lemma FullIsDraw(pos: seq<seq<nat>>)
    requires Position(pos) && Pieces(pos) == 42
    ensures Value(pos) == EMPTY
  {}

  lemma NoWinHere(pos: seq<seq<nat>>, c: nat)
    requires Position(pos) && NoWinBefore(pos, c) && (Playable(pos, c) ==> !WinsAtOnce(pos, c))
    ensures NoWinBefore(pos, c + 1)
  {}

  /** What the table knows is right. */
  ghost predicate MemoOk(memo: map<nat, nat>) {
    forall pos :: Position(pos) && KeyOf(pos) in memo ==> memo[KeyOf(pos)] == Value(pos)
  }

  lemma Known(memo: map<nat, nat>, pos: seq<seq<nat>>)
    requires MemoOk(memo) && Position(pos) && KeyOf(pos) in memo
    ensures memo[KeyOf(pos)] == Value(pos)
  {}

  lemma Remembered(memo: map<nat, nat>, pos: seq<seq<nat>>)
    requires MemoOk(memo) && Position(pos)
    ensures MemoOk(memo[KeyOf(pos) := Value(pos)])
  {
    forall other | Position(other) && KeyOf(other) == KeyOf(pos) ensures other == pos { KeyIsUnique(other, pos); }
  }

  ghost predicate NoWinBefore(pos: seq<seq<nat>>, c: nat)
    requires Position(pos)
  {
    forall k: nat :: k < c && Playable(pos, k) ==> !WinsAtOnce(pos, k)
  }

  lemma WinsNow(pos: seq<seq<nat>>, c: nat)
    requires Position(pos) && Playable(pos, c) && WinsAtOnce(pos, c)
    ensures Value(pos) == Mover(pos)
  {
    Dropped(pos, c);
    assert MoveValue(pos, c) == Mover(pos);
  }

  /** `res` is the best of the columns before `c`, none of which wins. */
  ghost predicate BestBefore(pos: seq<seq<nat>>, c: nat, res: nat)
    requires Position(pos)
  {
    && (forall k: nat :: k < c && Playable(pos, k) ==> MoveValue(pos, k) != Mover(pos))
    && (if exists k: nat :: k < c && Playable(pos, k) && MoveValue(pos, k) == EMPTY then res == EMPTY else res == Other(Mover(pos)))
  }

  lemma NoColumnYet(pos: seq<seq<nat>>)
    requires Position(pos)
    ensures NoWinBefore(pos, 0) && BestBefore(pos, 0, Other(Mover(pos)))
  {}

  lemma ColumnFull(pos: seq<seq<nat>>, c: nat, res: nat)
    requires Position(pos) && BestBefore(pos, c, res) && !Playable(pos, c)
    ensures BestBefore(pos, c + 1, res)
  {}

  lemma ColumnTried(pos: seq<seq<nat>>, c: nat, res: nat)
    requires Position(pos) && Playable(pos, c) && NoWinBefore(pos, 7) && BestBefore(pos, c, res) && Position(Drop(pos, c))
    ensures var winner := Value(Drop(pos, c));
      if winner == Mover(pos) then Pieces(pos) < 42 ==> Value(pos) == Mover(pos)
      else BestBefore(pos, c + 1, if winner == EMPTY then EMPTY else res)
  {
    assert MoveValue(pos, c) == Value(Drop(pos, c));
  }

  lemma AllColumnsTried(pos: seq<seq<nat>>, res: nat)
    requires Position(pos) && Pieces(pos) < 42 && BestBefore(pos, 7, res)
    ensures Value(pos) == res
  {}

  lemma EmptyBoard()
    ensures Render(Opening()) == seq(13, _ => seq(12, _ => EMPTY))
  {
    var pos := Opening();
    forall i | 0 <= i < 13 ensures Render(pos)[i] == seq(12, _ => EMPTY) {}
  }

  /** The board, with the table `memo` that all searches share. */
  class Solver {
    var board: Board
    var memo: map<nat, nat>

    constructor ()
      ensures memo == map[] && board == Render(Opening())
    {
      memo := map[];
      board := seq(13, _ => seq(12, _ => EMPTY));
      new;
      EmptyBoard();
    }

    method SetColor(key: nat, col: nat, color: nat, ghost pos: seq<seq<nat>>) returns (newKey: nat)
      requires Position(pos) && Playable(pos, col) && color == Mover(pos) && key == KeyOf(pos) && board == Render(pos)
      modifies this`board
      ensures Position(Drop(pos, col)) && newKey == KeyOf(Drop(pos, col)) && board == Render(Drop(pos, col))
    {
      hide Render, HeightsOf, ColorsOf, Mover, Columns, Power, FlipBit, ShiftHeights, Pow2;
      Dropped(pos, col);
      KeyParts(pos);
      KeyDropped(pos, col);
      RenderDropped(pos, col);
      var heights := key / Pow2(HEIGHTS_SHIFT);
      var row := ShiftHeights(heights, col) % 8;
      board := SetCell(board, col, row, color);
      var colors: int := key % Pow2(HEIGHTS_SHIFT);
      if color == YELLOW { colors := FlipBit(colors, col, row); }
      newKey := (heights + Power(8, col)) * Pow2(HEIGHTS_SHIFT) + colors;
    }

    /** The plain minimax value of the position; the board is as before, and the table still right. */
    method TreeSearch(key: nat, color: nat, rounds: nat, ghost pos: seq<seq<nat>>) returns (res: nat)
      requires Position(pos) && key == KeyOf(pos) && color == Mover(pos) && rounds == Pieces(pos)
      requires board == Render(pos) && MemoOk(memo)
      modifies this
      ensures res == Value(pos) && board == Render(pos) && MemoOk(memo)
      decreases 43 - rounds
    {
      hide Render, HeightsOf, ColorsOf, KeyOf, Mover, Columns, Pow2, MemoOk, NoWinBefore, BestBefore, Value, MoveValue;
      AtMostFull(pos);
      if rounds == 42 {
        FullIsDraw(pos);
        return EMPTY;
      }
      if key in memo {
        Known(memo, pos);
        return memo[key];
      }
      KeyParts(pos);
      NoColumnYet(pos);
      assert pos[0..] == pos;
      var heights := key / Pow2(HEIGHTS_SHIFT);
      for col: nat := 0 to 7
        invariant heights == HeightsOf(pos[col..]) && NoWinBefore(pos, col)
        invariant board == Render(pos) && MemoOk(memo)
      {
        NextHeight(pos, col);
        if heights % 8 < 6 && IsWinningMove(board, col, heights % 8, color) {
          WinsNow(pos, col);
          return color;
        }
        NoWinHere(pos, col);
        heights := heights / 8;
      }
      heights := key / Pow2(HEIGHTS_SHIFT);
      res := Other(color);
      for col: nat := 0 to 7
        invariant heights == HeightsOf(pos[col..]) && board == Render(pos) && MemoOk(memo)
        invariant BestBefore(pos, col, res) && res != color
      {
        NextHeight(pos, col);
        var row := heights % 8;
        heights := heights / 8;
        if row >= 6 {
          ColumnFull(pos, col, res);
          continue;
        }
        Dropped(pos, col);
        RenderDropped(pos, col);
        var newKey := SetColor(key, col, color, pos);
        var winner := TreeSearch(newKey, Other(color), rounds + 1, Drop(pos, col));
        board := SetCell(board, col, row, EMPTY);
        ColumnTried(pos, col, res);
        if winner == color {
          res := color;
          break;
        }
        if winner == EMPTY {
          res := EMPTY;
        }
      }
      if res != color { AllColumnsTried(pos, res); }
      Remembered(memo, pos);
      memo := memo[key := res];
    }

    /** The result of the game from the empty board with best play. */
    method Solve() returns (winner: nat)
      requires board == Render(Opening()) && MemoOk(memo)
      modifies this
      ensures winner == Value(Opening())
    {
      ghost var pos := Opening();
      NoPieces(pos);
      winner := TreeSearch(0, RED, 0, pos);
    }
  }

  lemma {:induction false} NoPieces(pos: seq<seq<nat>>)
    requires forall c :: 0 <= c < |pos| ==> pos[c] == []
    ensures Pieces(pos) == HeightsOf(pos) == ColorsOf(pos) == 0
  {
    if pos != [] { NoPieces(pos[1..]); }
  }
}
