/** The Gomoku board: an n x n grid of marks (0 empty, 1 X, 2 O), its cell
    access, the row-major enumeration of empty cells and successor boards. */
module Gomoku {

  const Empty := 0
  /** The human player. */
  const X := 1
  /** The engine, the maximizing player. */
  const O := 2

  const BoardSize := 3
  const NeededToWin := 3

  type Grid = seq<seq<int>>

  datatype Coord = Coord(row: int, col: int)

  /** The board is always an n x n array. */
  predicate Square(b: Grid) {
    forall r :: 0 <= r < |b| ==> |b[r]| == |b|
  }

  predicate InBounds(b: Grid, r: int, c: int) {
    0 <= r < |b| && 0 <= c < |b|
  }

  predicate IsPlayer(p: int) {
    p == X || p == O
  }

  /** No cell of the board is empty. */
  predicate Full(b: Grid)
    requires Square(b)
  {
    forall r, c :: 0 <= r < |b| && 0 <= c < |b| ==> b[r][c] != Empty
  }

  /** Row-major order on coordinates (the order of numpy's argwhere). */
  predicate Before(p: Coord, q: Coord) {
    p.row < q.row || (p.row == q.row && p.col < q.col)
  }

  /** `switch_player`: 3 - p. */
  function SwitchPlayer(p: int): (q: int)
    ensures p == X <==> q == O
    ensures p == O <==> q == X
  {
    3 - p
  }

  lemma SwitchPlayerInvolution(p: int)
    ensures SwitchPlayer(SwitchPlayer(p)) == p
    ensures IsPlayer(p) ==> IsPlayer(SwitchPlayer(p)) && SwitchPlayer(p) != p
  {
  }

  /** `GomokuBoard.reset` and the fresh board of the constructor. */
  function Zeros(n: nat): (b: Grid)
    ensures |b| == n && Square(b)
    ensures forall r, c :: InBounds(b, r, c) ==> b[r][c] == Empty
  {
    seq(n, _ => seq(n, _ => Empty))
  }

  /** `GomokuBoard.__getitem__` with a (row, col) index. */
  function Get(b: Grid, r: int, c: int): (v: int)
    requires Square(b) && InBounds(b, r, c)
    ensures v == Empty <==> Coord(r, c) in PossibleSteps(b)
  {
    PossibleStepsSpec(b);
    b[r][c]
  }

  /** `GomokuBoard.__setitem__`: overwrite one cell, leave all others. */
  function Set(b: Grid, r: int, c: int, v: int): (b': Grid)
    requires Square(b) && InBounds(b, r, c)
    ensures |b'| == |b| && Square(b')
    ensures b'[r][c] == v
    ensures forall i, j :: InBounds(b, i, j) && (i != r || j != c) ==> b'[i][j] == b[i][j]
  {
    b[r := b[r][c := v]]
  }

  /** Reading a cell after a write: the written cell holds the new mark,
      every other cell reads as before. */
  lemma GetSet(b: Grid, r: int, c: int, v: int, i: int, j: int)
    requires Square(b) && InBounds(b, r, c) && InBounds(b, i, j)
    ensures Get(Set(b, r, c, v), i, j) == if i == r && j == c then v else Get(b, i, j)
  {
  }

  // ---------------------------------------------------------------------
  // Counting empty cells: the termination measure of both searches.

  function CountZeros(row: seq<int>): nat {
    if |row| == 0 then 0 else (if row[0] == Empty then 1 else 0) + CountZeros(row[1..])
  }

  function EmptyCount(b: Grid): nat {
    if |b| == 0 then 0 else CountZeros(b[0]) + EmptyCount(b[1..])
  }

  lemma {:induction false} CountZerosUpdate(row: seq<int>, c: int, v: int)
    requires 0 <= c < |row| && row[c] == Empty && v != Empty
    ensures CountZeros(row[c := v]) == CountZeros(row) - 1
    decreases |row|
  {
    if c > 0 {
      assert row[c := v][1..] == row[1..][c - 1 := v];
      CountZerosUpdate(row[1..], c - 1, v);
    } else {
      assert row[c := v][1..] == row[1..];
    }
  }

  lemma {:induction false} EmptyCountUpdate(b: Grid, r: int, row: seq<int>)
    requires 0 <= r < |b| && CountZeros(row) + 1 == CountZeros(b[r])
    ensures EmptyCount(b[r := row]) + 1 == EmptyCount(b)
    decreases |b|
  {
    if r > 0 {
      assert b[r := row][1..] == b[1..][r - 1 := row];
      EmptyCountUpdate(b[1..], r - 1, row);
    } else {
      assert b[r := row][1..] == b[1..];
    }
  }

  /** Writing a player's mark into an empty cell removes exactly one empty cell. */
  lemma SetEmptyCount(b: Grid, r: int, c: int, v: int)
    requires Square(b) && InBounds(b, r, c) && b[r][c] == Empty
    ensures v != Empty ==> EmptyCount(Set(b, r, c, v)) + 1 == EmptyCount(b)
  {
    if v != Empty {
      CountZerosUpdate(b[r], c, v);
      EmptyCountUpdate(b, r, b[r][c := v]);
    }
  }

  // ---------------------------------------------------------------------
  // `possible_steps`: np.argwhere(board == 0), row-major.

  /** Empty cells of `row` (row index r) at column c or later, left to right. */
  function RowSteps(row: seq<int>, r: int, c: nat): (s: seq<Coord>)
    requires c <= |row|
    ensures |s| == CountZeros(row[c..])
    ensures forall i :: 0 <= i < |s| ==> s[i].row == r && c <= s[i].col < |row| && row[s[i].col] == Empty
    decreases |row| - c
  {
    if c == |row| then []
    else
      assert row[c..][1..] == row[c + 1..];
      (if row[c] == Empty then [Coord(r, c)] else []) + RowSteps(row, r, c + 1)
  }

  /** Empty cells of rows r.. of the board, in row-major order. */
  function StepsFrom(b: Grid, r: nat): (s: seq<Coord>)
    requires Square(b) && r <= |b|
    ensures |s| == EmptyCount(b[r..])
    ensures forall i :: 0 <= i < |s| ==> r <= s[i].row && InBounds(b, s[i].row, s[i].col) && b[s[i].row][s[i].col] == Empty
    decreases |b| - r
  {
    if r == |b| then []
    else
      assert b[r..][1..] == b[r + 1..];
      assert b[r][0..] == b[r];
      RowSteps(b[r], r, 0) + StepsFrom(b, r + 1)
  }

  /** `possible_steps`: the empty cells in row-major order. */
  function PossibleSteps(b: Grid): (s: seq<Coord>)
    requires Square(b)
    ensures |s| == EmptyCount(b)
    ensures forall i :: 0 <= i < |s| ==> InBounds(b, s[i].row, s[i].col) && b[s[i].row][s[i].col] == Empty
  {
    assert b[0..] == b;
    StepsFrom(b, 0)
  }

  /** Coordinates listed in strictly increasing row-major order. */
  predicate Ascending(s: seq<Coord>) {
    forall i, k :: 0 <= i < k < |s| ==> Before(s[i], s[k])
  }

  lemma AscendingConcat(a: seq<Coord>, b: seq<Coord>)
    requires Ascending(a) && Ascending(b)
    requires forall i, k :: 0 <= i < |a| && 0 <= k < |b| ==> Before(a[i], b[k])
    ensures Ascending(a + b)
  {
    forall i, k | 0 <= i < k < |a + b| ensures Before((a + b)[i], (a + b)[k]) {
      if k < |a| {
        assert Before(a[i], a[k]);
      } else if i >= |a| {
        assert Before(b[i - |a|], b[k - |a|]);
      } else {
        assert Before(a[i], b[k - |a|]);
      }
    }
  }

  /** One step of `RowSteps`: column c, if empty, then the rest. */
  lemma RowStepsCons(row: seq<int>, r: int, c: nat)
    requires c < |row|
    ensures RowSteps(row, r, c) == (if row[c] == Empty then [Coord(r, c)] else []) + RowSteps(row, r, c + 1)
  {
  }

  /** Every empty cell from column c on is listed. */
  lemma {:induction false} RowStepsComplete(row: seq<int>, r: int, c: nat)
    requires c <= |row|
    ensures forall j :: c <= j < |row| && row[j] == Empty ==> Coord(r, j) in RowSteps(row, r, c)
    decreases |row| - c
  {
    if c < |row| {
      RowStepsComplete(row, r, c + 1);
      RowStepsCons(row, r, c);
    }
  }

  /** The listed cells are in increasing column order. */
  lemma {:induction false} RowStepsAscending(row: seq<int>, r: int, c: nat)
    requires c <= |row|
    ensures Ascending(RowSteps(row, r, c))
    decreases |row| - c
  {
    if c < |row| {
      RowStepsAscending(row, r, c + 1);
      var head := if row[c] == Empty then [Coord(r, c)] else [];
      var tail := RowSteps(row, r, c + 1);
      RowStepsCons(row, r, c);
      assert forall k :: 0 <= k < |tail| ==> c < tail[k].col;
      AscendingConcat(head, tail);
    }
  }

  lemma RowStepsSpec(row: seq<int>, r: int, c: nat)
    requires c <= |row|
    ensures forall j :: c <= j < |row| && row[j] == Empty ==> Coord(r, j) in RowSteps(row, r, c)
    ensures Ascending(RowSteps(row, r, c))
  {
    RowStepsComplete(row, r, c);
    RowStepsAscending(row, r, c);
  }

  lemma {:induction false} StepsFromSpec(b: Grid, r: nat)
    requires Square(b) && r <= |b|
    ensures forall i, j :: r <= i < |b| && 0 <= j < |b| && b[i][j] == Empty ==> Coord(i, j) in StepsFrom(b, r)
    ensures Ascending(StepsFrom(b, r))
    decreases |b| - r
  {
    if r < |b| {
      RowStepsSpec(b[r], r, 0);
      StepsFromSpec(b, r + 1);
      var head := RowSteps(b[r], r, 0);
      var tail := StepsFrom(b, r + 1);
      assert b[r][0..] == b[r];
      assert StepsFrom(b, r) == head + tail;
      assert forall k :: 0 <= k < |head| ==> head[k].row == r;
      assert forall k :: 0 <= k < |tail| ==> r < tail[k].row;
      AscendingConcat(head, tail);
    }
  }

  /** `possible_steps` lists every empty cell, exactly once, in strictly
      increasing row-major order, as `np.argwhere` does. */
  lemma PossibleStepsSpec(b: Grid)
    requires Square(b)
    ensures var s := PossibleSteps(b);
      && (forall r, c :: InBounds(b, r, c) && b[r][c] == Empty ==> Coord(r, c) in s)
      && Ascending(s)
  {
    StepsFromSpec(b, 0);
    assert b[0..] == b;
  }

  /** The board is full exactly when it has no empty cell left. */
  lemma FullIffNoEmptyCell(b: Grid)
    requires Square(b)
    ensures Full(b) <==> EmptyCount(b) == 0
  {
    var s := PossibleSteps(b);
    PossibleStepsSpec(b);
    if !Full(b) {
      var r, c :| InBounds(b, r, c) && b[r][c] == Empty;
      assert Coord(r, c) in s;
    }
    if |s| > 0 {
      assert b[s[0].row][s[0].col] == Empty;
    }
  }

  /** The boards for the listed empty cells, each with that cell set to player. */
  function BoardsFor(b: Grid, player: int, steps: seq<Coord>): (kids: seq<Grid>)
    requires Square(b)
    requires forall i :: 0 <= i < |steps| ==> InBounds(b, steps[i].row, steps[i].col) && b[steps[i].row][steps[i].col] == Empty
    ensures |kids| == |steps|
    ensures forall i :: 0 <= i < |kids| ==> Square(kids[i]) && |kids[i]| == |b|
    ensures player != Empty ==> forall i :: 0 <= i < |kids| ==> EmptyCount(kids[i]) + 1 == EmptyCount(b)
  {
    if |steps| == 0 then []
    else
      SetEmptyCount(b, steps[0].row, steps[0].col, player);
      [Set(b, steps[0].row, steps[0].col, player)] + BoardsFor(b, player, steps[1..])
  }

  /** `next_boards(player)`: one copy of the board per empty cell, in
      row-major order, each with one more mark: `player`'s. */
  function NextBoards(b: Grid, player: int): (kids: seq<Grid>)
    requires Square(b)
    ensures |kids| == EmptyCount(b)
    ensures forall i :: 0 <= i < |kids| ==> Square(kids[i]) && |kids[i]| == |b|
    ensures player != Empty ==> forall i :: 0 <= i < |kids| ==> EmptyCount(kids[i]) + 1 == EmptyCount(b)
  {
    BoardsFor(b, player, PossibleSteps(b))
  }

  lemma {:induction false} BoardsForSpec(b: Grid, player: int, steps: seq<Coord>)
    requires Square(b)
    requires forall i :: 0 <= i < |steps| ==> InBounds(b, steps[i].row, steps[i].col) && b[steps[i].row][steps[i].col] == Empty
    ensures forall i :: 0 <= i < |steps| ==> BoardsFor(b, player, steps)[i] == Set(b, steps[i].row, steps[i].col, player)
    decreases |steps|
  {
    if |steps| > 0 {
      BoardsForSpec(b, player, steps[1..]);
    }
  }

  /** The i-th successor is the board with the i-th empty cell (row-major)
      set to player and every other cell as before: the parent is a
      separate value and is not changed. */
  lemma NextBoardsSpec(b: Grid, player: int)
    requires Square(b)
    ensures var kids := NextBoards(b, player);
      var steps := PossibleSteps(b);
      forall i :: 0 <= i < |kids| ==>
        && kids[i] == Set(b, steps[i].row, steps[i].col, player)
        && b[steps[i].row][steps[i].col] == Empty
        && kids[i][steps[i].row][steps[i].col] == player
        && forall r, c :: InBounds(b, r, c) && (r != steps[i].row || c != steps[i].col) ==> kids[i][r][c] == b[r][c]
  {
    BoardsForSpec(b, player, PossibleSteps(b));
  }

  /** Each successor of a board is the board with exactly one more mark:
      the successors are pairwise distinct boards. */
  lemma NextBoardsDistinct(b: Grid, player: int, i: int, k: int)
    requires Square(b) && player != Empty
    requires 0 <= i < k < |NextBoards(b, player)|
    ensures NextBoards(b, player)[i] != NextBoards(b, player)[k]
  {
    var kids := NextBoards(b, player);
    var s := PossibleSteps(b);
    NextBoardsSpec(b, player);
    PossibleStepsSpec(b);
    assert Before(s[i], s[k]);
    assert kids[i][s[i].row][s[i].col] == player;
    assert kids[k][s[i].row][s[i].col] == Empty;
  }
}
