/** `GomokuBoard.winner`: scan rows, columns, the diagonals parallel to the
    main diagonal and those of the upside-down board for a run of at least
    `NeededToWin` equal non-empty marks, then test for a draw. */
module Terminal {
  import opened Wrappers
  import opened Gomoku
  import opened Runs

  /** Column c of the board (a row of `board.T`). */
  function Column(b: Grid, c: int): (col: seq<int>)
    requires Square(b) && 0 <= c < |b|
  {
    seq(|b|, i requires 0 <= i < |b| => b[i][c])
  }

  /** `board.T`, scanned row by row. */
  function Transpose(b: Grid): (t: Grid)
    requires Square(b)
    ensures |t| == |b| && Square(t)
  {
    seq(|b|, c requires 0 <= c < |b| => Column(b, c))
  }

  /** `board.diagonal(off)` of an n x n array: the cells (t, t + off) for
      off >= 0 and (t - off, t) for off < 0. */
  function Diagonal(b: Grid, off: int): (d: seq<int>)
    requires Square(b)
    ensures |d| == if -|b| < off < |b| then |b| - (if off >= 0 then off else -off) else 0
  {
    if off >= 0 then
      if off < |b| then seq(|b| - off, t requires 0 <= t < |b| - off => b[t][t + off]) else []
    else
      if -off < |b| then seq(|b| + off, t requires 0 <= t < |b| + off => b[t - off][t]) else []
  }

  /** The number of offsets in range(K - n, n - K + 1). */
  function DiagonalCount(n: nat): nat {
    if 2 * n - 2 * NeededToWin + 1 > 0 then 2 * n - 2 * NeededToWin + 1 else 0
  }

  /** The diagonals `winner` scans, offsets K - n .. n - K in increasing order. */
  function Diagonals(b: Grid): (ds: seq<seq<int>>)
    requires Square(b)
    ensures |ds| == DiagonalCount(|b|)
  {
    seq(DiagonalCount(|b|), i requires 0 <= i < DiagonalCount(|b|) => Diagonal(b, NeededToWin - |b| + i))
  }

  /** `np.flipud`: the rows in reverse order. */
  function FlipUD(b: Grid): (f: Grid)
    requires Square(b)
    ensures |f| == |b| && Square(f)
  {
    seq(|b|, i requires 0 <= i < |b| => b[|b| - 1 - i])
  }

  /** `board.T` swaps rows and columns. */
  lemma TransposeCells(b: Grid)
    requires Square(b)
    ensures forall i, j :: InBounds(b, i, j) ==> Transpose(b)[j][i] == b[i][j]
  {
  }

  /** `board.diagonal(off)` holds n - |off| cells, the t-th being (t, t + off)
      above the main diagonal and (t - off, t) below it. */
  lemma DiagonalCells(b: Grid, off: int)
    requires Square(b)
    ensures var d := Diagonal(b, off);
      && (forall t :: 0 <= t < |d| && off >= 0 ==> d[t] == b[t][t + off])
      && (forall t :: 0 <= t < |d| && off < 0 ==> d[t] == b[t - off][t])
  {
  }

  /** The diagonals scanned are exactly those long enough to hold a run:
      the offsets K - n .. n - K, in increasing order. */
  lemma DiagonalsSpan(b: Grid)
    requires Square(b)
    ensures var ds := Diagonals(b);
      && (forall i :: 0 <= i < |ds| ==> |ds[i]| >= NeededToWin)
      && (forall off :: |Diagonal(b, off)| >= NeededToWin ==>
            0 <= off - (NeededToWin - |b|) < |ds| && ds[off - (NeededToWin - |b|)] == Diagonal(b, off))
  {
    var ds := Diagonals(b);
    forall i | 0 <= i < |ds| ensures |ds[i]| >= NeededToWin {
      var off := NeededToWin - |b| + i;
      assert ds[i] == Diagonal(b, off);
      DiagonalLong(|b|, off, |Diagonal(b, off)|);
    }
    forall off | |Diagonal(b, off)| >= NeededToWin
      ensures 0 <= off - (NeededToWin - |b|) < |ds| && ds[off - (NeededToWin - |b|)] == Diagonal(b, off)
    {
      DiagonalLong(|b|, off, |Diagonal(b, off)|);
    }
  }

  /** A diagonal of length n - |off| holds a run only for K - n <= off <= n - K. */
  lemma DiagonalLong(n: nat, off: int, len: int)
    requires len == if 0 < n + off && off < n then n - (if off >= 0 then off else -off) else 0
    ensures len >= NeededToWin <==> 0 <= off - (NeededToWin - n) < DiagonalCount(n)
  {
  }

  /** `np.flipud` puts row i at position n - 1 - i. */
  lemma FlipUDRows(b: Grid)
    requires Square(b)
    ensures forall i :: 0 <= i < |b| ==> FlipUD(b)[|b| - 1 - i] == b[i]
  {
  }

  /** The first winning run over a family of lines, line by line. */
  function FirstLineWinner(lines: seq<seq<int>>): (w: Option<int>)
    ensures w.Some? ==> w.value != Empty
  {
    if |lines| == 0 then None
    else
      match LineWinner(lines[0], NeededToWin)
      case Some(p) => Some(p)
      case None => FirstLineWinner(lines[1..])
  }

  /** The line family `winner` scans at stage f: rows, columns, main
      diagonals, anti-diagonals. */
  function Family(b: Grid, f: nat): seq<seq<int>>
    requires Square(b) && f < 4
  {
    if f == 0 then b
    else if f == 1 then Transpose(b)
    else if f == 2 then Diagonals(b)
    else Diagonals(FlipUD(b))
  }

  /** The stages of `winner` from f on. */
  function Stages(b: Grid, f: nat): (w: Option<int>)
    requires Square(b) && f <= 4
    ensures w == Some(Empty) ==> EmptyCount(b) == 0
    ensures w == None ==> EmptyCount(b) > 0
    decreases 4 - f
  {
    if f == 4 then (if EmptyCount(b) == 0 then Some(0) else None)
    else
      var w := FirstLineWinner(Family(b, f));
      if w.Some? then w else Stages(b, f + 1)
  }

  /** `winner`: Some(p) if p has a run (first family, first line, first run
      decides), Some(0) for a draw, None while the game goes on. */
  function Winner(b: Grid): (w: Option<int>)
    requires Square(b)
    ensures w == Some(Empty) ==> EmptyCount(b) == 0
    ensures w == None ==> EmptyCount(b) > 0
  {
    Stages(b, 0)
  }

  // ---------------------------------------------------------------------
  // Reference definition: runs of K cells in the four directions.

  const K := NeededToWin

  /** Cells (r, c) .. (r, c + K - 1) all hold p. */
  ghost predicate RowRun(b: Grid, p: int, r: int, c: int)
    requires Square(b)
  {
    0 <= r < |b| && 0 <= c && c + K <= |b| &&
    forall j :: c <= j < c + K ==> b[r][j] == p
  }

  /** Cells (r, c) .. (r + K - 1, c) all hold p. */
  ghost predicate ColRun(b: Grid, p: int, r: int, c: int)
    requires Square(b)
  {
    0 <= c < |b| && 0 <= r && r + K <= |b| &&
    forall i :: r <= i < r + K ==> b[i][c] == p
  }

  /** Cells (r, c), (r + 1, c + 1), .., (r + K - 1, c + K - 1) all hold p. */
  ghost predicate DiagRun(b: Grid, p: int, r: int, c: int)
    requires Square(b)
  {
    0 <= r && r + K <= |b| && 0 <= c && c + K <= |b| &&
    forall i, j :: r <= i < r + K && j - i == c - r ==> b[i][j] == p
  }

  /** Cells (r, c), (r - 1, c + 1), .., (r - K + 1, c + K - 1) all hold p. */
  ghost predicate AntiRun(b: Grid, p: int, r: int, c: int)
    requires Square(b)
  {
    K - 1 <= r < |b| && 0 <= c && c + K <= |b| &&
    forall i, j :: r - K < i <= r && i + j == r + c ==> b[i][j] == p
  }

  ghost predicate RowWin(b: Grid, p: int) requires Square(b) { exists r, c :: RowRun(b, p, r, c) }
  ghost predicate ColWin(b: Grid, p: int) requires Square(b) { exists r, c :: ColRun(b, p, r, c) }
  ghost predicate DiagWin(b: Grid, p: int) requires Square(b) { exists r, c :: DiagRun(b, p, r, c) }
  ghost predicate AntiWin(b: Grid, p: int) requires Square(b) { exists r, c :: AntiRun(b, p, r, c) }

  /** p has K in a row somewhere: in a row, a column or either diagonal direction. */
  ghost predicate HasRun(b: Grid, p: int)
    requires Square(b)
  {
    RowWin(b, p) || ColWin(b, p) || DiagWin(b, p) || AntiWin(b, p)
  }

  /** Some non-empty mark has K in a row. */
  ghost predicate SomeRun(b: Grid)
    requires Square(b)
  {
    exists p :: p != Empty && HasRun(b, p)
  }

  // ---------------------------------------------------------------------
  // From lines to families.

  /** Some line of the family holds K consecutive copies of p. */
  ghost predicate FamilyHas(lines: seq<seq<int>>, p: int) {
    exists l :: 0 <= l < |lines| && HasWindow(lines[l], K, p)
  }

  lemma {:induction false} FirstLineWinnerSpec(lines: seq<seq<int>>)
    ensures FirstLineWinner(lines).Some? ==> FamilyHas(lines, FirstLineWinner(lines).value)
    ensures FirstLineWinner(lines).None? <==> forall p :: !FamilyHas(lines, p)
    decreases |lines|
  {
    if |lines| > 0 {
      LineWinnerSpec(lines[0], K);
      FirstLineWinnerSpec(lines[1..]);
      if LineWinner(lines[0], K).None? {
        forall p ensures FamilyHas(lines, p) <==> FamilyHas(lines[1..], p) {
          if FamilyHas(lines, p) {
            var l :| 0 <= l < |lines| && HasWindow(lines[l], K, p);
            assert l > 0;
            assert lines[1..][l - 1] == lines[l];
          }
          if FamilyHas(lines[1..], p) {
            var l :| 0 <= l < |lines[1..]| && HasWindow(lines[1..][l], K, p);
            assert lines[l + 1] == lines[1..][l];
          }
        }
      } else {
        var q := LineWinner(lines[0], K).value;
        assert FirstLineWinner(lines) == Some(q);
        assert HasWindow(lines[0], K, q);
        assert FamilyHas(lines, q);
      }
    }
  }

  lemma RowFamily(b: Grid, p: int)
    requires Square(b)
    ensures FamilyHas(b, p) <==> p != Empty && RowWin(b, p)
  {
    if FamilyHas(b, p) {
      var l :| 0 <= l < |b| && HasWindow(b[l], K, p);
      var i :| WindowAt(b[l], i, K, p);
      assert RowRun(b, p, l, i);
    }
    if p != Empty && RowWin(b, p) {
      var r, c :| RowRun(b, p, r, c);
      assert WindowAt(b[r], c, K, p);
    }
  }

  lemma ColFamily(b: Grid, p: int)
    requires Square(b)
    ensures FamilyHas(Transpose(b), p) <==> p != Empty && ColWin(b, p)
  {
    var t := Transpose(b);
    if FamilyHas(t, p) {
      var l :| 0 <= l < |t| && HasWindow(t[l], K, p);
      var i :| WindowAt(t[l], i, K, p);
      forall x | i <= x < i + K ensures b[x][l] == p {
        assert t[l][x] == b[x][l];
      }
      assert ColRun(b, p, i, l);
    }
    if p != Empty && ColWin(b, p) {
      var r, c :| ColRun(b, p, r, c);
      assert t[c] == Column(b, c);
      assert WindowAt(t[c], r, K, p);
    }
  }

  lemma DiagFamilyToRun(b: Grid, p: int, l: int, i: int)
    requires Square(b) && 0 <= l < DiagonalCount(|b|)
    requires WindowAt(Diagonal(b, K - |b| + l), i, K, p)
    ensures DiagWin(b, p)
  {
    var off := K - |b| + l;
    var d := Diagonal(b, off);
    if off >= 0 {
      forall x, y | i <= x < i + K && y - x == off ensures b[x][y] == p {
        assert d[x] == b[x][x + off];
      }
      assert DiagRun(b, p, i, i + off);
    } else {
      forall x, y | i - off <= x < i - off + K && y - x == off ensures b[x][y] == p {
        assert d[y] == b[y - off][y];
      }
      assert DiagRun(b, p, i - off, i);
    }
  }

  lemma DiagRunToFamily(b: Grid, p: int, r: int, c: int)
    requires Square(b) && p != Empty && DiagRun(b, p, r, c)
    ensures FamilyHas(Diagonals(b), p)
  {
    var ds := Diagonals(b);
    var off := c - r;
    var l := off - (K - |b|);
    var d := Diagonal(b, off);
    var i := if c >= r then r else c;
    assert 0 <= l < DiagonalCount(|b|);
    assert ds[l] == d;
    forall j | i <= j < i + K ensures d[j] == p {
      if off >= 0 {
        assert d[j] == b[j][j + off];
      } else {
        assert d[j] == b[j - off][j];
      }
    }
    assert WindowAt(d, i, K, p);
    assert HasWindow(ds[l], K, p);
  }

  lemma DiagFamily(b: Grid, p: int)
    requires Square(b)
    ensures FamilyHas(Diagonals(b), p) <==> p != Empty && DiagWin(b, p)
  {
    var ds := Diagonals(b);
    if FamilyHas(ds, p) {
      var l :| 0 <= l < |ds| && HasWindow(ds[l], K, p);
      var i :| WindowAt(ds[l], i, K, p);
      DiagFamilyToRun(b, p, l, i);
    }
    if p != Empty && DiagWin(b, p) {
      var r, c :| DiagRun(b, p, r, c);
      DiagRunToFamily(b, p, r, c);
    }
  }

  /** A main-direction run of the upside-down board is an anti-diagonal run
      of the board, and back. */
  lemma FlipRuns(b: Grid, p: int)
    requires Square(b)
    ensures DiagWin(FlipUD(b), p) <==> AntiWin(b, p)
  {
    var f := FlipUD(b);
    var n := |b|;
    if DiagWin(f, p) {
      var r, c :| DiagRun(f, p, r, c);
      forall i, j | (n - 1 - r) - K < i <= n - 1 - r && i + j == (n - 1 - r) + c ensures b[i][j] == p {
        assert f[n - 1 - i] == b[i];
        assert f[n - 1 - i][j] == p;
      }
      assert AntiRun(b, p, n - 1 - r, c);
    }
    if AntiWin(b, p) {
      var r, c :| AntiRun(b, p, r, c);
      forall i, j | n - 1 - r <= i < n - 1 - r + K && j - i == c - (n - 1 - r) ensures f[i][j] == p {
        assert f[i] == b[n - 1 - i];
        assert b[n - 1 - i][j] == p;
      }
      assert DiagRun(f, p, n - 1 - r, c);
    }
  }

  lemma AntiFamily(b: Grid, p: int)
    requires Square(b)
    ensures FamilyHas(Diagonals(FlipUD(b)), p) <==> p != Empty && AntiWin(b, p)
  {
    DiagFamily(FlipUD(b), p);
    FlipRuns(b, p);
  }

  // ---------------------------------------------------------------------
  // One scan per family.

  ghost predicate AnyRowWin(b: Grid) requires Square(b) { exists p :: p != Empty && RowWin(b, p) }
  ghost predicate AnyColWin(b: Grid) requires Square(b) { exists p :: p != Empty && ColWin(b, p) }
  ghost predicate AnyDiagWin(b: Grid) requires Square(b) { exists p :: p != Empty && DiagWin(b, p) }
  ghost predicate AnyAntiWin(b: Grid) requires Square(b) { exists p :: p != Empty && AntiWin(b, p) }

  lemma RowScan(b: Grid)
    requires Square(b)
    ensures FirstLineWinner(b).Some? <==> AnyRowWin(b)
    ensures FirstLineWinner(b).Some? ==> FirstLineWinner(b).value != Empty && RowWin(b, FirstLineWinner(b).value)
  {
    FirstLineWinnerSpec(b);
    if FirstLineWinner(b).Some? {
      RowFamily(b, FirstLineWinner(b).value);
    }
    if AnyRowWin(b) {
      var p :| p != Empty && RowWin(b, p);
      RowFamily(b, p);
    }
  }

  lemma ColScan(b: Grid)
    requires Square(b)
    ensures FirstLineWinner(Transpose(b)).Some? <==> AnyColWin(b)
    ensures FirstLineWinner(Transpose(b)).Some? ==>
      FirstLineWinner(Transpose(b)).value != Empty && ColWin(b, FirstLineWinner(Transpose(b)).value)
  {
    FirstLineWinnerSpec(Transpose(b));
    if FirstLineWinner(Transpose(b)).Some? {
      ColFamily(b, FirstLineWinner(Transpose(b)).value);
    }
    if AnyColWin(b) {
      var p :| p != Empty && ColWin(b, p);
      ColFamily(b, p);
    }
  }

  lemma DiagScan(b: Grid)
    requires Square(b)
    ensures FirstLineWinner(Diagonals(b)).Some? <==> AnyDiagWin(b)
    ensures FirstLineWinner(Diagonals(b)).Some? ==>
      FirstLineWinner(Diagonals(b)).value != Empty && DiagWin(b, FirstLineWinner(Diagonals(b)).value)
  {
    FirstLineWinnerSpec(Diagonals(b));
    if FirstLineWinner(Diagonals(b)).Some? {
      DiagFamily(b, FirstLineWinner(Diagonals(b)).value);
    }
    if AnyDiagWin(b) {
      var p :| p != Empty && DiagWin(b, p);
      DiagFamily(b, p);
    }
  }

  lemma AntiScan(b: Grid)
    requires Square(b)
    ensures FirstLineWinner(Diagonals(FlipUD(b))).Some? <==> AnyAntiWin(b)
    ensures FirstLineWinner(Diagonals(FlipUD(b))).Some? ==>
      FirstLineWinner(Diagonals(FlipUD(b))).value != Empty && AntiWin(b, FirstLineWinner(Diagonals(FlipUD(b))).value)
  {
    FirstLineWinnerSpec(Diagonals(FlipUD(b)));
    if FirstLineWinner(Diagonals(FlipUD(b))).Some? {
      AntiFamily(b, FirstLineWinner(Diagonals(FlipUD(b))).value);
    }
    if AnyAntiWin(b) {
      var p :| p != Empty && AntiWin(b, p);
      AntiFamily(b, p);
    }
  }

  // ---------------------------------------------------------------------
  // The classifier.

  /** `winner` reports the mark of a run in the first family (rows, then
      columns, then main diagonals, then anti-diagonals) that holds any run. */
  lemma WinnerFamilyOrder(b: Grid)
    requires Square(b)
    ensures AnyRowWin(b) ==>
      Winner(b).Some? && Winner(b).value != Empty && RowWin(b, Winner(b).value)
    ensures !AnyRowWin(b) && AnyColWin(b) ==>
      Winner(b).Some? && Winner(b).value != Empty && ColWin(b, Winner(b).value)
    ensures !AnyRowWin(b) && !AnyColWin(b) && AnyDiagWin(b) ==>
      Winner(b).Some? && Winner(b).value != Empty && DiagWin(b, Winner(b).value)
    ensures !AnyRowWin(b) && !AnyColWin(b) && !AnyDiagWin(b) && AnyAntiWin(b) ==>
      Winner(b).Some? && Winner(b).value != Empty && AntiWin(b, Winner(b).value)
  {
    RowScan(b);
    ColScan(b);
    DiagScan(b);
    AntiScan(b);
  }

  ghost predicate AnyFamilyWin(b: Grid) requires Square(b) {
    AnyRowWin(b) || AnyColWin(b) || AnyDiagWin(b) || AnyAntiWin(b)
  }

  lemma WinnerByFamilies(b: Grid)
    requires Square(b)
    ensures Winner(b).Some? && Winner(b).value != Empty ==> HasRun(b, Winner(b).value)
    ensures AnyFamilyWin(b) <==> Winner(b).Some? && Winner(b).value != Empty
    ensures !AnyFamilyWin(b) ==> Winner(b) == if EmptyCount(b) == 0 then Some(Empty) else None
  {
    RowScan(b);
    ColScan(b);
    DiagScan(b);
    AntiScan(b);
  }

  lemma SomeRunIffFamily(b: Grid)
    requires Square(b)
    ensures SomeRun(b) <==> AnyFamilyWin(b)
  {
    if SomeRun(b) {
      var p :| p != Empty && HasRun(b, p);
      assert RowWin(b, p) || ColWin(b, p) || DiagWin(b, p) || AntiWin(b, p);
    }
    if AnyRowWin(b) {
      var p :| p != Empty && RowWin(b, p);
      assert HasRun(b, p);
    } else if AnyColWin(b) {
      var p :| p != Empty && ColWin(b, p);
      assert HasRun(b, p);
    } else if AnyDiagWin(b) {
      var p :| p != Empty && DiagWin(b, p);
      assert HasRun(b, p);
    } else if AnyAntiWin(b) {
      var p :| p != Empty && AntiWin(b, p);
      assert HasRun(b, p);
    }
  }

  /** `winner` classifies every board: a win exactly when some mark has K in
      a row (and then the reported mark has one), a draw exactly when nobody
      has and no cell is empty, ongoing exactly when nobody has and some cell
      is empty. A full board with a run is reported as a win, never a draw. */
  lemma WinnerSpec(b: Grid)
    requires Square(b)
    ensures Winner(b).Some? && Winner(b).value != Empty ==> HasRun(b, Winner(b).value)
    ensures SomeRun(b) <==> Winner(b).Some? && Winner(b).value != Empty
    ensures Winner(b) == Some(Empty) <==> !SomeRun(b) && Full(b)
    ensures Winner(b) == None <==> !SomeRun(b) && !Full(b)
  {
    WinnerByFamilies(b);
    SomeRunIffFamily(b);
    FullIffNoEmptyCell(b);
  }

  /** On a board holding only 0, 1 and 2, `winner` returns 0, 1, 2 or None. */
  lemma WinnerRange(b: Grid)
    requires Square(b)
    requires forall r, c :: InBounds(b, r, c) ==> b[r][c] in {Empty, X, O}
    ensures Winner(b) in {None, Some(Empty), Some(X), Some(O)}
  {
    WinnerSpec(b);
    if Winner(b).Some? && Winner(b).value != Empty {
      var p := Winner(b).value;
      if RowWin(b, p) {
        var r, c :| RowRun(b, p, r, c);
        assert b[r][c] == p;
      } else if ColWin(b, p) {
        var r, c :| ColRun(b, p, r, c);
        assert b[r][c] == p;
      } else if DiagWin(b, p) {
        var r, c :| DiagRun(b, p, r, c);
        assert b[r][c] == p;
      } else {
        var r, c :| AntiRun(b, p, r, c);
        assert b[r][c] == p;
      }
    }
  }
}
