/** The robot-vacuum labyrinth: the field kinds and the character table the
    board file is read with, positions and the four moves, and the search
    problem (start `M`, goal `D`, successors two cells away through a cell
    that is not a wall). */
module Labyrinth {
  import opened Wrappers

  /** `LabyrinthFields`: a free cell, a wall, or one of the lettered rooms. */
  datatype Field = Empty | Wall | M | N | O | P | I | J | K | L | E | F | G | H | A | B | C | D

  /** The board, row by row. */
  type Maze = seq<seq<Field>>

  /** The characters the board file may use for a field. */
  const Known: set<char> := {' ', 'W', 'M', 'N', 'O', 'P', 'I', 'J', 'K', 'L', 'E', 'F', 'G', 'H', 'A', 'B', 'C', 'D'}

  /** The load table: a known character gives its field, anything else a free cell. */
  function LoadChar(ch: char): (f: Field)
    ensures ch !in Known ==> f == Empty
  {
    match ch
    case 'W' => Wall
    case 'M' => M
    case 'N' => N
    case 'O' => O
    case 'P' => P
    case 'I' => I
    case 'J' => J
    case 'K' => K
    case 'L' => L
    case 'E' => E
    case 'F' => F
    case 'G' => G
    case 'H' => H
    case 'A' => A
    case 'B' => B
    case 'C' => C
    case 'D' => D
    case _ => Empty
  }

  /** The character each field is drawn with; loading it gives the field back. */
  function Label(f: Field): (ch: char)
    ensures ch in Known && LoadChar(ch) == f
    ensures ch == ' ' <==> f == Empty
  {
    match f
    case Empty => ' '
    case Wall => 'W'
    case M => 'M'
    case N => 'N'
    case O => 'O'
    case P => 'P'
    case I => 'I'
    case J => 'J'
    case K => 'K'
    case L => 'L'
    case E => 'E'
    case F => 'F'
    case G => 'G'
    case H => 'H'
    case A => 'A'
    case B => 'B'
    case C => 'C'
    case D => 'D'
  }

  /** Exactly the known characters survive a load followed by drawing. */
  lemma LabelLoadChar(ch: char)
    ensures Label(LoadChar(ch)) == ch <==> ch in Known
  {
  }

  // ---------------------------------------------------------------------
  // `str.strip()`

  /** The characters Python's `str.strip()` removes. */
  predicate IsSpace(ch: char) {
    || '\t' <= ch <= '\r'
    || '\U{1C}' <= ch <= ' '
    || ch == '\U{85}' || ch == '\U{A0}' || ch == '\U{1680}'
    || '\U{2000}' <= ch <= '\U{200A}'
    || ch == '\U{2028}' || ch == '\U{2029}' || ch == '\U{202F}' || ch == '\U{205F}' || ch == '\U{3000}'
  }

  /** The number of whitespace characters the line starts with. */
  function LeadCount(s: string): (n: nat)
    ensures n <= |s|
    ensures forall k :: 0 <= k < n ==> IsSpace(s[k])
    ensures n < |s| ==> !IsSpace(s[n])
  {
    if |s| > 0 && IsSpace(s[0]) then 1 + LeadCount(s[1..]) else 0
  }

  /** The number of whitespace characters the line ends with. */
  function TrailCount(s: string): (n: nat)
    ensures n <= |s|
    ensures forall k :: |s| - n <= k < |s| ==> IsSpace(s[k])
    ensures n < |s| ==> !IsSpace(s[|s| - 1 - n])
  {
    if |s| > 0 && IsSpace(s[|s| - 1]) then 1 + TrailCount(s[..|s| - 1]) else 0
  }

  /** `line.strip()`: the slice of the line between its leading and its
      trailing whitespace. */
  function Strip(s: string): (t: string)
    ensures var i := LeadCount(s);
      && i + |t| <= |s| && t == s[i..i + |t|]
      && (forall k :: 0 <= k < i ==> IsSpace(s[k]))
      && (forall k :: i + |t| <= k < |s| ==> IsSpace(s[k]))
      && (|t| > 0 ==> !IsSpace(t[0]) && !IsSpace(t[|t| - 1]))
  {
    var i := LeadCount(s);
    if i == |s| then [] else s[i..|s| - TrailCount(s)]
  }

  /** A line with no whitespace at either end, followed by a line break,
      strips back to itself. */
  lemma StripLine(row: string)
    requires |row| > 0 ==> !IsSpace(row[0]) && !IsSpace(row[|row| - 1])
    ensures Strip(row + "\n") == row
  {
    var s := row + "\n";
    assert s[..|s| - 1] == row;
    assert TrailCount(s) == 1 + TrailCount(row);
    assert s[0..|row|] == row;
  }

  /** Stripping twice is stripping once. */
  lemma StripIdempotent(s: string)
    ensures Strip(Strip(s)) == Strip(s)
  {
    var t := Strip(s);
    assert t[0..|t|] == t;
  }

  // ---------------------------------------------------------------------
  // Loading a board

  /** One stripped line of the file, cell by cell. */
  function LoadRow(s: string): (row: seq<Field>)
    ensures |row| == |s|
    ensures forall k :: 0 <= k < |s| ==> row[k] == LoadChar(s[k])
  {
    seq(|s|, k requires 0 <= k < |s| => LoadChar(s[k]))
  }

  /** Every row is as long as the first, and there is a first row. */
  predicate Rectangular(lab: Maze) {
    |lab| > 0 && forall i :: 0 <= i < |lab| ==> |lab[i]| == |lab[0]|
  }

  /** `LabyrinthBoard.load` on the lines of the file: an empty file fails
      with IndexError when the width is read off row 0, a ragged board
      fails the rectangularity assertion. */
  function Load(lines: seq<string>): (r: Result<Maze>)
    ensures r.Ok? ==>
      && Rectangular(r.value) && |r.value| == |lines|
      && forall i :: 0 <= i < |lines| ==> r.value[i] == LoadRow(Strip(lines[i]))
    ensures r == Err(IndexError) <==> |lines| == 0
    ensures r == Err(AssertionError) <==>
      |lines| > 0 && exists i :: 0 <= i < |lines| && |Strip(lines[i])| != |Strip(lines[0])|
    ensures r.Err? ==> r.error == IndexError || r.error == AssertionError
  {
    var board := seq(|lines|, i requires 0 <= i < |lines| => LoadRow(Strip(lines[i])));
    if exists i :: 0 <= i < |board| && |board[i]| != |board[0]| then Err(AssertionError)
    else if |board| == 0 then Err(IndexError)
    else Ok(board)
  }

  /** One row drawn with the labels of its fields. */
  function LabelRow(row: seq<Field>): (s: string)
    ensures |s| == |row| && forall j :: 0 <= j < |row| ==> LoadChar(s[j]) == row[j]
  {
    seq(|row|, j requires 0 <= j < |row| => Label(row[j]))
  }

  /** The file a board is drawn as: one line of labels per row. */
  function Render(lab: Maze): (lines: seq<string>)
    ensures |lines| == |lab| && forall i :: 0 <= i < |lab| ==> lines[i] == LabelRow(lab[i]) + "\n"
  {
    seq(|lab|, i requires 0 <= i < |lab| => LabelRow(lab[i]) + "\n")
  }

  /** A drawn row whose ends are not free cells loads back to itself. */
  lemma RowRoundTrip(row: seq<Field>)
    requires |row| > 0 ==> row[0] != Empty && row[|row| - 1] != Empty
    ensures LoadRow(Strip(LabelRow(row) + "\n")) == row
  {
    var s := LabelRow(row);
    StripLine(s);
  }

  /** Loading the drawn file gives the board back, provided no row starts or
      ends with a free cell (whose blank label `strip` would remove). */
  lemma LoadRender(lab: Maze)
    requires Rectangular(lab)
    requires forall i :: 0 <= i < |lab| && |lab[i]| > 0 ==> lab[i][0] != Empty && lab[i][|lab[i]| - 1] != Empty
    ensures Load(Render(lab)) == Ok(lab)
  {
    var lines := Render(lab);
    forall i | 0 <= i < |lab|
      ensures LoadRow(Strip(lines[i])) == lab[i]
    {
      RowRoundTrip(lab[i]);
    }
    var r := Load(lines);
    assert r.Ok? && |r.value| == |lab|;
    assert forall i :: 0 <= i < |lab| ==> r.value[i] == lab[i];
    assert r.value == lab;
  }

  /** A ragged board is refused, whatever its rows hold. */
  lemma LoadRagged(lines: seq<string>, i: nat)
    requires i < |lines| && |Strip(lines[i])| != |Strip(lines[0])|
    ensures Load(lines) == Err(AssertionError)
  {
  }

  // ---------------------------------------------------------------------
  // Positions and moves

  /** `Position`: a (row, col) pair with componentwise addition. */
  datatype Pos = Pos(row: int, col: int)

  function Add(p: Pos, d: Pos): Pos {
    Pos(p.row + d.row, p.col + d.col)
  }

  /** `Actions`; the successor order is that of the `Directions` table. */
  datatype Action = North | West | South | East

  /** The `Directions` table: note that East points to column -1. */
  function Delta(a: Action): (d: Pos)
    ensures (d.row == 0) != (d.col == 0)
    ensures -1 <= d.row <= 1 && -1 <= d.col <= 1
  {
    match a
    case North => Pos(1, 0)
    case East => Pos(0, -1)
    case South => Pos(-1, 0)
    case West => Pos(0, 1)
  }

  /** The order `next_states` tries the moves in. */
  const Directions: seq<Action> := [North, East, South, West]

  /** A cell of the board. */
  predicate InGrid(lab: Maze, p: Pos)
    requires Rectangular(lab)
  {
    0 <= p.row < |lab| && 0 <= p.col < |lab[0]|
  }

  /** `is_valid_position`: on the board and not a wall. */
  predicate IsValidPosition(lab: Maze, p: Pos)
    requires Rectangular(lab)
  {
    0 <= p.row < |lab| && 0 <= p.col < |lab[0]| && lab[p.row][p.col] != Wall
  }

  /** The move `a` from `p`: the cell passed through and the cell reached
      must both be valid. */
  function Hop(lab: Maze, p: Pos, a: Action): (q: Option<Pos>)
    requires Rectangular(lab)
    ensures q.Some? ==> IsValidPosition(lab, q.value)
    ensures q.Some? ==> q.value == Add(Add(p, Delta(a)), Delta(a))
  {
    var mid := Add(p, Delta(a));
    var dst := Add(mid, Delta(a));
    if IsValidPosition(lab, mid) && IsValidPosition(lab, dst) then Some(dst) else None
  }

  /** A move is possible exactly when the cell passed through and the cell
      reached are both valid. */
  lemma HopOpen(lab: Maze, p: Pos, a: Action)
    requires Rectangular(lab)
    ensures Hop(lab, p, a).Some? <==>
      IsValidPosition(lab, Add(p, Delta(a))) && IsValidPosition(lab, Add(Add(p, Delta(a)), Delta(a)))
  {
  }

  /** A move's successor as a list of zero or one positions. */
  function Found(q: Option<Pos>): (s: seq<Pos>)
    ensures |s| <= 1 && (|s| == 1 <==> q.Some?)
    ensures q.Some? ==> s[0] == q.value
  {
    match q
    case Some(v) => [v]
    case None => []
  }

  /** The successors from `p` for the moves `acts`, in that order. */
  function Hops(lab: Maze, p: Pos, acts: seq<Action>): (s: seq<Pos>)
    requires Rectangular(lab)
    ensures |s| <= |acts|
    ensures forall k :: 0 <= k < |s| ==> IsValidPosition(lab, s[k])
  {
    if |acts| == 0 then []
    else
      (match Hop(lab, p, acts[0]) case Some(q) => [q] case None => []) + Hops(lab, p, acts[1..])
  }

  lemma HopsCons(lab: Maze, p: Pos, a: Action, rest: seq<Action>)
    requires Rectangular(lab)
    ensures Hops(lab, p, [a] + rest) == Found(Hop(lab, p, a)) + Hops(lab, p, rest)
  {
    assert ([a] + rest)[1..] == rest;
  }

  /** `Hops` over four moves, written out. */
  lemma HopsFour(lab: Maze, p: Pos, a: Action, b: Action, c: Action, d: Action)
    requires Rectangular(lab)
    ensures Hops(lab, p, [a, b, c, d])
         == Found(Hop(lab, p, a)) + (Found(Hop(lab, p, b)) + (Found(Hop(lab, p, c)) + Found(Hop(lab, p, d))))
  {
    var ha, hb, hc, hd := Found(Hop(lab, p, a)), Found(Hop(lab, p, b)), Found(Hop(lab, p, c)), Found(Hop(lab, p, d));
    assert Hops(lab, p, [d]) == hd by {
      HopsCons(lab, p, d, []);
      assert [d] + [] == [d];
    }
    assert Hops(lab, p, [c, d]) == hc + hd by {
      HopsCons(lab, p, c, [d]);
      assert [c] + [d] == [c, d];
    }
    assert Hops(lab, p, [b, c, d]) == hb + (hc + hd) by {
      HopsCons(lab, p, b, [c, d]);
      assert [b] + [c, d] == [b, c, d];
    }
    assert Hops(lab, p, [a, b, c, d]) == ha + (hb + (hc + hd)) by {
      HopsCons(lab, p, a, [b, c, d]);
      assert [a] + [b, c, d] == [a, b, c, d];
    }
  }

  /** `next_states`: the cells two steps away in the four directions whose
      intermediate cell is valid, in `Directions` order. */
  function NextStates(lab: Maze, p: Pos): (s: seq<Pos>)
    requires Rectangular(lab)
    ensures |s| <= 4
    ensures forall k :: 0 <= k < |s| ==> IsValidPosition(lab, s[k])
  {
    Hops(lab, p, Directions)
  }

  /** The successors come in `Directions` order: north, east, south, west,
      each present exactly when its move is possible. */
  lemma NextStatesOrder(lab: Maze, p: Pos)
    requires Rectangular(lab)
    ensures NextStates(lab, p)
         == Found(Hop(lab, p, North)) + (Found(Hop(lab, p, East))
            + (Found(Hop(lab, p, South)) + Found(Hop(lab, p, West))))
  {
    HopsFour(lab, p, North, East, South, West);
  }

  /** Two cells away in one straight line, through a valid cell, onto a valid cell. */
  ghost predicate HopsTo(lab: Maze, p: Pos, q: Pos)
    requires Rectangular(lab)
  {
    exists a: Action :: Hop(lab, p, a) == Some(q)
  }

  lemma {:induction false} HopsMember(lab: Maze, p: Pos, acts: seq<Action>, q: Pos)
    requires Rectangular(lab)
    ensures q in Hops(lab, p, acts) <==> exists k :: 0 <= k < |acts| && Hop(lab, p, acts[k]) == Some(q)
  {
    if |acts| > 0 {
      HopsMember(lab, p, acts[1..], q);
      if q in Hops(lab, p, acts[1..]) {
        var k :| 0 <= k < |acts[1..]| && Hop(lab, p, acts[1..][k]) == Some(q);
        assert Hop(lab, p, acts[k + 1]) == Some(q);
      }
      if exists k :: 0 <= k < |acts| && Hop(lab, p, acts[k]) == Some(q) {
        var k :| 0 <= k < |acts| && Hop(lab, p, acts[k]) == Some(q);
        if k > 0 {
          assert Hop(lab, p, acts[1..][k - 1]) == Some(q);
        }
      }
    }
  }

  /** The successors are exactly the cells reachable by one hop. */
  lemma NextStatesSpec(lab: Maze, p: Pos, q: Pos)
    requires Rectangular(lab)
    ensures q in NextStates(lab, p) <==> HopsTo(lab, p, q)
  {
    HopsMember(lab, p, Directions, q);
    if HopsTo(lab, p, q) {
      var a: Action :| Hop(lab, p, a) == Some(q);
      match a
      case North => assert Directions[0] == a;
      case East => assert Directions[1] == a;
      case South => assert Directions[2] == a;
      case West => assert Directions[3] == a;
    }
  }

  /** No position occurs twice. */
  predicate Distinct(ps: seq<Pos>) {
    forall a, b :: 0 <= a < b < |ps| ==> ps[a] != ps[b]
  }

  /** No move occurs twice. */
  predicate DistinctActs(acts: seq<Action>) {
    forall a, b :: 0 <= a < b < |acts| ==> acts[a] != acts[b]
  }

  lemma {:induction false} HopsDistinct(lab: Maze, p: Pos, acts: seq<Action>)
    requires Rectangular(lab) && DistinctActs(acts)
    ensures Distinct(Hops(lab, p, acts))
  {
    if |acts| > 0 {
      var rest := Hops(lab, p, acts[1..]);
      assert DistinctActs(acts[1..]) by {
        forall a, b | 0 <= a < b < |acts[1..]| ensures acts[1..][a] != acts[1..][b] {
          assert acts[1..][a] == acts[a + 1] && acts[1..][b] == acts[b + 1];
        }
      }
      HopsDistinct(lab, p, acts[1..]);
      match Hop(lab, p, acts[0])
      case None =>
        assert Hops(lab, p, acts) == rest;
      case Some(q) =>
        assert Hops(lab, p, acts) == [q] + rest;
        HeadNotLater(lab, p, acts, q);
        ConsDistinct(q, rest);
    }
  }

  /** The cell the first move reaches is not reached by a later, different move. */
  lemma HeadNotLater(lab: Maze, p: Pos, acts: seq<Action>, q: Pos)
    requires Rectangular(lab) && DistinctActs(acts) && |acts| > 0
    requires Hop(lab, p, acts[0]) == Some(q)
    ensures q !in Hops(lab, p, acts[1..])
  {
    forall k | 0 <= k < |acts[1..]| ensures Hop(lab, p, acts[1..][k]) != Some(q) {
      assert acts[1..][k] == acts[k + 1];
      TwoStepsDiffer(p, acts[0], acts[k + 1]);
    }
    HopsMember(lab, p, acts[1..], q);
  }

  lemma ConsDistinct(q: Pos, rest: seq<Pos>)
    requires Distinct(rest) && q !in rest
    ensures Distinct([q] + rest)
  {
    var s := [q] + rest;
    forall a, b | 0 <= a < b < |s| ensures s[a] != s[b] {
      assert s[b] == rest[b - 1];
      if a > 0 {
        assert s[a] == rest[a - 1];
      }
    }
  }

  /** Two different moves from the same cell end in different cells. */
  lemma TwoStepsDiffer(p: Pos, a: Action, b: Action)
    requires a != b
    ensures Add(Add(p, Delta(a)), Delta(a)) != Add(Add(p, Delta(b)), Delta(b))
  {
  }

  /** Distinct moves land on distinct cells, so no successor is listed twice. */
  lemma NextStatesDistinct(lab: Maze, p: Pos)
    requires Rectangular(lab)
    ensures Distinct(NextStates(lab, p))
  {
    assert DistinctActs(Directions);
    HopsDistinct(lab, p, Directions);
  }

  // ---------------------------------------------------------------------
  // The search problem

  /** Row-major order of cells. */
  predicate RowMajorBefore(p: Pos, q: Pos) {
    p.row < q.row || (p.row == q.row && p.col < q.col)
  }

  /** `find_position`: the first cell in row-major order holding `f`, or
      ValueError when there is none. */
  method FindPosition(lab: Maze, f: Field) returns (r: Result<Pos>)
    requires Rectangular(lab)
    ensures r.Ok? ==>
      && InGrid(lab, r.value) && lab[r.value.row][r.value.col] == f
      && forall q :: InGrid(lab, q) && RowMajorBefore(q, r.value) ==> lab[q.row][q.col] != f
    ensures r.Err? <==> forall q :: InGrid(lab, q) ==> lab[q.row][q.col] != f
    ensures r.Err? ==> r.error == ValueError
  {
    var row := 0;
    while row < |lab|
      invariant 0 <= row <= |lab|
      invariant forall q :: InGrid(lab, q) && q.row < row ==> lab[q.row][q.col] != f
    {
      var col := 0;
      while col < |lab[0]|
        invariant 0 <= col <= |lab[0]|
        invariant forall q :: InGrid(lab, q) && (q.row < row || (q.row == row && q.col < col)) ==> lab[q.row][q.col] != f
      {
        if lab[row][col] == f {
          return Ok(Pos(row, col));
        }
        col := col + 1;
      }
      row := row + 1;
    }
    return Err(ValueError);
  }

  /** `LabyrinthSearchProblem`: the board with the start (`M`) and goal (`D`) cells. */
  datatype Problem = Problem(lab: Maze, start: Pos, goal: Pos)

  predicate ValidProblem(pr: Problem) {
    Rectangular(pr.lab) && InGrid(pr.lab, pr.start) && InGrid(pr.lab, pr.goal)
  }

  /** `start_state`. */
  function StartState(pr: Problem): Pos {
    pr.start
  }

  /** `is_goal_state`: the position is the goal's. */
  predicate IsGoalState(pr: Problem, s: Pos) {
    s == pr.goal
  }

  /** The constructor: start at the first `M`, goal at the first `D`; a
      missing one raises ValueError. */
  method NewProblem(lab: Maze) returns (r: Result<Problem>)
    requires Rectangular(lab)
    ensures r.Ok? ==>
      && ValidProblem(r.value) && r.value.lab == lab
      && lab[r.value.start.row][r.value.start.col] == M
      && lab[r.value.goal.row][r.value.goal.col] == D
    ensures r.Ok? ==>
      && (forall q :: InGrid(lab, q) && RowMajorBefore(q, r.value.start) ==> lab[q.row][q.col] != M)
      && (forall q :: InGrid(lab, q) && RowMajorBefore(q, r.value.goal) ==> lab[q.row][q.col] != D)
    ensures r.Err? <==>
      (forall q :: InGrid(lab, q) ==> lab[q.row][q.col] != M) ||
      (forall q :: InGrid(lab, q) ==> lab[q.row][q.col] != D)
    ensures r.Err? ==> r.error == ValueError
  {
    var start := FindPosition(lab, M);
    if start.Err? {
      return Err(start.error);
    }
    var goal := FindPosition(lab, D);
    if goal.Err? {
      return Err(goal.error);
    }
    return Ok(Problem(lab, start.value, goal.value));
  }
}
