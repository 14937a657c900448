/** `GameLogic`: the human (X, player 1) marks a cell, then the engine (O)
    answers with the chosen strategy, and the player to move is switched
    back. */
module GameLogic {
  import opened Wrappers
  import opened Gomoku
  import opened Terminal
  import Minimax
  import AlphaBeta

  /** The strategies the window offers as `move_ai`. The random draw of
      `np.random.randint` is the parameter `pick`. */
  datatype Strategy = RandomMove(pick: nat) | MinimaxMove | AlphaBetaMove

  /** The game state: the board and `current_player`. */
  datatype Game = Game(board: Grid, current: int)

  /** `random_move`: write O into an empty cell (the pick-th, modulo their
      number, in row-major order); `randint(0)` raises ValueError on a full
      board. */
  function Random(b: Grid, pick: nat): (r: Result<Grid>)
    requires Square(b)
    ensures r.Err? <==> Full(b)
    ensures r.Err? ==> r.error == ValueError
    ensures r.Ok? ==> exists i, j :: InBounds(b, i, j) && b[i][j] == Empty && r.value == Set(b, i, j, O)
  {
    var steps := PossibleSteps(b);
    FullIffNoEmptyCell(b);
    if |steps| == 0 then Err(ValueError)
    else
      var s := steps[pick % |steps|];
      Ok(Set(b, s.row, s.col, O))
  }

  /** `move_ai(board)`: the engine's reply, or the exception it raises. */
  function MoveAI(ai: Strategy, b: Grid): (r: Result<Grid>)
    requires Square(b)
    ensures r.Ok? ==> Square(r.value) && |r.value| == |b|
  {
    match ai
    case RandomMove(pick) => Random(b, pick)
    case MinimaxMove => Minimax.Minimax(b)
    case AlphaBetaMove => AlphaBeta.AlphaBeta(b)
  }

  /** What `play(row, col)` leaves behind: the game state afterwards, and
      either the value it returns or the exception the engine raised. The
      state is kept on the exception path too, because the mark of the
      human and the first `switch_player` have already happened then. */
  datatype Turn = Turn(game: Game, outcome: Result<Option<int>>)

  /** `play(row, col)`: refuse an occupied cell (return None, change
      nothing); otherwise mark it for the player to move, return `winner()`
      at once if that ended the game, else let the engine answer between two
      `switch_player` calls and return `winner()` of the resulting board.
      An exception of the engine is passed on, after the mark and the first
      switch. */
  function Play(g: Game, r: int, c: int, ai: Strategy): (t: Turn)
    requires Square(g.board) && InBounds(g.board, r, c)
    ensures Square(t.game.board) && |t.game.board| == |g.board|
    ensures g.board[r][c] != Empty ==> t == Turn(g, Ok(None))
    ensures t.outcome.Ok? ==> t.outcome.value == Winner(t.game.board) || g.board[r][c] != Empty
    ensures t.outcome.Ok? && IsPlayer(g.current) ==> t.game.current == g.current
    ensures g.board[r][c] == Empty && Winner(Set(g.board, r, c, g.current)).Some? ==>
      var b1 := Set(g.board, r, c, g.current);
      t == Turn(Game(b1, g.current), Ok(Winner(b1)))
    ensures g.board[r][c] == Empty && Winner(Set(g.board, r, c, g.current)) == None ==>
      var b1 := Set(g.board, r, c, g.current);
      && (t.outcome.Ok? <==> MoveAI(ai, b1).Ok?)
      && (t.outcome.Ok? ==> t.game.board == MoveAI(ai, b1).value)
    ensures t.outcome.Err? ==>
      var b1 := Set(g.board, r, c, g.current);
      && g.board[r][c] == Empty && Winner(b1) == None && MoveAI(ai, b1) == Err(t.outcome.error)
      && t.game == Game(b1, SwitchPlayer(g.current))
  {
    if g.board[r][c] != Empty then Turn(g, Ok(None))
    else
      var b1 := Set(g.board, r, c, g.current);
      var w1 := Winner(b1);
      if w1.Some? then Turn(Game(b1, g.current), Ok(w1))
      else
        var engine := SwitchPlayer(g.current);
        SwitchPlayerInvolution(g.current);
        match MoveAI(ai, b1)
        case Err(e) => Turn(Game(b1, engine), Err(e))
        case Ok(b2) => Turn(Game(b2, SwitchPlayer(engine)), Ok(Winner(b2)))
  }

  /** The engine's reply, when it has one, is the board with one more O in
      a cell that was empty. */
  lemma MoveAIMarksOneCell(ai: Strategy, b: Grid)
    requires Square(b) && Winner(b) == None
    requires MoveAI(ai, b).Ok?
    ensures exists i, j :: InBounds(b, i, j) && b[i][j] == Empty && MoveAI(ai, b).value == Set(b, i, j, O)
  {
    var kids := NextBoards(b, O);
    var steps := PossibleSteps(b);
    NextBoardsSpec(b, O);
    assert !Minimax.Finished(b);
    match ai
    case RandomMove(_) =>
    case MinimaxMove =>
      var j := Minimax.FirstBeating(Minimax.ChildValues(b, O), O, 0, -1);
      assert MoveAI(ai, b).value == kids[j] == Set(b, steps[j].row, steps[j].col, O);
    case AlphaBetaMove =>
      var j := Minimax.FirstBeating(Minimax.ChildValues(b, O), O, 0, -1);
      assert MoveAI(ai, b).value == kids[j] == Set(b, steps[j].row, steps[j].col, O);
  }

  /** A `play` that goes past the rejection check and returns normally adds
      the human's mark and, unless that ended the game, exactly one mark of
      the engine: the board loses one or two empty cells. */
  lemma PlayMarks(g: Game, r: int, c: int, ai: Strategy)
    requires Square(g.board) && InBounds(g.board, r, c) && g.board[r][c] == Empty
    requires g.current == X
    requires Play(g, r, c, ai).outcome.Ok?
    ensures var b1 := Set(g.board, r, c, X);
      var g' := Play(g, r, c, ai).game;
      && Square(g'.board)
      && (Winner(b1).Some? ==> g'.board == b1)
      && (Winner(b1) == None ==>
            exists i, j :: InBounds(b1, i, j) && b1[i][j] == Empty && g'.board == Set(b1, i, j, O))
      && EmptyCount(g'.board) + (if Winner(b1).Some? then 1 else 2) == EmptyCount(g.board)
  {
    var b1 := Set(g.board, r, c, X);
    SetEmptyCount(g.board, r, c, X);
    if Winner(b1) == None {
      MoveAIMarksOneCell(ai, b1);
      var i, j :| InBounds(b1, i, j) && b1[i][j] == Empty && MoveAI(ai, b1).value == Set(b1, i, j, O);
      SetEmptyCount(b1, i, j, O);
    }
  }

  /** `reset`: an empty board of the same size, X to move. */
  function Reset(g: Game): (g': Game)
    ensures |g'.board| == |g.board| && Square(g'.board) && EmptyCount(g'.board) == |g.board| * |g.board|
    ensures forall i, j :: InBounds(g'.board, i, j) ==> g'.board[i][j] == Empty
    ensures g'.current == X
  {
    ZerosCount(|g.board|);
    Game(Zeros(|g.board|), X)
  }

  /** The game the window starts with: `GameLogic(GomokuBoard(BOARD_SIZE),
      ...)`, an empty board of `BOARD_SIZE` rows with X to move; resetting
      it changes nothing. */
  function Start(): (g: Game)
    ensures |g.board| == BoardSize && Square(g.board)
    ensures EmptyCount(g.board) == BoardSize * BoardSize
    ensures g.current == X && Reset(g) == g
  {
    ZerosCount(BoardSize);
    Game(Zeros(BoardSize), X)
  }

  lemma {:induction false} ZeroRowCount(n: nat)
    ensures CountZeros(seq(n, _ => Empty)) == n
  {
    if n > 0 {
      ZeroRowCount(n - 1);
      assert seq(n, _ => Empty)[1..] == seq(n - 1, _ => Empty);
    }
  }

  lemma {:induction false} ZeroRowsCount(rows: seq<seq<int>>, n: nat)
    requires forall i :: 0 <= i < |rows| ==> rows[i] == seq(n, _ => Empty)
    ensures EmptyCount(rows) == |rows| * n
  {
    if |rows| > 0 {
      ZeroRowCount(n);
      ZeroRowsCount(rows[1..], n);
    }
  }

  lemma ZerosCount(n: nat)
    ensures EmptyCount(Zeros(n)) == n * n
  {
    ZeroRowsCount(Zeros(n), n);
  }
}
