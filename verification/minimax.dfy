/** `minimax`: the `value` / `maximize` / `minimize` recursion over scores in
    {-1, 0, 1} (from O's point of view) and the move the engine then makes. */
module Minimax {
  import opened Wrappers
  import opened Gomoku
  import opened Terminal

  /** What `value` returns: the score and the list `solution` of successor
      boards that strictly improved the running extremum (None on a
      finished board). */
  datatype Evaluation = Evaluation(score: int, solution: Option<seq<Grid>>)

  /** `winner` says 0, 1 or 2: the search does not descend. */
  predicate Finished(b: Grid)
    requires Square(b)
  {
    Winner(b) == Some(Empty) || Winner(b) == Some(X) || Winner(b) == Some(O)
  }

  /** `value` maximizes for O (player 2) and minimizes for anybody else. */
  predicate Improves(player: int, v: int, best: int) {
    if player == O then v > best else v < best
  }

  /** The running extremum `maximize` / `minimize` start from. */
  function Initial(player: int): int {
    if player == O then -1 else 1
  }

  /** Every board of the list is an n x n board. */
  predicate AllSquare(boards: seq<Grid>) {
    forall k :: 0 <= k < |boards| ==> Square(boards[k])
  }

  /** Every board of the list has fewer than n empty cells. */
  predicate Below(boards: seq<Grid>, n: nat) {
    forall k :: 0 <= k < |boards| ==> EmptyCount(boards[k]) < n
  }

  /** `value(board, player)`: the score of a finished board, or the loop of
      `maximize` (O to move) / `minimize` over the successors. */
  function Value(b: Grid, player: int): (e: Evaluation)
    requires Square(b) && IsPlayer(player)
    ensures -1 <= e.score <= 1
    decreases EmptyCount(b), 1
  {
    match Winner(b)
    case Some(0) => Evaluation(0, None)
    case Some(1) => Evaluation(-1, None)
    case Some(2) => Evaluation(1, None)
    case _ =>
      var kids := NextBoards(b, player);
      var (score, solution) := Pick(kids, ChildScores(kids, EmptyCount(b), player), player, 0, Initial(player), []);
      Evaluation(score, Some(solution))
  }

  /** The values of the successors, with the other player to move; n only
      bounds their empty cells, for termination. */
  function ChildScores(kids: seq<Grid>, ghost n: nat, player: int): (vals: seq<int>)
    requires AllSquare(kids) && Below(kids, n) && IsPlayer(player)
    ensures |vals| == |kids|
    ensures forall k :: 0 <= k < |vals| ==> -1 <= vals[k] <= 1
    decreases n, 0
  {
    seq(|kids|, k requires 0 <= k < |kids| => Value(kids[k], SwitchPlayer(player)).score)
  }

  /** The score `value` gives a board. */
  function Score(b: Grid, player: int): int
    requires Square(b) && IsPlayer(player)
  {
    Value(b, player).score
  }

  /** The loop of `maximize` / `minimize` from the i-th successor on, with
      vals[k] the value of kids[k]: a board is appended to `solution` only
      when its value strictly beats the running extremum. */
  function Pick(kids: seq<Grid>, vals: seq<int>, player: int, i: nat, best: int, solution: seq<Grid>): (res: (int, seq<Grid>))
    requires |vals| == |kids| && i <= |kids|
    ensures (forall k :: 0 <= k < |vals| ==> -1 <= vals[k] <= 1) && -1 <= best <= 1 ==> -1 <= res.0 <= 1
    decreases |kids| - i
  {
    if i == |kids| then (best, solution)
    else if Improves(player, vals[i], best) then Pick(kids, vals, player, i + 1, vals[i], solution + [kids[i]])
    else Pick(kids, vals, player, i + 1, best, solution)
  }

  /** A finished board is scored 0 for a draw, -1 for an X win and +1 for an
      O win, with no `solution`; any other board gets a `solution` list. */
  lemma ValueTerminal(b: Grid, player: int)
    requires Square(b) && IsPlayer(player)
    ensures Value(b, player).solution.None? <==> Finished(b)
    ensures Winner(b) == Some(Empty) ==> Value(b, player) == Evaluation(0, None)
    ensures Winner(b) == Some(X) ==> Value(b, player) == Evaluation(-1, None)
    ensures Winner(b) == Some(O) ==> Value(b, player) == Evaluation(1, None)
  {
  }

  // ---------------------------------------------------------------------
  // The loop, over a list of values.

  /** Reference: the first position from i on whose value beats v. */
  function FirstBeating(vals: seq<int>, player: int, i: nat, v: int): (j: nat)
    requires i <= |vals|
    ensures i <= j <= |vals|
    ensures forall k :: i <= k < j ==> !Improves(player, vals[k], v)
    ensures j < |vals| ==> Improves(player, vals[j], v)
    decreases |vals| - i
  {
    if i == |vals| || Improves(player, vals[i], v) then i
    else FirstBeating(vals, player, i + 1, v)
  }

  /** Reference: the positions the loop appends, from i on, starting from
      the running extremum `best`. */
  ghost function Trace(vals: seq<int>, player: int, i: nat, best: int): seq<int>
    requires i <= |vals|
    decreases |vals| - i
  {
    if i == |vals| then []
    else if Improves(player, vals[i], best) then [i] + Trace(vals, player, i + 1, vals[i])
    else Trace(vals, player, i + 1, best)
  }

  /** The loop appends kids[tr[0]], kids[tr[1]], .. to `solution` and ends
      with the value of the last of them, or with `best` if it appends none. */
  lemma {:induction false} PickTrace(kids: seq<Grid>, vals: seq<int>, player: int, i: nat, best: int, sol: seq<Grid>)
    requires |vals| == |kids| && i <= |kids|
    ensures var res := Pick(kids, vals, player, i, best, sol);
      var tr := Trace(vals, player, i, best);
      && (forall t :: 0 <= t < |tr| ==> i <= tr[t] < |kids|)
      && |res.1| == |sol| + |tr| && res.1[..|sol|] == sol
      && (forall t :: 0 <= t < |tr| ==> res.1[|sol| + t] == kids[tr[t]])
      && res.0 == if |tr| == 0 then best else vals[tr[|tr| - 1]]
    decreases |kids| - i
  {
    if i < |kids| {
      if Improves(player, vals[i], best) {
        var sol' := sol + [kids[i]];
        PickTrace(kids, vals, player, i + 1, vals[i], sol');
        var out := Pick(kids, vals, player, i + 1, vals[i], sol').1;
        var tr' := Trace(vals, player, i + 1, vals[i]);
        assert out[..|sol|] == out[..|sol'|][..|sol|];
        assert Trace(vals, player, i, best) == [i] + tr';
      } else {
        PickTrace(kids, vals, player, i + 1, best, sol);
      }
    }
  }

  /** The appended positions increase, the first one is the first position
      whose value beats `best`, and the values strictly improve: each beats
      `best` and every earlier appended value. */
  lemma {:induction false} TraceSpec(vals: seq<int>, player: int, i: nat, best: int)
    requires i <= |vals|
    ensures var tr := Trace(vals, player, i, best);
      && (forall t :: 0 <= t < |tr| ==> i <= tr[t] < |vals| && Improves(player, vals[tr[t]], best))
      && (forall t, u :: 0 <= t < u < |tr| ==> tr[t] < tr[u] && Improves(player, vals[tr[u]], vals[tr[t]]))
      && (|tr| == 0 <==> FirstBeating(vals, player, i, best) == |vals|)
      && (|tr| > 0 ==> tr[0] == FirstBeating(vals, player, i, best))
    decreases |vals| - i
  {
    if i < |vals| {
      if Improves(player, vals[i], best) {
        TraceSpec(vals, player, i + 1, vals[i]);
        var tr' := Trace(vals, player, i + 1, vals[i]);
        assert Trace(vals, player, i, best) == [i] + tr';
      } else {
        TraceSpec(vals, player, i + 1, best);
      }
    }
  }

  /** The loop ends with the extremum of `best` and the values from i on:
      no value beats it, and it is `best` or one of the values. */
  lemma {:induction false} PickScore(kids: seq<Grid>, vals: seq<int>, player: int, i: nat, best: int, sol: seq<Grid>)
    requires |vals| == |kids| && i <= |kids|
    ensures var s := Pick(kids, vals, player, i, best, sol).0;
      && !Improves(player, best, s)
      && (forall j :: i <= j < |vals| ==> !Improves(player, vals[j], s))
      && (s == best || exists j :: i <= j < |vals| && vals[j] == s)
    decreases |kids| - i
  {
    if i < |kids| {
      if Improves(player, vals[i], best) {
        PickScore(kids, vals, player, i + 1, vals[i], sol + [kids[i]]);
      } else {
        PickScore(kids, vals, player, i + 1, best, sol);
      }
    }
  }

  /** The whole loop from the first successor with an empty `solution`. */
  lemma PickFromStart(kids: seq<Grid>, vals: seq<int>, player: int, init: int)
    requires |vals| == |kids|
    ensures var res := Pick(kids, vals, player, 0, init, []);
      var ch := Trace(vals, player, 0, init);
      && |res.1| == |ch|
      && (forall t :: 0 <= t < |ch| ==> 0 <= ch[t] < |kids| && res.1[t] == kids[ch[t]])
      && (forall t :: 0 <= t < |ch| ==> Improves(player, vals[ch[t]], init))
      && (forall t, u :: 0 <= t < u < |ch| ==> ch[t] < ch[u] && Improves(player, vals[ch[u]], vals[ch[t]]))
      && (|ch| > 0 ==> vals[ch[|ch| - 1]] == res.0)
      && (|ch| == 0 <==> forall j :: 0 <= j < |kids| ==> !Improves(player, vals[j], init))
      && (|ch| > 0 ==> ch[0] == FirstBeating(vals, player, 0, init))
  {
    PickTrace(kids, vals, player, 0, init, []);
    TraceSpec(vals, player, 0, init);
    var j0 := FirstBeating(vals, player, 0, init);
    if j0 < |vals| {
      assert Improves(player, vals[j0], init);
    }
  }

  // ---------------------------------------------------------------------
  // `value` on one board.

  /** The value of the j-th successor, with the other player to move. */
  function ChildScore(b: Grid, player: int, j: int): int
    requires Square(b) && IsPlayer(player) && 0 <= j < |NextBoards(b, player)|
  {
    Score(NextBoards(b, player)[j], SwitchPlayer(player))
  }

  /** The values the loop of `value` sees. */
  function ChildValues(b: Grid, player: int): (vals: seq<int>)
    requires Square(b) && IsPlayer(player)
    ensures |vals| == |NextBoards(b, player)|
    ensures forall j :: 0 <= j < |vals| ==> -1 <= vals[j] <= 1
  {
    ChildScores(NextBoards(b, player), EmptyCount(b), player)
  }

  lemma ChildValuesAre(b: Grid, player: int)
    requires Square(b) && IsPlayer(player)
    ensures forall j :: 0 <= j < |NextBoards(b, player)| ==> ChildValues(b, player)[j] == ChildScore(b, player, j)
  {
  }

  /** The successors whose boards `value` appends to `solution`, as positions
      in `next_boards` order. */
  ghost function Chosen(b: Grid, player: int): seq<int>
    requires Square(b) && IsPlayer(player)
  {
    Trace(ChildValues(b, player), player, 0, Initial(player))
  }

  /** On an unfinished board `value` is the loop over its successors. */
  lemma ValueUnfold(b: Grid, player: int)
    requires Square(b) && IsPlayer(player) && !Finished(b)
    ensures Value(b, player) ==
      var res := Pick(NextBoards(b, player), ChildValues(b, player), player, 0, Initial(player), []);
      Evaluation(res.0, Some(res.1))
  {
  }

  /** `value` on an unfinished board: no successor's value beats the
      score and, if there is a successor, one attains it. */
  lemma ValueScore(b: Grid, player: int)
    requires Square(b) && IsPlayer(player) && !Finished(b)
    ensures var s := Value(b, player).score;
      var kids := NextBoards(b, player);
      && (forall j :: 0 <= j < |kids| ==> !Improves(player, ChildScore(b, player, j), s))
      && (|kids| > 0 ==> exists j :: 0 <= j < |kids| && ChildScore(b, player, j) == s)
  {
    var kids := NextBoards(b, player);
    var vals := ChildValues(b, player);
    var init := Initial(player);
    ValueUnfold(b, player);
    ChildValuesAre(b, player);
    PickScore(kids, vals, player, 0, init, []);
    var s := Value(b, player).score;
    if |kids| > 0 && s == init {
      assert !Improves(player, vals[0], s);
    }
  }

  /** `value` on an unfinished board: `solution` holds exactly the
      successors at the positions `Chosen`, which increase, whose values
      beat the initial extremum and strictly improve on each other, the
      last of which attains the score; the first is the first successor
      (in `next_boards` order) beating the initial extremum, and `solution`
      is empty exactly when there is none. */
  lemma ValueSolution(b: Grid, player: int)
    requires Square(b) && IsPlayer(player) && !Finished(b)
    ensures var e := Value(b, player);
      var kids := NextBoards(b, player);
      var vals := ChildValues(b, player);
      var sol := e.solution.value;
      var ch := Chosen(b, player);
      && |sol| == |ch|
      && (forall t :: 0 <= t < |ch| ==> 0 <= ch[t] < |kids| && sol[t] == kids[ch[t]])
      && (forall t :: 0 <= t < |ch| ==> Improves(player, vals[ch[t]], Initial(player)))
      && (forall t, u :: 0 <= t < u < |ch| ==> ch[t] < ch[u] && Improves(player, vals[ch[u]], vals[ch[t]]))
      && (|ch| > 0 ==> vals[ch[|ch| - 1]] == e.score)
      && (|ch| == 0 <==> forall j :: 0 <= j < |kids| ==> !Improves(player, vals[j], Initial(player)))
      && (|ch| > 0 ==> ch[0] == FirstBeating(vals, player, 0, Initial(player)))
  {
    ValueUnfold(b, player);
    PickFromStart(NextBoards(b, player), ChildValues(b, player), player, Initial(player));
  }

  /** A board with no run and an empty cell is not finished, and has successors. */
  lemma OngoingHasMoves(b: Grid, player: int)
    requires Square(b) && Winner(b) == None
    ensures !Finished(b) && |NextBoards(b, player)| > 0
  {
    WinnerSpec(b);
    FullIffNoEmptyCell(b);
  }

  /** The score is the maximum (O to move) or minimum (X to move) of the
      successors' values. */
  lemma ValueIsExtremum(b: Grid, player: int)
    requires Square(b) && IsPlayer(player) && Winner(b) == None
    ensures var s := Value(b, player).score;
      var kids := NextBoards(b, player);
      && (exists j :: 0 <= j < |kids| && ChildScore(b, player, j) == s)
      && (player == O ==> forall j :: 0 <= j < |kids| ==> ChildScore(b, player, j) <= s)
      && (player == X ==> forall j :: 0 <= j < |kids| ==> ChildScore(b, player, j) >= s)
  {
    OngoingHasMoves(b, player);
    ValueScore(b, player);
  }

  /** The t-th board of `solution` is the ch[t]-th successor, so its value
      is the ch[t]-th child value. */
  lemma SolutionValue(b: Grid, player: int, t: int)
    requires Square(b) && IsPlayer(player) && !Finished(b)
    requires 0 <= t < |Value(b, player).solution.value|
    ensures var sol := Value(b, player).solution.value;
      var ch := Chosen(b, player);
      && |ch| == |sol| && 0 <= ch[t] < |NextBoards(b, player)| && sol[t] == NextBoards(b, player)[ch[t]]
      && Square(sol[t]) && Score(sol[t], SwitchPlayer(player)) == ChildValues(b, player)[ch[t]]
  {
    ValueSolution(b, player);
    ChildValuesAre(b, player);
  }

  /** In `maximize` the boards appended to `solution` have strictly
      increasing values, in `minimize` strictly decreasing ones. */
  lemma SolutionImproves(b: Grid, player: int, t: int, u: int)
    requires Square(b) && IsPlayer(player) && !Finished(b)
    requires 0 <= t < u < |Value(b, player).solution.value|
    ensures var sol := Value(b, player).solution.value;
      Square(sol[t]) && Square(sol[u]) &&
      Improves(player, Score(sol[u], SwitchPlayer(player)), Score(sol[t], SwitchPlayer(player)))
  {
    SolutionValue(b, player, t);
    SolutionValue(b, player, u);
    ValueSolution(b, player);
  }

  lemma MinimaxSupport(b: Grid)
    requires Square(b)
    ensures !Finished(b) ==>
      var sol := Value(b, O).solution.value;
      var vals := ChildValues(b, O);
      var j := FirstBeating(vals, O, 0, -1);
      && (|sol| == 0 <==> forall k :: 0 <= k < |vals| ==> vals[k] == -1)
      && (|sol| > 0 ==> j < |vals| && sol[0] == NextBoards(b, O)[j])
  {
    if !Finished(b) {
      ValueSolution(b, O);
    }
  }

  /** `minimax(board)`: evaluate with O to move; leave a finished board as it
      is, replace it by `solution[0]` otherwise (the first successor, in
      `next_boards` order, whose value is not a loss for O), and raise
      IndexError when `solution` is empty, i.e. when every move of O loses.
      vals[k] is the value of the k-th successor (`ChildValuesAre`). */
  function Minimax(b: Grid): (r: Result<Grid>)
    requires Square(b)
    ensures Finished(b) ==> r == Ok(b)
    ensures !Finished(b) ==>
      var vals := ChildValues(b, O);
      (r.Err? <==> forall k :: 0 <= k < |vals| ==> vals[k] == -1)
    ensures r.Err? ==> r.error == IndexError
    ensures !Finished(b) && r.Ok? ==>
      var vals := ChildValues(b, O);
      var j := FirstBeating(vals, O, 0, -1);
      && j < |vals| && r.value == NextBoards(b, O)[j] && vals[j] >= 0
      && forall k :: 0 <= k < j ==> vals[k] == -1
  {
    var e := Value(b, O);
    MinimaxSupport(b);
    match e.solution
    case None => Ok(b)
    case Some(solution) => if |solution| == 0 then Err(IndexError) else Ok(solution[0])
  }
}
