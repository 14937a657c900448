/** `alpha_beta`: the minimax recursion with a window (alpha, beta) that each
    `maximize` narrows from below and each `minimize` from above, leaving the
    loop as soon as beta <= alpha. */
module AlphaBeta {
  import opened Wrappers
  import opened Gomoku
  import opened Terminal
  import opened Minimax

  /** The running extremum after seeing value v: `max` for O, `min` otherwise. */
  function Best(player: int, m: int, v: int): int {
    if Improves(player, v, m) then v else m
  }

  /** x cut down to the window [lo, hi]. */
  function Clamp(x: int, lo: int, hi: int): int {
    if x < lo then lo else if x > hi then hi else x
  }

  /** `value(board, player, alpha, beta)`. */
  function ABValue(b: Grid, player: int, alpha: int, beta: int): (e: Evaluation)
    requires Square(b) && IsPlayer(player)
    ensures -1 <= e.score <= 1
    ensures e.solution.None? <==> Finished(b)
    decreases EmptyCount(b), 1
  {
    match Winner(b)
    case Some(0) => Evaluation(0, None)
    case Some(1) => Evaluation(-1, None)
    case Some(2) => Evaluation(1, None)
    case _ =>
      var (score, solution) := ABLoop(NextBoards(b, player), EmptyCount(b), player, 0, Initial(player), alpha, beta, []);
      Evaluation(score, Some(solution))
  }

  /** The loop of `maximize` / `minimize` from the i-th successor on, with
      running extremum m and window (alpha, beta): after each child O raises
      alpha to m, X lowers beta to m, and the loop stops once beta <= alpha.
      n only bounds the successors' empty cells, for termination. */
  function ABLoop(kids: seq<Grid>, ghost n: nat, player: int, i: nat, m: int, alpha: int, beta: int, solution: seq<Grid>): (res: (int, seq<Grid>))
    requires AllSquare(kids) && Below(kids, n) && IsPlayer(player) && i <= |kids| && -1 <= m <= 1
    ensures -1 <= res.0 <= 1
    ensures !Improves(player, m, res.0)
    decreases n, 0, |kids| - i
  {
    if i == |kids| then (m, solution)
    else
      var v := ABValue(kids[i], SwitchPlayer(player), alpha, beta).score;
      var m' := Best(player, m, v);
      var solution' := if Improves(player, v, m) then solution + [kids[i]] else solution;
      var (alpha', beta') := Narrow(player, m', alpha, beta);
      if beta' <= alpha' then (m', solution')
      else ABLoop(kids, n, player, i + 1, m', alpha', beta', solution')
  }

  // ---------------------------------------------------------------------
  // Alpha-beta agrees with minimax inside the window.

  /** Only the clamped start of the running extremum matters to the
      clamped result of the minimax loop. */
  lemma {:induction false} PickClamp(kids: seq<Grid>, vals: seq<int>, player: int, i: nat, x: int, y: int, lo: int, hi: int, sol: seq<Grid>)
    requires |vals| == |kids| && i <= |kids| && lo <= hi
    requires Clamp(x, lo, hi) == Clamp(y, lo, hi)
    ensures Clamp(Pick(kids, vals, player, i, x, sol).0, lo, hi) == Clamp(Pick(kids, vals, player, i, y, sol).0, lo, hi)
    decreases |kids| - i
  {
    if i < |kids| {
      var v := vals[i];
      var x' := Best(player, x, v);
      var y' := Best(player, y, v);
      assert Pick(kids, vals, player, i, x, sol).0 == Pick(kids, vals, player, i + 1, x', sol).0 by {
        PickScoreOnly(kids, vals, player, i + 1, x', sol, if Improves(player, v, x) then sol + [kids[i]] else sol);
      }
      assert Pick(kids, vals, player, i, y, sol).0 == Pick(kids, vals, player, i + 1, y', sol).0 by {
        PickScoreOnly(kids, vals, player, i + 1, y', sol, if Improves(player, v, y) then sol + [kids[i]] else sol);
      }
      PickClamp(kids, vals, player, i + 1, x', y', lo, hi, sol);
    }
  }

  /** The score of the minimax loop does not depend on `solution`. */
  lemma {:induction false} PickScoreOnly(kids: seq<Grid>, vals: seq<int>, player: int, i: nat, best: int, s1: seq<Grid>, s2: seq<Grid>)
    requires |vals| == |kids| && i <= |kids|
    ensures Pick(kids, vals, player, i, best, s1).0 == Pick(kids, vals, player, i, best, s2).0
    decreases |kids| - i
  {
    if i < |kids| {
      if Improves(player, vals[i], best) {
        PickScoreOnly(kids, vals, player, i + 1, vals[i], s1 + [kids[i]], s2 + [kids[i]]);
      } else {
        PickScoreOnly(kids, vals, player, i + 1, best, s1, s2);
      }
    }
  }

  /** Inside the window alpha-beta and minimax agree: for -1 <= alpha < beta <= 1,
      the two scores clamped to [alpha, beta] are equal. So alpha-beta is
      exact when the minimax score lies in the window, at most alpha when it
      is at most alpha, and at least beta when it is at least beta. */
  lemma {:induction false} ABClamp(b: Grid, player: int, alpha: int, beta: int)
    requires Square(b) && IsPlayer(player) && -1 <= alpha < beta <= 1
    ensures Clamp(ABValue(b, player, alpha, beta).score, alpha, beta) == Clamp(Value(b, player).score, alpha, beta)
    decreases EmptyCount(b), 1
  {
    if !Finished(b) {
      var kids := NextBoards(b, player);
      var n := EmptyCount(b);
      ValueUnfold(b, player);
      ABValueUnfold(b, player, alpha, beta);
      ABLoopClamp(kids, n, player, 0, Initial(player), alpha, beta, []);
    }
  }

  /** On an unfinished board alpha-beta's `value` is its loop over the successors. */
  lemma ABValueUnfold(b: Grid, player: int, alpha: int, beta: int)
    requires Square(b) && IsPlayer(player) && !Finished(b)
    ensures ABValue(b, player, alpha, beta) ==
      var res := ABLoop(NextBoards(b, player), EmptyCount(b), player, 0, Initial(player), alpha, beta, []);
      Evaluation(res.0, Some(res.1))
  {
  }

  /** The window after a child: O raises alpha to the running maximum, X
      lowers beta to the running minimum. */
  function Narrow(player: int, m: int, alpha: int, beta: int): (int, int) {
    if player == O then (if alpha > m then alpha else m, beta)
    else (alpha, if beta < m then beta else m)
  }

  /** The running extremum is on the far side of the window. */
  predicate Outside(player: int, m: int, alpha: int, beta: int) {
    if player == O then m <= alpha else beta <= m
  }

  /** One child, arithmetic only: if the child's alpha-beta value v and its
      minimax value w agree inside the window, the two running extrema agree
      on the narrowed window, which stays on the far side. */
  lemma WindowStep(player: int, m: int, v: int, w: int, alpha: int, beta: int)
    requires IsPlayer(player) && -1 <= alpha < beta <= 1 && Outside(player, m, alpha, beta)
    requires Clamp(v, alpha, beta) == Clamp(w, alpha, beta)
    ensures var m' := Best(player, m, v);
      var (alpha', beta') := Narrow(player, m', alpha, beta);
      alpha' < beta' ==>
        && -1 <= alpha' && beta' <= 1 && Outside(player, m', alpha', beta')
        && Clamp(Best(player, m, w), alpha', beta') == Clamp(m', alpha', beta')
        && (Best(player, m, w) == m' || (alpha' == alpha && beta' == beta))
  {
  }

  /** One child, arithmetic only: the clamped results agree whether the loop
      stops after this child or goes on. R is the alpha-beta result, P the
      minimax result, which is no worse than the minimax running extremum. */
  lemma WindowResult(player: int, m: int, v: int, w: int, alpha: int, beta: int, R: int, P: int)
    requires IsPlayer(player) && -1 <= alpha < beta <= 1 && Outside(player, m, alpha, beta)
    requires Clamp(v, alpha, beta) == Clamp(w, alpha, beta)
    requires !Improves(player, Best(player, m, w), P)
    requires var m' := Best(player, m, v);
      var (alpha', beta') := Narrow(player, m', alpha, beta);
      && (beta' <= alpha' ==> R == m')
      && (alpha' < beta' ==> !Improves(player, m', R) && Clamp(R, alpha', beta') == Clamp(P, alpha', beta'))
    ensures Clamp(R, alpha, beta) == Clamp(P, alpha, beta)
  {
  }

  /** The loop invariant behind `ABClamp`: while the running extremum m is on
      the far side of the window (m <= alpha for O, m >= beta for X), the
      clamped alpha-beta loop and the clamped minimax loop agree. */
  lemma {:induction false} ABLoopClamp(kids: seq<Grid>, n: nat, player: int, i: nat, m: int, alpha: int, beta: int, sol: seq<Grid>)
    requires AllSquare(kids) && Below(kids, n) && IsPlayer(player) && i <= |kids| && -1 <= m <= 1
    requires -1 <= alpha < beta <= 1 && Outside(player, m, alpha, beta)
    ensures Clamp(ABLoop(kids, n, player, i, m, alpha, beta, sol).0, alpha, beta)
      == Clamp(Pick(kids, ChildScores(kids, n, player), player, i, m, sol).0, alpha, beta)
    decreases n, 0, |kids| - i
  {
    if i < |kids| {
      var vals := ChildScores(kids, n, player);
      var q := SwitchPlayer(player);
      var v := ABValue(kids[i], q, alpha, beta).score;
      var w := vals[i];
      assert Clamp(v, alpha, beta) == Clamp(w, alpha, beta) by {
        assert w == Value(kids[i], q).score;
        ABClamp(kids[i], q, alpha, beta);
      }
      var m' := Best(player, m, v);
      var sol' := if Improves(player, v, m) then sol + [kids[i]] else sol;
      var (alpha', beta') := Narrow(player, m', alpha, beta);
      var M := Best(player, m, w);
      var pickSol := if Improves(player, w, m) then sol + [kids[i]] else sol;
      var P := Pick(kids, vals, player, i + 1, M, pickSol).0;
      assert Pick(kids, vals, player, i, m, sol).0 == P;
      assert !Improves(player, M, P) by {
        PickScore(kids, vals, player, i + 1, M, pickSol);
      }
      WindowStep(player, m, v, w, alpha, beta);
      var R := ABLoop(kids, n, player, i, m, alpha, beta, sol).0;
      SameStep(kids, kids, n, player, i, m, alpha, beta, sol);
      if alpha' < beta' {
        assert Clamp(R, alpha', beta') == Clamp(P, alpha', beta') by {
          ABLoopClamp(kids, n, player, i + 1, m', alpha', beta', sol');
          PickScoreOnly(kids, vals, player, i + 1, m', sol', pickSol);
          PickClamp(kids, vals, player, i + 1, M, m', alpha', beta', pickSol);
        }
      }
      WindowResult(player, m, v, w, alpha, beta, R, P);
    }
  }

  /** With the full window (-1, 1) alpha-beta returns the minimax score. */
  lemma RootScore(b: Grid, player: int)
    requires Square(b) && IsPlayer(player)
    ensures ABValue(b, player, -1, 1).score == Value(b, player).score
  {
    ABClamp(b, player, -1, 1);
  }

  // ---------------------------------------------------------------------
  // Pruning: the loop reads a prefix of the successors.

  /** Where the loop from i stops: one past the first child after which
      beta <= alpha, or the end of the list. */
  ghost function Stop(kids: seq<Grid>, n: nat, player: int, i: nat, m: int, alpha: int, beta: int): (k: nat)
    requires AllSquare(kids) && Below(kids, n) && IsPlayer(player) && i <= |kids| && -1 <= m <= 1
    ensures i <= k <= |kids| && (i < |kids| ==> i < k)
    decreases |kids| - i
  {
    if i == |kids| then i
    else
      var m' := Best(player, m, ABValue(kids[i], SwitchPlayer(player), alpha, beta).score);
      var (alpha', beta') := Narrow(player, m', alpha, beta);
      if beta' <= alpha' then i + 1 else Stop(kids, n, player, i + 1, m', alpha', beta')
  }

  lemma PrefixBounds(kids: seq<Grid>, n: nat, k: nat)
    requires AllSquare(kids) && Below(kids, n) && k <= |kids|
    ensures AllSquare(kids[..k]) && Below(kids[..k], n)
  {
  }

  /** One step of the loop, for two successor lists that agree at i: both
      stop with the same result, or both go on to i + 1 with the same state. */
  lemma SameStep(a: seq<Grid>, b: seq<Grid>, n: nat, player: int, i: nat, m: int, alpha: int, beta: int, sol: seq<Grid>)
    requires AllSquare(a) && Below(a, n) && AllSquare(b) && Below(b, n) && IsPlayer(player) && -1 <= m <= 1
    requires i < |a| && i < |b| && a[i] == b[i]
    ensures var v := ABValue(a[i], SwitchPlayer(player), alpha, beta).score;
      var m' := Best(player, m, v);
      var sol' := if Improves(player, v, m) then sol + [a[i]] else sol;
      var (alpha', beta') := Narrow(player, m', alpha, beta);
      && (beta' <= alpha' ==>
            && ABLoop(a, n, player, i, m, alpha, beta, sol) == (m', sol')
            && ABLoop(b, n, player, i, m, alpha, beta, sol) == (m', sol'))
      && (alpha' < beta' ==>
            && ABLoop(a, n, player, i, m, alpha, beta, sol) == ABLoop(a, n, player, i + 1, m', alpha', beta', sol')
            && ABLoop(b, n, player, i, m, alpha, beta, sol) == ABLoop(b, n, player, i + 1, m', alpha', beta', sol'))
  {
  }

  /** The loop looks at the successors i .. Stop(..)-1 only: cutting the
      list anywhere from Stop(..) on changes nothing. */
  lemma {:induction false} ABLoopPrefix(kids: seq<Grid>, n: nat, player: int, i: nat, m: int, alpha: int, beta: int, sol: seq<Grid>, k: nat)
    requires AllSquare(kids) && Below(kids, n) && IsPlayer(player) && i <= |kids| && -1 <= m <= 1
    requires Stop(kids, n, player, i, m, alpha, beta) <= k <= |kids|
    ensures AllSquare(kids[..k]) && Below(kids[..k], n)
    ensures ABLoop(kids[..k], n, player, i, m, alpha, beta, sol) == ABLoop(kids, n, player, i, m, alpha, beta, sol)
    decreases |kids| - i
  {
    PrefixBounds(kids, n, k);
    var pre := kids[..k];
    if i < |kids| {
      var v := ABValue(kids[i], SwitchPlayer(player), alpha, beta).score;
      var m' := Best(player, m, v);
      var sol' := if Improves(player, v, m) then sol + [kids[i]] else sol;
      var (alpha', beta') := Narrow(player, m', alpha, beta);
      SameStep(kids, pre, n, player, i, m, alpha, beta, sol);
      if alpha' < beta' {
        ABLoopPrefix(kids, n, player, i + 1, m', alpha', beta', sol', k);
      }
    } else {
      assert pre == kids;
    }
  }

  // ---------------------------------------------------------------------
  // The move `alpha_beta` makes.

  /** The loop never removes or reorders what `solution` already holds. */
  lemma {:induction false} ABLoopKeeps(kids: seq<Grid>, n: nat, player: int, i: nat, m: int, alpha: int, beta: int, sol: seq<Grid>)
    requires AllSquare(kids) && Below(kids, n) && IsPlayer(player) && i <= |kids| && -1 <= m <= 1
    ensures var out := ABLoop(kids, n, player, i, m, alpha, beta, sol).1;
      |sol| <= |out| && out[..|sol|] == sol
    decreases |kids| - i
  {
    if i < |kids| {
      var v := ABValue(kids[i], SwitchPlayer(player), alpha, beta).score;
      var m' := Best(player, m, v);
      var sol' := if Improves(player, v, m) then sol + [kids[i]] else sol;
      var (alpha', beta') := Narrow(player, m', alpha, beta);
      SameStep(kids, kids, n, player, i, m, alpha, beta, sol);
      if beta' > alpha' {
        ABLoopKeeps(kids, n, player, i + 1, m', alpha', beta', sol');
        var out := ABLoop(kids, n, player, i + 1, m', alpha', beta', sol').1;
        assert out[..|sol|] == out[..|sol'|][..|sol|];
      }
    }
  }

  /** At the root of `alpha_beta` (O to move, window (-1, 1)) the window stays
      (-1, 1) until a child beats -1, and every child up to then is scored
      exactly; so the first board appended is the first child whose minimax
      value beats -1, as in `minimax`. */
  lemma {:induction false} RootLoopFirst(kids: seq<Grid>, n: nat, i: nat, sol: seq<Grid>)
    requires AllSquare(kids) && Below(kids, n) && i <= |kids|
    ensures var out := ABLoop(kids, n, O, i, -1, -1, 1, sol).1;
      var vals := ChildScores(kids, n, O);
      var j := FirstBeating(vals, O, i, -1);
      && (|out| > |sol| <==> j < |kids|)
      && (|out| > |sol| ==> out[|sol|] == kids[j])
    decreases |kids| - i
  {
    if i < |kids| {
      var vals := ChildScores(kids, n, O);
      RootScore(kids[i], X);
      assert vals[i] == Value(kids[i], X).score;
      var v := ABValue(kids[i], X, -1, 1).score;
      if v > -1 {
        var sol' := sol + [kids[i]];
        var alpha' := if -1 > v then -1 else v;
        if 1 > alpha' {
          ABLoopKeeps(kids, n, O, i + 1, v, alpha', 1, sol');
          var out := ABLoop(kids, n, O, i + 1, v, alpha', 1, sol').1;
          assert out[..|sol'|] == sol';
          assert out[|sol|] == sol'[|sol|];
        }
      } else {
        RootLoopFirst(kids, n, i + 1, sol);
      }
    }
  }

  /** `alpha_beta(board)`: evaluate with O to move and window (-1, 1); leave a
      finished board as it is, replace it by `solution[0]` otherwise, and
      raise IndexError when `solution` is empty. Pruning changes nothing:
      the result is exactly that of `minimax`. */
  function AlphaBeta(b: Grid): (r: Result<Grid>)
    requires Square(b)
    ensures r == Minimax.Minimax(b)
  {
    var e := ABValue(b, O, -1, 1);
    AlphaBetaIsMinimax(b);
    match e.solution
    case None => Ok(b)
    case Some(solution) => if |solution| == 0 then Err(IndexError) else Ok(solution[0])
  }

  lemma AlphaBetaIsMinimax(b: Grid)
    requires Square(b)
    ensures var sol := ABValue(b, O, -1, 1).solution;
      && (sol.None? <==> Finished(b))
      && (!Finished(b) ==>
            var vals := ChildValues(b, O);
            var j := FirstBeating(vals, O, 0, -1);
            && (|sol.value| == 0 <==> forall k :: 0 <= k < |vals| ==> vals[k] == -1)
            && (|sol.value| > 0 ==> j < |vals| && sol.value[0] == NextBoards(b, O)[j]))
  {
    if !Finished(b) {
      var kids := NextBoards(b, O);
      var n := EmptyCount(b);
      var vals := ChildValues(b, O);
      ABValueUnfold(b, O, -1, 1);
      RootLoopFirst(kids, n, 0, []);
      var j := FirstBeating(vals, O, 0, -1);
      if j == |vals| {
        forall k | 0 <= k < |vals| ensures vals[k] == -1 {
          assert !Improves(O, vals[k], -1);
        }
      }
    }
  }
}
