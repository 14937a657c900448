/** `backtrack`: depth-first search over the labyrinth with a set of
    visited positions and an append-only trail `path`. The nested
    `backtrack_recursive` and the loop over `next_states` become the
    mutually recursive `Search` and `Expand`, which thread the trail and
    the visited set through explicitly. */
module Backtracking {
  import opened Wrappers
  import opened Labyrinth

  /** The cells of the board. */
  function Cells(lab: Maze): (cells: set<Pos>)
    requires Rectangular(lab)
    ensures forall p :: p in cells <==> InGrid(lab, p)
  {
    set r, c | 0 <= r < |lab| && 0 <= c < |lab[0]| :: Pos(r, c)
  }

  /** What a call leaves behind: its return value, the trail and the visited set. */
  datatype Frame = Frame(result: Option<seq<Pos>>, path: seq<Pos>, visited: set<Pos>)

  /** `backtrack_recursive(cur)`: the goal returns the whole trail; any
      other position is marked visited and its successors are tried. */
  function Search(pr: Problem, cur: Pos, path: seq<Pos>, visited: set<Pos>): (out: Frame)
    requires ValidProblem(pr) && InGrid(pr.lab, cur) && cur !in visited
    ensures visited <= out.visited
    ensures out.result.None? ==> cur in out.visited
    decreases Cells(pr.lab) - visited, 0, 0
  {
    if IsGoalState(pr, cur) then Frame(Some(path), path, visited)
    else Expand(pr, cur, 0, path, visited + {cur})
  }

  /** The loop over `next_states(cur)` from the i-th successor on: a visited
      successor is skipped, any other is appended to the trail and searched;
      the first success is returned with that successor in front. */
  function Expand(pr: Problem, cur: Pos, i: nat, path: seq<Pos>, visited: set<Pos>): (out: Frame)
    requires ValidProblem(pr) && i <= |NextStates(pr.lab, cur)|
    ensures visited <= out.visited
    decreases Cells(pr.lab) - visited, 1, |NextStates(pr.lab, cur)| - i
  {
    var succs := NextStates(pr.lab, cur);
    if i == |succs| then Frame(None, path, visited)
    else if succs[i] in visited then Expand(pr, cur, i + 1, path, visited)
    else
      var next := succs[i];
      var sub := Search(pr, next, path + [next], visited);
      if sub.result.Some? then Frame(Some([next] + sub.result.value), sub.path, sub.visited)
      else Expand(pr, cur, i + 1, sub.path, sub.visited)
  }

  /** `backtrack(problem, step_by_step)`: the trail or the returned list
      when the search succeeds, None otherwise. */
  function Backtrack(pr: Problem, stepByStep: bool): (r: Option<seq<Pos>>)
    requires ValidProblem(pr)
    ensures r.Some? <==> Reachable(pr.lab, pr.start, pr.goal)
    ensures r.Some? ==> |r.value| > 0 && r.value[|r.value| - 1] == pr.goal
    ensures r.Some? && stepByStep ==> r.value[0] == pr.start
  {
    SearchReachable(pr);
    SearchEnds(pr);
    var out := Search(pr, StartState(pr), [StartState(pr)], {});
    if out.result.Some? then Some(if stepByStep then out.path else out.result.value) else None
  }

  // ---------------------------------------------------------------------
  // Walks and reachability

  /** `chain` leads from `from` to `to`, each element a successor of the one before. */
  predicate IsWalk(lab: Maze, from: Pos, chain: seq<Pos>, to: Pos)
    requires Rectangular(lab)
    decreases |chain|
  {
    if |chain| == 0 then from == to
    else chain[0] in NextStates(lab, from) && IsWalk(lab, chain[0], chain[1..], to)
  }

  ghost predicate Reachable(lab: Maze, from: Pos, to: Pos)
    requires Rectangular(lab)
  {
    exists chain :: IsWalk(lab, from, chain, to)
  }

  /** Every successor of a cell of `done` lies in `within`. */
  ghost predicate ClosedOn(lab: Maze, done: set<Pos>, within: set<Pos>)
    requires Rectangular(lab)
  {
    forall v, s :: v in done && s in NextStates(lab, v) ==> s in within
  }

  /** A set closed under successors that holds `from` but not `to` leaves no walk between them. */
  lemma {:induction false} NoWalkOut(lab: Maze, closed: set<Pos>, from: Pos, chain: seq<Pos>, to: Pos)
    requires Rectangular(lab) && ClosedOn(lab, closed, closed)
    requires from in closed && to !in closed
    ensures !IsWalk(lab, from, chain, to)
    decreases |chain|
  {
    if |chain| > 0 && chain[0] in NextStates(lab, from) {
      NoWalkOut(lab, closed, chain[0], chain[1..], to);
    }
  }

  // ---------------------------------------------------------------------
  // The trail

  /** Every element after the first is a successor of the element `parent`
      points to, which comes earlier. */
  ghost predicate LinkedBy(lab: Maze, path: seq<Pos>, parent: seq<int>)
    requires Rectangular(lab)
  {
    |parent| == |path| &&
    forall k :: 0 < k < |path| ==> 0 <= parent[k] < k && path[k] in NextStates(lab, path[parent[k]])
  }

  /** Every element after the first is a successor of an earlier one. */
  ghost predicate Linked(lab: Maze, path: seq<Pos>)
    requires Rectangular(lab)
  {
    exists parent: seq<int> :: LinkedBy(lab, path, parent)
  }

  /** Every element is a cell of the board. */
  predicate OnBoard(lab: Maze, path: seq<Pos>)
    requires Rectangular(lab)
  {
    forall k :: 0 <= k < |path| ==> InGrid(lab, path[k])
  }

  /** The cells of the trail are exactly `marked`. */
  ghost predicate Marks(path: seq<Pos>, marked: set<Pos>) {
    forall q :: q in marked <==> q in path
  }

  predicate IsPrefix(a: seq<Pos>, b: seq<Pos>) {
    |a| <= |b| && b[..|a|] == a
  }

  lemma PrefixTrans(a: seq<Pos>, b: seq<Pos>, c: seq<Pos>)
    requires IsPrefix(a, b) && IsPrefix(b, c)
    ensures IsPrefix(a, c)
  {
    assert c[..|a|] == c[..|b|][..|a|];
  }

  lemma LinkedAppend(lab: Maze, path: seq<Pos>, j: nat, next: Pos)
    requires Rectangular(lab) && Linked(lab, path)
    requires j < |path| && next in NextStates(lab, path[j])
    ensures Linked(lab, path + [next])
  {
    var parent: seq<int> :| LinkedBy(lab, path, parent);
    var p' := path + [next];
    var parent' := parent + [j];
    forall k | 0 < k < |p'|
      ensures 0 <= parent'[k] < k && p'[k] in NextStates(lab, p'[parent'[k]])
    {
      if k < |path| {
        assert parent'[k] == parent[k] && p'[parent[k]] == path[parent[k]];
      }
    }
    assert LinkedBy(lab, p', parent');
  }

  /** The trail is append-only: dead ends are never taken back. */
  lemma {:induction false} SearchPrefix(pr: Problem, cur: Pos, path: seq<Pos>, visited: set<Pos>)
    requires ValidProblem(pr) && InGrid(pr.lab, cur) && cur !in visited
    ensures IsPrefix(path, Search(pr, cur, path, visited).path)
    decreases Cells(pr.lab) - visited, 0, 0
  {
    if !IsGoalState(pr, cur) {
      ExpandPrefix(pr, cur, 0, path, visited + {cur});
    } else {
      assert path[..|path|] == path;
    }
  }

  lemma {:induction false} ExpandPrefix(pr: Problem, cur: Pos, i: nat, path: seq<Pos>, visited: set<Pos>)
    requires ValidProblem(pr) && i <= |NextStates(pr.lab, cur)|
    ensures IsPrefix(path, Expand(pr, cur, i, path, visited).path)
    decreases Cells(pr.lab) - visited, 1, |NextStates(pr.lab, cur)| - i
  {
    var succs := NextStates(pr.lab, cur);
    if i == |succs| {
      assert path[..|path|] == path;
    } else if succs[i] in visited {
      ExpandPrefix(pr, cur, i + 1, path, visited);
    } else {
      var next := succs[i];
      var p1 := path + [next];
      var sub := Search(pr, next, p1, visited);
      SearchPrefix(pr, next, p1, visited);
      assert IsPrefix(path, p1) by { assert p1[..|path|] == path; }
      PrefixTrans(path, p1, sub.path);
      if sub.result.None? {
        ExpandPrefix(pr, cur, i + 1, sub.path, sub.visited);
        PrefixTrans(path, sub.path, Expand(pr, cur, i + 1, sub.path, sub.visited).path);
      }
    }
  }

  /** The visited set is exactly the set of trail cells, except that the
      goal, which ends the search, is on the trail but never visited. */
  lemma {:induction false} SearchMarks(pr: Problem, cur: Pos, path: seq<Pos>, visited: set<Pos>)
    requires ValidProblem(pr) && InGrid(pr.lab, cur) && cur !in visited && pr.goal !in visited
    requires Marks(path, visited + {cur}) && |path| > 0 && path[|path| - 1] == cur
    ensures var out := Search(pr, cur, path, visited);
      && pr.goal !in out.visited
      && (out.result.None? ==> Marks(out.path, out.visited))
      && (out.result.Some? ==>
            Marks(out.path, out.visited + {pr.goal}) && |out.path| > 0 && out.path[|out.path| - 1] == pr.goal)
    decreases Cells(pr.lab) - visited, 0, 0
  {
    if !IsGoalState(pr, cur) {
      ExpandMarks(pr, cur, 0, path, visited + {cur});
    }
  }

  lemma {:induction false} ExpandMarks(pr: Problem, cur: Pos, i: nat, path: seq<Pos>, visited: set<Pos>)
    requires ValidProblem(pr) && i <= |NextStates(pr.lab, cur)| && pr.goal !in visited
    requires Marks(path, visited)
    ensures var out := Expand(pr, cur, i, path, visited);
      && pr.goal !in out.visited
      && (out.result.None? ==> Marks(out.path, out.visited))
      && (out.result.Some? ==>
            Marks(out.path, out.visited + {pr.goal}) && |out.path| > 0 && out.path[|out.path| - 1] == pr.goal)
    decreases Cells(pr.lab) - visited, 1, |NextStates(pr.lab, cur)| - i
  {
    var succs := NextStates(pr.lab, cur);
    if i < |succs| {
      if succs[i] in visited {
        ExpandMarks(pr, cur, i + 1, path, visited);
      } else {
        var next := succs[i];
        var p1 := path + [next];
        assert Marks(p1, visited + {next}) by {
          assert forall q :: q in p1 <==> q in path || q == next;
        }
        SearchMarks(pr, next, p1, visited);
        var sub := Search(pr, next, p1, visited);
        if sub.result.None? {
          ExpandMarks(pr, cur, i + 1, sub.path, sub.visited);
        }
      }
    }
  }

  /** No position is put on the trail twice. */
  lemma {:induction false} SearchDistinct(pr: Problem, cur: Pos, path: seq<Pos>, visited: set<Pos>)
    requires ValidProblem(pr) && InGrid(pr.lab, cur) && cur !in visited && pr.goal !in visited
    requires Marks(path, visited + {cur}) && |path| > 0 && path[|path| - 1] == cur
    requires Distinct(path)
    ensures Distinct(Search(pr, cur, path, visited).path)
    decreases Cells(pr.lab) - visited, 0, 0
  {
    if !IsGoalState(pr, cur) {
      ExpandDistinct(pr, cur, 0, path, visited + {cur});
    }
  }

  lemma {:induction false} ExpandDistinct(pr: Problem, cur: Pos, i: nat, path: seq<Pos>, visited: set<Pos>)
    requires ValidProblem(pr) && i <= |NextStates(pr.lab, cur)| && pr.goal !in visited
    requires Marks(path, visited) && Distinct(path)
    ensures Distinct(Expand(pr, cur, i, path, visited).path)
    decreases Cells(pr.lab) - visited, 1, |NextStates(pr.lab, cur)| - i
  {
    var succs := NextStates(pr.lab, cur);
    if i < |succs| {
      if succs[i] in visited {
        ExpandDistinct(pr, cur, i + 1, path, visited);
      } else {
        var next := succs[i];
        var p1 := path + [next];
        assert forall q :: q in p1 <==> q in path || q == next;
        assert Distinct(p1) by {
          forall a, b | 0 <= a < b < |p1| ensures p1[a] != p1[b] {
            if b == |path| {
              assert p1[a] == path[a];
            }
          }
        }
        SearchMarks(pr, next, p1, visited);
        SearchDistinct(pr, next, p1, visited);
        var sub := Search(pr, next, p1, visited);
        if sub.result.None? {
          ExpandDistinct(pr, cur, i + 1, sub.path, sub.visited);
        }
      }
    }
  }

  /** Every cell put on the trail is a cell of the board and a successor
      of a cell already on it. */
  lemma {:induction false} SearchLinked(pr: Problem, cur: Pos, path: seq<Pos>, visited: set<Pos>)
    requires ValidProblem(pr) && InGrid(pr.lab, cur) && cur !in visited
    requires |path| > 0 && path[|path| - 1] == cur
    requires Linked(pr.lab, path) && OnBoard(pr.lab, path)
    ensures var p' := Search(pr, cur, path, visited).path;
      Linked(pr.lab, p') && OnBoard(pr.lab, p')
    decreases Cells(pr.lab) - visited, 0, 0
  {
    if !IsGoalState(pr, cur) {
      ExpandLinked(pr, cur, 0, path, visited + {cur}, |path| - 1);
    }
  }

  lemma {:induction false} ExpandLinked(pr: Problem, cur: Pos, i: nat, path: seq<Pos>, visited: set<Pos>, j: nat)
    requires ValidProblem(pr) && i <= |NextStates(pr.lab, cur)|
    requires j < |path| && path[j] == cur
    requires Linked(pr.lab, path) && OnBoard(pr.lab, path)
    ensures var p' := Expand(pr, cur, i, path, visited).path;
      Linked(pr.lab, p') && OnBoard(pr.lab, p')
    decreases Cells(pr.lab) - visited, 1, |NextStates(pr.lab, cur)| - i
  {
    var succs := NextStates(pr.lab, cur);
    if i < |succs| {
      if succs[i] in visited {
        ExpandLinked(pr, cur, i + 1, path, visited, j);
      } else {
        var next := succs[i];
        var p1 := path + [next];
        LinkedAppend(pr.lab, path, j, next);
        assert OnBoard(pr.lab, p1) by {
          assert IsValidPosition(pr.lab, next);
        }
        SearchLinked(pr, next, p1, visited);
        SearchPrefix(pr, next, p1, visited);
        var sub := Search(pr, next, p1, visited);
        if sub.result.None? {
          assert sub.path[j] == sub.path[..|p1|][j] == cur;
          ExpandLinked(pr, cur, i + 1, sub.path, sub.visited, j);
        }
      }
    }
  }

  // ---------------------------------------------------------------------
  // The returned list

  /** `r` is a walk from `from` to `to` followed by `trail`. */
  predicate WalkThenTrail(lab: Maze, from: Pos, r: seq<Pos>, trail: seq<Pos>, to: Pos)
    requires Rectangular(lab)
  {
    |trail| <= |r| && r[|r| - |trail|..] == trail && IsWalk(lab, from, r[..|r| - |trail|], to)
  }

  lemma WalkThenTrailCons(lab: Maze, cur: Pos, next: Pos, r: seq<Pos>, trail: seq<Pos>, to: Pos)
    requires Rectangular(lab) && next in NextStates(lab, cur)
    requires WalkThenTrail(lab, next, r, trail, to)
    ensures WalkThenTrail(lab, cur, [next] + r, trail, to)
  {
    var w := |r| - |trail|;
    var r' := [next] + r;
    assert r'[w + 1..] == r[w..];
    assert r'[..w + 1][1..] == r[..w];
  }

  /** A successful call returns a walk from `cur` to the goal followed by
      the whole final trail, dead ends included. */
  lemma {:induction false} SearchResult(pr: Problem, cur: Pos, path: seq<Pos>, visited: set<Pos>)
    requires ValidProblem(pr) && InGrid(pr.lab, cur) && cur !in visited
    ensures var out := Search(pr, cur, path, visited);
      out.result.Some? ==> WalkThenTrail(pr.lab, cur, out.result.value, out.path, pr.goal)
    decreases Cells(pr.lab) - visited, 0, 0
  {
    if !IsGoalState(pr, cur) {
      ExpandResult(pr, cur, 0, path, visited + {cur});
    }
  }

  lemma {:induction false} ExpandResult(pr: Problem, cur: Pos, i: nat, path: seq<Pos>, visited: set<Pos>)
    requires ValidProblem(pr) && i <= |NextStates(pr.lab, cur)|
    ensures var out := Expand(pr, cur, i, path, visited);
      out.result.Some? ==> WalkThenTrail(pr.lab, cur, out.result.value, out.path, pr.goal)
    decreases Cells(pr.lab) - visited, 1, |NextStates(pr.lab, cur)| - i
  {
    var succs := NextStates(pr.lab, cur);
    if i < |succs| {
      if succs[i] in visited {
        ExpandResult(pr, cur, i + 1, path, visited);
      } else {
        var next := succs[i];
        var sub := Search(pr, next, path + [next], visited);
        SearchResult(pr, next, path + [next], visited);
        if sub.result.Some? {
          WalkThenTrailCons(pr.lab, cur, next, sub.result.value, sub.path, pr.goal);
        } else {
          ExpandResult(pr, cur, i + 1, sub.path, sub.visited);
        }
      }
    }
  }

  // ---------------------------------------------------------------------
  // Failure explores everything reachable

  /** A failed call visits every successor of every position it marked,
      and never marks the goal. */
  lemma {:induction false} SearchClosed(pr: Problem, cur: Pos, path: seq<Pos>, visited: set<Pos>)
    requires ValidProblem(pr) && InGrid(pr.lab, cur) && cur !in visited && pr.goal !in visited
    ensures var out := Search(pr, cur, path, visited);
      out.result.None? ==> ClosedOn(pr.lab, out.visited - visited, out.visited) && pr.goal !in out.visited
    decreases Cells(pr.lab) - visited, 0, 0
  {
    if !IsGoalState(pr, cur) {
      ExpandClosed(pr, cur, 0, path, visited + {cur});
      var out := Expand(pr, cur, 0, path, visited + {cur});
      if out.result.None? {
        assert out.visited - visited == (out.visited - (visited + {cur})) + {cur};
      }
    }
  }

  lemma {:induction false} ExpandClosed(pr: Problem, cur: Pos, i: nat, path: seq<Pos>, visited: set<Pos>)
    requires ValidProblem(pr) && i <= |NextStates(pr.lab, cur)| && pr.goal !in visited
    ensures var out := Expand(pr, cur, i, path, visited);
      out.result.None? ==>
        && ClosedOn(pr.lab, out.visited - visited, out.visited) && pr.goal !in out.visited
        && forall k :: i <= k < |NextStates(pr.lab, cur)| ==> NextStates(pr.lab, cur)[k] in out.visited
    decreases Cells(pr.lab) - visited, 1, |NextStates(pr.lab, cur)| - i
  {
    var succs := NextStates(pr.lab, cur);
    if i < |succs| {
      if succs[i] in visited {
        ExpandClosed(pr, cur, i + 1, path, visited);
      } else {
        var next := succs[i];
        var sub := Search(pr, next, path + [next], visited);
        SearchClosed(pr, next, path + [next], visited);
        if sub.result.None? {
          ExpandClosed(pr, cur, i + 1, sub.path, sub.visited);
          var out := Expand(pr, cur, i + 1, sub.path, sub.visited);
          assert out.visited - visited == (out.visited - sub.visited) + (sub.visited - visited);
        }
      }
    }
  }

  // ---------------------------------------------------------------------
  // `backtrack`

  /** The trail the whole search leaves: it starts at the start cell, lists
      distinct cells of the board each of which after the first is a
      successor of an earlier one, and holds exactly the visited cells,
      plus the goal when it was found. */
  lemma StartTrail(pr: Problem)
    requires ValidProblem(pr)
    ensures var out := Search(pr, pr.start, [pr.start], {});
      && |out.path| > 0 && out.path[0] == pr.start
      && Distinct(out.path) && Linked(pr.lab, out.path)
      && OnBoard(pr.lab, out.path)
      && (out.result.None? ==> Marks(out.path, out.visited))
      && (out.result.Some? ==> Marks(out.path, out.visited + {pr.goal}) && out.path[|out.path| - 1] == pr.goal)
  {
    var path := [pr.start];
    assert Marks(path, {} + {pr.start});
    assert LinkedBy(pr.lab, path, [0]);
    SearchPrefix(pr, pr.start, path, {});
    SearchMarks(pr, pr.start, path, {});
    SearchDistinct(pr, pr.start, path, {});
    SearchLinked(pr, pr.start, path, {});
    var out := Search(pr, pr.start, path, {});
    assert out.path[0] == out.path[..1][0];
  }

  /** The search from the start succeeds exactly when the goal is
      reachable from the start. */
  lemma SearchReachable(pr: Problem)
    requires ValidProblem(pr)
    ensures Search(pr, pr.start, [pr.start], {}).result.Some? <==> Reachable(pr.lab, pr.start, pr.goal)
  {
    var out := Search(pr, pr.start, [pr.start], {});
    SearchResult(pr, pr.start, [pr.start], {});
    if out.result.Some? {
      var r := out.result.value;
      var w := |r| - |out.path|;
      assert IsWalk(pr.lab, pr.start, r[..w], pr.goal);
    } else if pr.start != pr.goal {
      SearchClosed(pr, pr.start, [pr.start], {});
      assert out.visited - {} == out.visited;
      forall chain ensures !IsWalk(pr.lab, pr.start, chain, pr.goal) {
        NoWalkOut(pr.lab, out.visited, pr.start, chain, pr.goal);
      }
    }
  }

  /** A successful search from the start leaves a trail from the start to
      the goal and returns a list ending in that trail. */
  lemma SearchEnds(pr: Problem)
    requires ValidProblem(pr)
    ensures var out := Search(pr, pr.start, [pr.start], {});
      out.result.Some? ==>
        && |out.path| > 0 && out.path[0] == pr.start && out.path[|out.path| - 1] == pr.goal
        && WalkThenTrail(pr.lab, pr.start, out.result.value, out.path, pr.goal)
        && |out.result.value| > 0 && out.result.value[|out.result.value| - 1] == pr.goal
  {
    var out := Search(pr, pr.start, [pr.start], {});
    if out.result.Some? {
      StartTrail(pr);
      SearchResult(pr, pr.start, [pr.start], {});
      LastOfTrail(out.result.value, out.path);
    }
  }

  /** What `backtrack` hands back. Step by step: the whole trail, a list of
      distinct cells from the start to the goal in which every cell is a
      successor of an earlier one. Otherwise: a walk from the start to the
      goal followed by that same trail. */
  lemma BacktrackShape(pr: Problem, stepByStep: bool)
    requires ValidProblem(pr) && Backtrack(pr, stepByStep).Some?
    ensures var out := Search(pr, pr.start, [pr.start], {});
      var r := Backtrack(pr, stepByStep).value;
      && |out.path| > 0 && out.path[0] == pr.start && out.path[|out.path| - 1] == pr.goal
      && Distinct(out.path) && Linked(pr.lab, out.path)
      && |r| > 0 && r[|r| - 1] == pr.goal
      && (stepByStep ==> r == out.path)
      && (!stepByStep ==> WalkThenTrail(pr.lab, pr.start, r, out.path, pr.goal))
  {
    StartTrail(pr);
    SearchEnds(pr);
  }

  lemma LastOfTrail(r: seq<Pos>, trail: seq<Pos>)
    requires 0 < |trail| <= |r| && r[|r| - |trail|..] == trail
    ensures r[|r| - 1] == trail[|trail| - 1]
  {
    assert r[|r| - 1] == r[|r| - |trail|..][|trail| - 1];
  }

  /** Distinct cells of the board are at most as many as the board has. */
  lemma {:induction false} DistinctBound(lab: Maze, path: seq<Pos>)
    requires Rectangular(lab) && Distinct(path) && OnBoard(lab, path)
    ensures |path| <= |Cells(lab)|
  {
    var elems := set k | 0 <= k < |path| :: path[k];
    ElemsCount(path);
    SubsetCard(elems, Cells(lab));
  }

  lemma {:induction false} SubsetCard(a: set<Pos>, b: set<Pos>)
    requires a <= b
    ensures |a| <= |b|
    decreases |a|
  {
    if a != {} {
      var x :| x in a;
      SubsetCard(a - {x}, b - {x});
    }
  }

  lemma {:induction false} ElemsCount(path: seq<Pos>)
    requires Distinct(path)
    ensures |set k | 0 <= k < |path| :: path[k]| == |path|
  {
    if |path| > 0 {
      var init := path[..|path| - 1];
      ElemsCount(init);
      var e := set k | 0 <= k < |path| :: path[k];
      var e' := set k | 0 <= k < |init| :: init[k];
      assert e == e' + {path[|path| - 1]};
      assert path[|path| - 1] !in e';
    }
  }

  /** No position is searched twice: the trail, and with it the recursion
      depth, is bounded by the number of cells. */
  lemma TrailBound(pr: Problem)
    requires ValidProblem(pr)
    ensures |Search(pr, pr.start, [pr.start], {}).path| <= |Cells(pr.lab)|
  {
    StartTrail(pr);
    DistinctBound(pr.lab, Search(pr, pr.start, [pr.start], {}).path);
  }
}
