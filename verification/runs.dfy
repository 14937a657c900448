/** `itertools.groupby` over one line of the board, and the "first run of at
    least k equal non-empty marks" test `winner` applies to every line. */
module Runs {
  import opened Wrappers

  /** One group of `groupby`: a key and the length of its group. */
  datatype Run = Run(key: int, len: nat)

  /** Length of the maximal block of equal values at the head of the line. */
  function RunLength(line: seq<int>): (k: nat)
    requires |line| > 0
    ensures 1 <= k <= |line|
    decreases |line|
  {
    if |line| == 1 || line[1] != line[0] then 1 else 1 + RunLength(line[1..])
  }

  /** Replays a run-length encoding. */
  function Expand(runs: seq<Run>): seq<int> {
    if |runs| == 0 then [] else seq(runs[0].len, _ => runs[0].key) + Expand(runs[1..])
  }

  /** The head block is maximal: all equal to the first value, and the value after it differs. */
  lemma RunLengthSpec(line: seq<int>)
    requires |line| > 0
    ensures forall j :: 0 <= j < RunLength(line) ==> line[j] == line[0]
    ensures RunLength(line) < |line| ==> line[RunLength(line)] != line[0]
    decreases |line|
  {
    if |line| > 1 && line[1] == line[0] {
      RunLengthSpec(line[1..]);
    }
  }

  /** `groupby(line)`: maximal blocks of equal consecutive values, in order. */
  function GroupBy(line: seq<int>): (runs: seq<Run>)
    ensures |runs| <= |line| && (|runs| == 0 <==> |line| == 0)
    ensures |runs| > 0 ==> runs[0].key == line[0]
    ensures forall i :: 0 <= i < |runs| ==> runs[i].len > 0
    decreases |line|
  {
    if |line| == 0 then []
    else [Run(line[0], RunLength(line))] + GroupBy(line[RunLength(line)..])
  }

  /** `groupby` loses nothing: replaying the groups gives the line back. */
  lemma {:induction false} GroupByExpand(line: seq<int>)
    ensures Expand(GroupBy(line)) == line
    decreases |line|
  {
    if |line| > 0 {
      var k := RunLength(line);
      var rest := GroupBy(line[k..]);
      var head := seq(k, _ => line[0]);
      assert head == line[..k] by {
        RunLengthSpec(line);
      }
      assert GroupBy(line) == [Run(line[0], k)] + rest;
      calc {
        Expand(GroupBy(line));
        { ExpandCons(Run(line[0], k), rest); }
        head + Expand(rest);
        { GroupByExpand(line[k..]); }
        line[..k] + line[k..];
      }
      assert line[..k] + line[k..] == line;
    }
  }

  lemma ExpandCons(r: Run, rest: seq<Run>)
    ensures Expand([r] + rest) == seq(r.len, _ => r.key) + Expand(rest)
  {
    assert ([r] + rest)[1..] == rest;
  }

  /** The groups are non-empty, the first has the line's first value as key,
      and neighbouring keys differ, so every group is maximal. */
  lemma {:induction false} GroupByShape(line: seq<int>)
    ensures var runs := GroupBy(line);
      && (forall i :: 0 <= i < |runs| ==> runs[i].len > 0)
      && (forall i :: 0 <= i < |runs| - 1 ==> runs[i].key != runs[i + 1].key)
      && (|runs| > 0 ==> runs[0].key == line[0])
    decreases |line|
  {
    if |line| > 0 {
      var k := RunLength(line);
      RunLengthSpec(line);
      GroupByShape(line[k..]);
      var rest := GroupBy(line[k..]);
      var runs := [Run(line[0], k)] + rest;
      assert GroupBy(line) == runs;
      assert forall i :: 1 <= i < |runs| ==> runs[i] == rest[i - 1];
      if |rest| > 0 {
        assert rest[0].key == line[k];
      }
    }
  }

  /** The key of the first group with a non-zero key and length at least k. */
  function FirstWinningRun(runs: seq<Run>, k: nat): (w: Option<int>)
    ensures w.Some? ==> w.value != 0 && exists i :: 0 <= i < |runs| && runs[i] == Run(w.value, runs[i].len) && runs[i].len >= k
  {
    if |runs| == 0 then None
    else if runs[0].key != 0 && runs[0].len >= k then Some(runs[0].key)
    else FirstWinningRun(runs[1..], k)
  }

  /** The test `winner` runs over one line. */
  function LineWinner(line: seq<int>, k: nat): (w: Option<int>)
    ensures w.Some? ==> w.value != 0
  {
    FirstWinningRun(GroupBy(line), k)
  }

  // ---------------------------------------------------------------------
  // Reference definition: a sliding window of k equal non-empty cells.

  /** Cells i .. i+k-1 of the line all hold p. */
  ghost predicate WindowAt(line: seq<int>, i: int, k: nat, p: int) {
    0 <= i && i + k <= |line| && forall j :: i <= j < i + k ==> line[j] == p
  }

  /** The line holds k consecutive copies of the non-empty mark p. */
  ghost predicate HasWindow(line: seq<int>, k: nat, p: int) {
    p != 0 && exists i :: WindowAt(line, i, k, p)
  }

  /** Scan windows from position i on; the first winning one decides. */
  function WindowWinner(line: seq<int>, k: nat, i: nat): (w: Option<int>)
    requires k >= 1
    decreases |line| - i
  {
    if i + k > |line| then None
    else if line[i] != 0 && forall j :: i <= j < i + k ==> line[j] == line[i] then Some(line[i])
    else WindowWinner(line, k, i + 1)
  }

  lemma {:induction false} WindowWinnerShift(line: seq<int>, k: nat, d: nat, i: nat)
    requires k >= 1 && d <= |line|
    ensures WindowWinner(line, k, d + i) == WindowWinner(line[d..], k, i)
    decreases |line| - d - i
  {
    if d + i + k <= |line| {
      assert forall j :: i <= j < i + k ==> line[d..][j] == line[d + j];
      assert (forall j :: i <= j < i + k ==> line[d..][j] == line[d..][i])
        <==> (forall j :: d + i <= j < d + i + k ==> line[j] == line[d + i]) by {
        if forall j :: i <= j < i + k ==> line[d..][j] == line[d..][i] {
          forall j | d + i <= j < d + i + k ensures line[j] == line[d + i] {
            assert line[d..][j - d] == line[j];
          }
        }
      }
      WindowWinnerShift(line, k, d, i + 1);
    }
  }

  /** Inside a leading block that does not win, no window starts. */
  lemma {:induction false} WindowWinnerSkip(line: seq<int>, k: nat, i: nat)
    requires k >= 1 && |line| > 0 && i <= RunLength(line)
    requires !(line[0] != 0 && RunLength(line) >= k)
    ensures WindowWinner(line, k, i) == WindowWinner(line, k, RunLength(line))
    decreases RunLength(line) - i
  {
    var L := RunLength(line);
    RunLengthSpec(line);
    if i < L && i + k <= |line| {
      assert line[i] == line[0];
      if line[i] != 0 {
        assert i <= L < i + k && line[L] != line[i];
      }
      WindowWinnerSkip(line, k, i + 1);
    }
  }

  /** Unfolding the groupby scan by its first group. */
  lemma LineWinnerUnfold(line: seq<int>, k: nat)
    requires |line| > 0
    ensures var L := RunLength(line);
      LineWinner(line, k) ==
        if line[0] != 0 && L >= k then Some(line[0]) else LineWinner(line[L..], k)
  {
    var L := RunLength(line);
    var runs := GroupBy(line);
    assert runs == [Run(line[0], L)] + GroupBy(line[L..]);
    assert runs[1..] == GroupBy(line[L..]);
  }

  /** A leading block of at least k equal non-empty marks is the first window. */
  lemma WindowWinnerHead(line: seq<int>, k: nat)
    requires k >= 1 && |line| > 0
    ensures line[0] != 0 && RunLength(line) >= k ==> WindowWinner(line, k, 0) == Some(line[0])
    ensures !(line[0] != 0 && RunLength(line) >= k) ==> WindowWinner(line, k, 0) == WindowWinner(line, k, RunLength(line))
  {
    var L := RunLength(line);
    RunLengthSpec(line);
    if line[0] != 0 && L >= k {
      assert forall j :: 0 <= j < 0 + k ==> line[j] == line[0];
    } else {
      if line[0] != 0 && k <= |line| {
        assert line[L] != line[0];
      }
      WindowWinnerSkip(line, k, 0);
    }
  }

  /** The groupby scan and the sliding-window scan agree. */
  lemma {:induction false} LineWinnerIsWindowWinner(line: seq<int>, k: nat)
    requires k >= 1
    ensures LineWinner(line, k) == WindowWinner(line, k, 0)
    decreases |line|
  {
    if |line| > 0 {
      var L := RunLength(line);
      LineWinnerUnfold(line, k);
      WindowWinnerHead(line, k);
      if !(line[0] != 0 && L >= k) {
        var rest := line[L..];
        WindowWinnerShift(line, k, L, 0);
        assert WindowWinner(line, k, L + 0) == WindowWinner(rest, k, 0);
        LineWinnerIsWindowWinner(rest, k);
        assert LineWinner(line, k) == LineWinner(rest, k);
      }
    }
  }

  lemma {:induction false} WindowWinnerSpec(line: seq<int>, k: nat, i: nat)
    requires k >= 1
    ensures WindowWinner(line, k, i).Some? ==>
      var p := WindowWinner(line, k, i).value;
      p != 0 && exists j :: i <= j && WindowAt(line, j, k, p)
    ensures WindowWinner(line, k, i).None? ==>
      forall j, p :: i <= j && p != 0 ==> !WindowAt(line, j, k, p)
    decreases |line| - i
  {
    if i + k > |line| {
    } else if line[i] != 0 && forall j :: i <= j < i + k ==> line[j] == line[i] {
      assert WindowAt(line, i, k, line[i]);
    } else {
      WindowWinnerSpec(line, k, i + 1);
      assert forall p :: p != 0 ==> !WindowAt(line, i, k, p);
    }
  }

  /** `LineWinner` reports a mark exactly when the line holds k consecutive
      copies of a non-empty mark, and the mark it reports is one of them. */
  lemma LineWinnerSpec(line: seq<int>, k: nat)
    requires k >= 1
    ensures LineWinner(line, k).Some? ==> HasWindow(line, k, LineWinner(line, k).value)
    ensures LineWinner(line, k).None? <==> forall p :: !HasWindow(line, k, p)
  {
    LineWinnerIsWindowWinner(line, k);
    WindowWinnerSpec(line, k, 0);
    if LineWinner(line, k).None? {
      forall p ensures !HasWindow(line, k, p) {
        if p != 0 {
          assert forall j :: 0 <= j ==> !WindowAt(line, j, k, p);
        }
      }
    } else {
      var p := LineWinner(line, k).value;
      var j :| 0 <= j && WindowAt(line, j, k, p);
      assert HasWindow(line, k, p);
    }
  }
}
