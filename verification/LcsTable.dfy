/**
  The dense-table diff as the program runs it: a flat table filled row by row, a
  backtrack that collects steps in reverse, and a walk that pushes hunks.
 */
module LcsTable {
  import opened EditScript
  import opened Lcs
  import opened Utils

  /** The hunk vector every stage of the diff appends to. */
  class HunkList {
    var hunks: seq<Hunk>

    constructor ()
      ensures hunks == []
    {
      hunks := [];
    }

    method Push(h: Hunk)
      modifies this
      ensures hunks == old(hunks) + [h]
    {
      hunks := hunks + [h];
    }
  }

  // ----- Filling the table -----------------------------------------------------------

  /** Row and column of a flat index. */
  lemma CellIndex(i: nat, j: nat, stride: nat)
    requires j < stride
    ensures (i * stride + j) / stride == i && (i * stride + j) % stride == j
  {
    var q := (i * stride + j) / stride;
    if q < i { MulMonotone(q + 1, i, stride); }
    if i < q { MulMonotone(i + 1, q, stride); }
  }

  lemma RowBound(i: nat, m: nat, stride: nat)
    requires i <= m
    ensures i * stride <= m * stride && (i + 1) * stride == i * stride + stride
  {
    MulMonotone(i, m, stride);
  }

  lemma CellBound(i: nat, j: nat, m: nat, stride: nat)
    requires i <= m && j < stride
    ensures i * stride + j < (m + 1) * stride
  {
    RowBound(i, m, stride);
    RowBound(m, m, stride);
  }

  /** What the flat cell `k` must hold: the LCS length of its row's and column's prefixes. */
  ghost predicate CellHolds<T>(a: seq<T>, b: seq<T>, k: nat, v: nat) {
    var stride := |b| + 1;
    k / stride <= |a| && v == LcsLen(a, b, k / stride, k % stride)
  }

  ghost predicate FilledTo<T>(a: seq<T>, b: seq<T>, dp: seq<nat>, k: nat) {
    k <= |dp| && forall c :: 0 <= c < k ==> CellHolds(a, b, c, dp[c])
  }

  /** Reading a filled cell yields the LCS length of the two prefixes. */
  lemma FilledCell<T>(a: seq<T>, b: seq<T>, dp: seq<nat>, k: nat, i: nat, j: nat)
    requires FilledTo(a, b, dp, k)
    requires i <= |a| && j <= |b| && i * (|b| + 1) + j < k
    ensures dp[i * (|b| + 1) + j] == LcsLen(a, b, i, j)
  {
    CellIndex(i, j, |b| + 1);
    assert CellHolds(a, b, i * (|b| + 1) + j, dp[i * (|b| + 1) + j]);
  }

  lemma FirstRow<T>(a: seq<T>, b: seq<T>, dp: seq<nat>)
    requires |b| + 1 <= |dp| && forall c :: 0 <= c <= |b| ==> dp[c] == 0
    ensures FilledTo(a, b, dp, |b| + 1)
  {
    forall c | 0 <= c < |b| + 1 ensures CellHolds(a, b, c, dp[c]) {
      CellIndex(0, c, |b| + 1);
    }
  }

  lemma FilledNext<T>(a: seq<T>, b: seq<T>, dp: seq<nat>, i: nat, j: nat)
    requires i <= |a| && j <= |b| && i * (|b| + 1) + j < |dp|
    requires FilledTo(a, b, dp, i * (|b| + 1) + j)
    requires dp[i * (|b| + 1) + j] == LcsLen(a, b, i, j)
    ensures FilledTo(a, b, dp, i * (|b| + 1) + j + 1)
  {
    CellIndex(i, j, |b| + 1);
  }

  /** The first `k` cells are filled and the others are still zero. */
  ghost predicate FillingAt<T>(a: seq<T>, b: seq<T>, dp: seq<nat>, k: nat) {
    FilledTo(a, b, dp, k) && forall c :: k <= c < |dp| ==> dp[c] == 0
  }

  /** The three cells that cell (i, j) is computed from have been filled. */
  lemma CellsRead<T>(a: seq<T>, b: seq<T>, dp: seq<nat>, i: nat, j: nat, above: nat, row: nat)
    requires 1 <= i <= |a| && 1 <= j <= |b| && |dp| == (|a| + 1) * (|b| + 1)
    requires above == (i - 1) * (|b| + 1) && row == i * (|b| + 1) && FillingAt(a, b, dp, row + j)
    ensures above + j < row + j < |dp|
    ensures dp[above + (j - 1)] == LcsLen(a, b, i - 1, j - 1)
    ensures dp[above + j] == LcsLen(a, b, i - 1, j)
    ensures dp[row + (j - 1)] == LcsLen(a, b, i, j - 1)
  {
    CellBound(i, j, |a|, |b| + 1);
    RowBound(i - 1, |a|, |b| + 1);
    FilledCell(a, b, dp, row + j, i - 1, j - 1);
    FilledCell(a, b, dp, row + j, i - 1, j);
    FilledCell(a, b, dp, row + j, i, j - 1);
  }

  lemma FillNext<T>(a: seq<T>, b: seq<T>, dp: seq<nat>, i: nat, j: nat, row: nat)
    requires i <= |a| && j <= |b| && |dp| == (|a| + 1) * (|b| + 1)
    requires row == i * (|b| + 1) && FillingAt(a, b, dp, row + j)
    ensures row + j < |dp|
    ensures FillingAt(a, b, dp[row + j := LcsLen(a, b, i, j)], row + j + 1)
  {
    CellBound(i, j, |a|, |b| + 1);
    var now := dp[row + j := LcsLen(a, b, i, j)];
    assert FilledTo(a, b, now, row + j);
    FilledNext(a, b, now, i, j);
  }

  /** Fill one row of the table. */
  method FillRow<T(==)>(a: seq<T>, b: seq<T>, dp: array<nat>, i: nat) returns (ghost cells: nat)
    requires 1 <= i <= |a| && dp.Length == (|a| + 1) * (|b| + 1)
    requires FillingAt(a, b, dp[..], i * (|b| + 1))
    modifies dp
    ensures FillingAt(a, b, dp[..], (i + 1) * (|b| + 1))
    ensures cells == |b|
  {
    var above, row := (i - 1) * (|b| + 1), i * (|b| + 1);
    var oi := a[i - 1];
    FirstOfRow(a, b, dp[..], i, row);
    cells := 0;
    for j := 1 to |b| + 1
      invariant FillingAt(a, b, dp[..], row + j)
      invariant cells == j - 1
    {
      CellsRead(a, b, dp[..], i, j, above, row);
      FillNext(a, b, dp[..], i, j, row);
      dp[row + j] :=
        if oi == b[j - 1] then dp[above + (j - 1)] + 1
        else Max(dp[above + j], dp[row + (j - 1)]);
      cells := cells + 1;
    }
    RowBound(i, |a|, |b| + 1);
  }

  /** The first cell of a row is zero from the start. */
  lemma FirstOfRow<T>(a: seq<T>, b: seq<T>, dp: seq<nat>, i: nat, row: nat)
    requires i <= |a| && |dp| == (|a| + 1) * (|b| + 1) && row == i * (|b| + 1) && FillingAt(a, b, dp, row)
    ensures FillingAt(a, b, dp, row + 1)
  {
    FillNext(a, b, dp, i, 0, row);
    assert dp[row := 0] == dp;
  }

  /** Fill the whole table: cell (i, j) holds the LCS length of `a[..i]` and `b[..j]`. */
  method FillTable<T(==)>(a: seq<T>, b: seq<T>) returns (dp: array<nat>, ghost cells: nat)
    ensures fresh(dp) && dp.Length == (|a| + 1) * (|b| + 1)
    ensures FilledTo(a, b, dp[..], dp.Length)
    ensures cells == |a| * |b|
  {
    var stride := |b| + 1;
    dp := new nat[(|a| + 1) * stride](_ => 0);
    RowBound(1, |a| + 1, stride);
    FirstRow(a, b, dp[..]);
    cells := 0;
    for i := 1 to |a| + 1
      invariant FillingAt(a, b, dp[..], i * stride)
      invariant cells == (i - 1) * |b|
    {
      ghost var row := FillRow(a, b, dp, i);
      assert cells + row == i * |b|;
      cells := cells + row;
    }
  }

  // ----- Backtracking ----------------------------------------------------------------

  lemma BacktrackPush<T>(a: seq<T>, b: seq<T>, i: nat, j: nat, steps: seq<Step>, s: Step, i1: nat, j1: nat)
    requires i <= |a| && j <= |b| && 0 < i + j && s == BackStep(a, b, i, j)
    requires i1 == i - OldStep(s) && j1 == j - NewStep(s)
    ensures Backtrack(a, b, i, j) + Reversed(steps) == Backtrack(a, b, i1, j1) + Reversed(steps + [s])
  {
    ReversedSnoc(steps, s);
    BacktrackStep(a, b, i, j, s, i1, j1);
    MoveAcross(Backtrack(a, b, i1, j1), s, Reversed(steps));
  }

  /** Read the table to choose the step at cell (i, j). */
  method StepAt<T(==)>(a: seq<T>, b: seq<T>, dp: array<nat>, i: nat, j: nat) returns (s: Step)
    requires dp.Length == (|a| + 1) * (|b| + 1) && FilledTo(a, b, dp[..], dp.Length)
    requires 0 < i <= |a| && 0 < j <= |b|
    ensures s == BackStep(a, b, i, j)
  {
    var stride := |b| + 1;
    CellBound(i - 1, j, |a|, stride);
    CellBound(i, j - 1, |a|, stride);
    FilledCell(a, b, dp[..], dp.Length, i - 1, j);
    FilledCell(a, b, dp[..], dp.Length, i, j - 1);
    if a[i - 1] == b[j - 1] {
      s := Equal;
    } else if dp[(i - 1) * stride + j] >= dp[i * stride + (j - 1)] {
      s := Delete;
    } else {
      s := Insert;
    }
  }

  /** Walk the table from its last cell; the steps come out last first. */
  method CollectSteps<T(==)>(a: seq<T>, b: seq<T>, dp: array<nat>) returns (steps: seq<Step>)
    requires dp.Length == (|a| + 1) * (|b| + 1) && FilledTo(a, b, dp[..], dp.Length)
    ensures steps == Backtrack(a, b, |a|, |b|)
  {
    steps := [];
    var i: nat, j: nat := |a|, |b|;
    ghost var total := Backtrack(a, b, |a|, |b|);
    while i > 0 && j > 0
      invariant i <= |a| && j <= |b|
      invariant total == Backtrack(a, b, i, j) + Reversed(steps)
    {
      var s := StepAt(a, b, dp, i, j);
      var i1: nat, j1: nat := i - OldStep(s), j - NewStep(s);
      BacktrackPush(a, b, i, j, steps, s, i1, j1);
      steps, i, j := steps + [s], i1, j1;
    }
    while i > 0
      invariant i == 0 || j == 0
      invariant i <= |a| && j <= |b| && total == Backtrack(a, b, i, j) + Reversed(steps)
    {
      BacktrackPush(a, b, i, j, steps, Delete, i - 1, j);
      steps, i := steps + [Delete], i - 1;
    }
    while j > 0
      invariant i == 0
      invariant j <= |b| && total == Backtrack(a, b, i, j) + Reversed(steps)
    {
      BacktrackPush(a, b, i, j, steps, Insert, i, j - 1);
      steps, j := steps + [Insert], j - 1;
    }
    steps := Reversed(steps);
  }

  // ----- Emitting hunks --------------------------------------------------------------

  /** Advance over one run of non-Equal steps. */
  method WalkRun(steps: seq<Step>, start: nat, i: nat, j: nat) returns (k: nat, oldPos: nat, newPos: nat)
    requires start < |steps|
    ensures k == start + RunLen(steps[start..]) && k <= |steps|
    ensures oldPos == i + RunOld(steps[start..]) && newPos == j + RunNew(steps[start..])
  {
    k, oldPos, newPos := start, i, j;
    while k < |steps| && steps[k] != Equal
      invariant start <= k <= |steps|
      invariant start + RunLen(steps[start..]) == k + RunLen(steps[k..])
      invariant i + RunOld(steps[start..]) == oldPos + RunOld(steps[k..])
      invariant j + RunNew(steps[start..]) == newPos + RunNew(steps[k..])
      decreases |steps| - k
    {
      assert steps[k..][1..] == steps[k + 1..];
      match steps[k] {
        case Delete => oldPos := oldPos + 1;
        case Insert => newPos := newPos + 1;
      }
      k := k + 1;
    }
  }

  /** Advance over one run and push its hunk in absolute lines. */
  method PushRun(steps: seq<Step>, start: nat, i: nat, j: nat, oldBase: nat, newBase: nat, out: HunkList)
    returns (k: nat, oldPos: nat, newPos: nat)
    requires start < |steps|
    modifies out
    ensures k == start + RunLen(steps[start..]) && k <= |steps|
    ensures oldPos == i + RunOld(steps[start..]) && newPos == j + RunNew(steps[start..])
    ensures out.hunks
         == old(out.hunks) + [Hunk(i, RunOld(steps[start..]), j, RunNew(steps[start..])).Shift(oldBase, newBase)]
  {
    k, oldPos, newPos := WalkRun(steps, start, i, j);
    out.Push(Hunk(oldBase + i, oldPos - i, newBase + j, newPos - j));
  }

  /** What remains to be emitted once the walk stands at step `k`. */
  lemma GroupAhead(steps: seq<Step>, k: nat, i: nat, j: nat)
    requires k < |steps|
    ensures steps[k] == Equal ==> Group(steps[k..], i, j) == Group(steps[k + 1..], i + 1, j + 1)
    ensures steps[k] != Equal ==>
      var (n, d, e) := (RunLen(steps[k..]), RunOld(steps[k..]), RunNew(steps[k..]));
      k < k + n <= |steps| && Group(steps[k..], i, j) == [Hunk(i, d, j, e)] + Group(steps[k + n..], i + d, j + e)
  {
    assert steps[k..][1..] == steps[k + 1..];
    assert steps[k..][RunLen(steps[k..])..] == steps[k + RunLen(steps[k..])..];
  }

  lemma ShiftPush(out: seq<Hunk>, before: seq<Hunk>, hs: seq<Hunk>, h: Hunk, i: nat, j: nat)
    requires out == before + ShiftAll(hs, i, j)
    ensures out + [h.Shift(i, j)] == before + ShiftAll(hs + [h], i, j)
  {
    ShiftConcat(hs, [h], i, j);
    assert ShiftAll([h], i, j) == [h.Shift(i, j)];
  }

  /** Walk the steps forward, pushing one hunk per run of non-Equal steps. */
  method EmitHunks(steps: seq<Step>, oldBase: nat, newBase: nat, out: HunkList)
    modifies out
    ensures out.hunks == old(out.hunks) + ShiftAll(Group(steps, 0, 0), oldBase, newBase)
  {
    var oldPos: nat, newPos: nat, k: nat := 0, 0, 0;
    ghost var emitted: seq<Hunk> := [];
    assert steps[0..] == steps;
    while k < |steps|
      invariant 0 <= k <= |steps|
      invariant out.hunks == old(out.hunks) + ShiftAll(emitted, oldBase, newBase)
      invariant emitted + Group(steps[k..], oldPos, newPos) == Group(steps, 0, 0)
    {
      GroupAhead(steps, k, oldPos, newPos);
      if steps[k] == Equal {
        oldPos, newPos, k := oldPos + 1, newPos + 1, k + 1;
      } else {
        ghost var h := Hunk(oldPos, RunOld(steps[k..]), newPos, RunNew(steps[k..]));
        ShiftPush(out.hunks, old(out.hunks), emitted, h, oldBase, newBase);
        k, oldPos, newPos := PushRun(steps, k, oldPos, newPos, oldBase, newBase, out);
        MoveAcross(emitted, h, Group(steps[k..], oldPos, newPos));
        emitted := emitted + [h];
      }
    }
  }

  /** The dense-table diff of one chunk, appended to `out` in absolute line numbers.
      `cells` counts the table cells computed. */
  method LcsDiff<T(==)>(a: seq<T>, b: seq<T>, oldBase: nat, newBase: nat, out: HunkList) returns (ghost cells: nat)
    modifies out
    ensures out.hunks == old(out.hunks) + ShiftAll(LcsHunks(a, b), oldBase, newBase)
    ensures cells == |a| * |b|
  {
    var dp;
    dp, cells := FillTable(a, b);
    var steps := CollectSteps(a, b, dp);
    EmitHunks(steps, oldBase, newBase, out);
  }
}
