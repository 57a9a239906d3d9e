/**
  The dense-table diff of a small chunk: longest common subsequence, backtrack, and
  grouping of the non-equal steps into hunks.
 */
module Lcs {
  import opened EditScript
  import opened Utils

  // ----- Reference: common subsequences ------------------------------------------------

  /** `c` is a (not necessarily contiguous) subsequence of `s`. */
  ghost predicate IsSubseq<T>(c: seq<T>, s: seq<T>)
    decreases |s|
  {
    c == [] ||
    (s != [] && ((c[|c| - 1] == s[|s| - 1] && IsSubseq(c[..|c| - 1], s[..|s| - 1]))
                 || IsSubseq(c, s[..|s| - 1])))
  }

  lemma {:induction false} SubseqShorter<T>(c: seq<T>, s: seq<T>)
    requires IsSubseq(c, s) && c != []
    ensures s != [] && IsSubseq(c[..|c| - 1], s[..|s| - 1])
    decreases |s|
  {
    if IsSubseq(c, s[..|s| - 1]) {
      SubseqShorter(c, s[..|s| - 1]);
    }
  }

  lemma {:induction false} SubseqSnoc<T>(c: seq<T>, s: seq<T>, t: seq<T>)
    requires IsSubseq(c, s)
    ensures IsSubseq(c, s + t)
    decreases |t|
  {
    if t == [] {
      assert s + t == s;
    } else {
      SubseqSnoc(c, s, t[..|t| - 1]);
      assert (s + t)[..|s + t| - 1] == s + t[..|t| - 1];
    }
  }

  lemma {:induction false} SubseqConcat<T>(c: seq<T>, s: seq<T>, d: seq<T>, t: seq<T>)
    requires IsSubseq(c, s) && IsSubseq(d, t)
    ensures IsSubseq(c + d, s + t)
    decreases |t|
  {
    if d == [] {
      assert c + d == c;
      SubseqSnoc(c, s, t);
    } else {
      var t' := t[..|t| - 1];
      assert (s + t)[..|s + t| - 1] == s + t';
      if IsSubseq(d, t') {
        SubseqConcat(c, s, d, t');
      } else {
        SubseqConcat(c, s, d[..|d| - 1], t');
        assert (c + d)[..|c + d| - 1] == c + d[..|d| - 1];
      }
    }
  }

  lemma {:induction false} SubseqSelf<T>(s: seq<T>)
    ensures IsSubseq(s, s)
    decreases |s|
  {
    if s != [] { SubseqSelf(s[..|s| - 1]); }
  }

  // ----- LCS length -------------------------------------------------------------------

  /** LCS length of the prefixes `a[..i]` and `b[..j]`. */
  function LcsLen<T(==)>(a: seq<T>, b: seq<T>, i: nat, j: nat): (r: nat)
    requires i <= |a| && j <= |b|
  {
    if i == 0 || j == 0 then 0
    else if a[i - 1] == b[j - 1] then LcsLen(a, b, i - 1, j - 1) + 1
    else Max(LcsLen(a, b, i - 1, j), LcsLen(a, b, i, j - 1))
  }

  /** No common subsequence is longer than `LcsLen`. */
  lemma {:induction false} LcsIsUpperBound<T>(a: seq<T>, b: seq<T>, i: nat, j: nat, c: seq<T>)
    requires i <= |a| && j <= |b| && IsSubseq(c, a[..i]) && IsSubseq(c, b[..j])
    ensures |c| <= LcsLen(a, b, i, j)
    decreases i + j
  {
    if c != [] {
      SubseqShorter(c, a[..i]);
      SubseqShorter(c, b[..j]);
      assert a[..i][..i - 1] == a[..i - 1] && b[..j][..j - 1] == b[..j - 1];
      if a[i - 1] == b[j - 1] {
        LcsIsUpperBound(a, b, i - 1, j - 1, c[..|c| - 1]);
      } else if IsSubseq(c, a[..i - 1]) {
        LcsIsUpperBound(a, b, i - 1, j, c);
      } else {
        LcsIsUpperBound(a, b, i, j - 1, c);
      }
    }
  }

  // ----- Steps ---------------------------------------------------------------------------

  datatype Step = Equal | Delete | Insert

  function OldStep(s: Step): nat { if s == Insert then 0 else 1 }
  function NewStep(s: Step): nat { if s == Delete then 0 else 1 }

  /** The step the backtrack takes at cell (i, j): ties go to Delete. */
  function BackStep<T(==)>(a: seq<T>, b: seq<T>, i: nat, j: nat): (s: Step)
    requires i <= |a| && j <= |b| && 0 < i + j
    ensures OldStep(s) <= i && NewStep(s) <= j
    ensures s == Equal ==> a[i - 1] == b[j - 1]
  {
    if i == 0 then Insert
    else if j == 0 then Delete
    else if a[i - 1] == b[j - 1] then Equal
    else if LcsLen(a, b, i - 1, j) >= LcsLen(a, b, i, j - 1) then Delete
    else Insert
  }

  /** An Equal step, and no other, takes one off the LCS length. */
  lemma BackStepCounts<T>(a: seq<T>, b: seq<T>, i: nat, j: nat)
    requires i <= |a| && j <= |b| && 0 < i + j
    ensures match BackStep(a, b, i, j)
            case Equal => LcsLen(a, b, i, j) == LcsLen(a, b, i - 1, j - 1) + 1
            case Delete => LcsLen(a, b, i, j) == LcsLen(a, b, i - 1, j)
            case Insert => LcsLen(a, b, i, j) == LcsLen(a, b, i, j - 1)
  {
  }

  /** The steps the table's backtrack takes from (i, j), in forward order. */
  function Backtrack<T(==)>(a: seq<T>, b: seq<T>, i: nat, j: nat): (r: seq<Step>)
    requires i <= |a| && j <= |b|
    decreases i + j
  {
    if i == 0 && j == 0 then []
    else
      var s := BackStep(a, b, i, j);
      Backtrack(a, b, i - OldStep(s), j - NewStep(s)) + [s]
  }

  lemma BacktrackStep<T>(a: seq<T>, b: seq<T>, i: nat, j: nat, s: Step, i1: nat, j1: nat)
    requires i <= |a| && j <= |b| && 0 < i + j && s == BackStep(a, b, i, j)
    requires i1 == i - OldStep(s) && j1 == j - NewStep(s)
    ensures Backtrack(a, b, i, j) == Backtrack(a, b, i1, j1) + [s]
  {
  }

  function Equals(steps: seq<Step>): (r: nat) {
    if steps == [] then 0 else (if steps[|steps| - 1] == Equal then 1 else 0) + Equals(steps[..|steps| - 1])
  }

  lemma EqualsSnoc(steps: seq<Step>, s: Step)
    ensures Equals(steps + [s]) == Equals(steps) + if s == Equal then 1 else 0
  {
    assert (steps + [s])[..|steps|] == steps;
  }

  /** The steps lead from (i, j) to (i2, j2), taking Equal only where the elements agree. */
  ghost predicate Path<T>(a: seq<T>, b: seq<T>, i: nat, j: nat, i2: nat, j2: nat, steps: seq<Step>)
    decreases |steps|
  {
    && i2 <= |a| && j2 <= |b|
    && if steps == [] then i == i2 && j == j2
       else match steps[0]
         case Equal => i < i2 && j < j2 && a[i] == b[j] && Path(a, b, i + 1, j + 1, i2, j2, steps[1..])
         case Delete => i < i2 && Path(a, b, i + 1, j, i2, j2, steps[1..])
         case Insert => j < j2 && Path(a, b, i, j + 1, i2, j2, steps[1..])
  }

  lemma {:induction false} PathSnoc<T>(a: seq<T>, b: seq<T>, i: nat, j: nat, i1: nat, j1: nat, steps: seq<Step>,
                                       s: Step, i2: nat, j2: nat)
    requires Path(a, b, i, j, i1, j1, steps)
    requires i2 == i1 + OldStep(s) <= |a| && j2 == j1 + NewStep(s) <= |b|
    requires s == Equal ==> a[i1] == b[j1]
    ensures Path(a, b, i, j, i2, j2, steps + [s])
    decreases |steps|
  {
    if steps == [] {
      assert ([] + [s])[1..] == [];
    } else {
      assert (steps + [s])[1..] == steps[1..] + [s];
      PathSnoc(a, b, i + OldStep(steps[0]), j + NewStep(steps[0]), i1, j1, steps[1..], s, i2, j2);
    }
  }

  lemma BacktrackGrows<T>(a: seq<T>, b: seq<T>, i: nat, j: nat, s: Step, i1: nat, j1: nat)
    requires i <= |a| && j <= |b| && 0 < i + j && s == BackStep(a, b, i, j)
    requires i1 == i - OldStep(s) && j1 == j - NewStep(s)
    requires Path(a, b, 0, 0, i1, j1, Backtrack(a, b, i1, j1))
    ensures Path(a, b, 0, 0, i, j, Backtrack(a, b, i, j))
    ensures Equals(Backtrack(a, b, i, j)) == Equals(Backtrack(a, b, i1, j1)) + if s == Equal then 1 else 0
  {
    var steps := Backtrack(a, b, i1, j1);
    BacktrackStep(a, b, i, j, s, i1, j1);
    PathSnoc(a, b, 0, 0, i1, j1, steps, s, i, j);
    EqualsSnoc(steps, s);
  }

  /** The backtrack is a path over the whole chunk with exactly LCS-many Equal steps. */
  lemma {:induction false} BacktrackIsPath<T>(a: seq<T>, b: seq<T>, i: nat, j: nat)
    requires i <= |a| && j <= |b|
    ensures Path(a, b, 0, 0, i, j, Backtrack(a, b, i, j))
    ensures Equals(Backtrack(a, b, i, j)) == LcsLen(a, b, i, j)
    decreases i + j
  {
    if 0 < i + j {
      BackStepCounts(a, b, i, j);
      match BackStep(a, b, i, j)
      case Equal =>
        BacktrackIsPath(a, b, i - 1, j - 1);
        BacktrackFrom(a, b, i, j, Equal, i - 1, j - 1);
      case Delete =>
        BacktrackIsPath(a, b, i - 1, j);
        BacktrackFrom(a, b, i, j, Delete, i - 1, j);
      case Insert =>
        BacktrackIsPath(a, b, i, j - 1);
        BacktrackFrom(a, b, i, j, Insert, i, j - 1);
    }
  }

  lemma BacktrackFrom<T>(a: seq<T>, b: seq<T>, i: nat, j: nat, s: Step, i1: nat, j1: nat)
    requires i <= |a| && j <= |b| && 0 < i + j && s == BackStep(a, b, i, j)
    requires i1 == i - OldStep(s) && j1 == j - NewStep(s)
    requires Path(a, b, 0, 0, i1, j1, Backtrack(a, b, i1, j1)) && Equals(Backtrack(a, b, i1, j1)) == LcsLen(a, b, i1, j1)
    requires LcsLen(a, b, i, j) == LcsLen(a, b, i1, j1) + if s == Equal then 1 else 0
    ensures Path(a, b, 0, 0, i, j, Backtrack(a, b, i, j)) && Equals(Backtrack(a, b, i, j)) == LcsLen(a, b, i, j)
  {
    BacktrackGrows(a, b, i, j, s, i1, j1);
  }

  // ----- Grouping steps into hunks ------------------------------------------------------

  /** Length, deletions and insertions of the leading run of non-Equal steps. */
  function RunLen(steps: seq<Step>): (r: nat)
    ensures r <= |steps| && (r < |steps| ==> steps[r] == Equal)
    ensures steps != [] && steps[0] != Equal ==> 0 < r
  {
    if steps == [] || steps[0] == Equal then 0 else 1 + RunLen(steps[1..])
  }

  function RunOld(steps: seq<Step>): (r: nat) {
    if steps == [] || steps[0] == Equal then 0 else OldStep(steps[0]) + RunOld(steps[1..])
  }

  function RunNew(steps: seq<Step>): (r: nat) {
    if steps == [] || steps[0] == Equal then 0 else NewStep(steps[0]) + RunNew(steps[1..])
  }

  /** One hunk per maximal run of non-Equal steps; the walk stands at (i, j). */
  function Group(steps: seq<Step>, i: nat, j: nat): (r: seq<Hunk>)
    decreases |steps|
  {
    if steps == [] then []
    else if steps[0] == Equal then Group(steps[1..], i + 1, j + 1)
    else
      var (d, n) := (RunOld(steps), RunNew(steps));
      [Hunk(i, d, j, n)] + Group(steps[RunLen(steps)..], i + d, j + n)
  }

  lemma {:induction false} RunPath<T>(a: seq<T>, b: seq<T>, i: nat, j: nat, i2: nat, j2: nat, steps: seq<Step>)
    requires Path(a, b, i, j, i2, j2, steps)
    ensures Path(a, b, i + RunOld(steps), j + RunNew(steps), i2, j2, steps[RunLen(steps)..])
    ensures RunOld(steps) + RunNew(steps) == RunLen(steps)
    decreases |steps|
  {
    if steps != [] && steps[0] != Equal {
      RunPath(a, b, i + OldStep(steps[0]), j + NewStep(steps[0]), i2, j2, steps[1..]);
      assert steps[RunLen(steps)..] == steps[1..][RunLen(steps[1..])..];
    }
  }

  /** A first hunk after an Equal step leaves that element in front of it. */
  lemma {:induction false} GroupStarts(steps: seq<Step>, i: nat, j: nat)
    ensures var hs := Group(steps, i, j);
            hs != [] ==>
              && i <= hs[0].oldStart && j <= hs[0].newStart
              && (steps[0] == Equal ==> i < hs[0].oldStart && j < hs[0].newStart)
    decreases |steps|
  {
    if steps != [] && steps[0] == Equal { GroupStarts(steps[1..], i + 1, j + 1); }
  }

  /** The hunks grouped from a path form a script. */
  lemma {:induction false} GroupIsScript<T>(a: seq<T>, b: seq<T>, i: nat, j: nat, i2: nat, j2: nat, steps: seq<Step>,
                                            hs: seq<Hunk>)
    requires Path(a, b, i, j, i2, j2, steps) && hs == Group(steps, i, j)
    ensures Script(a, b, i, j, i2, j2, hs)
    decreases |steps|
  {
    if steps == [] {
    } else if steps[0] == Equal {
      GroupIsScript(a, b, i + 1, j + 1, i2, j2, steps[1..], hs);
      ScriptBehind(a, b, i, j, i + 1, j + 1, i2, j2, hs);
    } else {
      var (rest, i', j') := (steps[RunLen(steps)..], i + RunOld(steps), j + RunNew(steps));
      RunPath(a, b, i, j, i2, j2, steps);
      GroupIsScript(a, b, i', j', i2, j2, rest, hs[1..]);
      GroupStarts(rest, i', j');
      assert hs[0] == Hunk(i, RunOld(steps), j, RunNew(steps));
      HunkAtOnce(a, b, i, j, i', j', i2, j2, hs);
    }
  }

  /** A hunk with no gap in front of it. */
  lemma HunkAtOnce<T>(a: seq<T>, b: seq<T>, i: nat, j: nat, i1: nat, j1: nat, i2: nat, j2: nat, hs: seq<Hunk>)
    requires i <= i1 && j <= j1 && i + j < i1 + j1 && hs != [] && hs[0] == Hunk(i, i1 - i, j, j1 - j)
    requires |hs| > 1 ==> i1 < hs[1].oldStart && j1 < hs[1].newStart
    requires Script(a, b, i1, j1, i2, j2, hs[1..])
    ensures Script(a, b, i, j, i2, j2, hs)
  {
    ScriptBounds(a, b, i1, j1, i2, j2, hs[1..]);
    ScriptStep(a, b, i, j, i1, j1, i2, j2, hs);
  }

  lemma {:induction false} EqualsConcat(s: seq<Step>, t: seq<Step>)
    ensures Equals(s + t) == Equals(s) + Equals(t)
    decreases |t|
  {
    if t == [] {
      assert s + t == s;
    } else {
      EqualsConcat(s, t[..|t| - 1]);
      assert (s + t)[..|s + t| - 1] == s + t[..|t| - 1];
    }
  }

  lemma {:induction false} RunHasNoEquals(steps: seq<Step>)
    ensures Equals(steps[..RunLen(steps)]) == 0
    decreases |steps|
  {
    if steps != [] && steps[0] != Equal {
      RunHasNoEquals(steps[1..]);
      assert steps[..RunLen(steps)] == [steps[0]] + steps[1..][..RunLen(steps[1..])];
      EqualsConcat([steps[0]], steps[1..][..RunLen(steps[1..])]);
    }
  }

  lemma EqualsFirst(steps: seq<Step>)
    requires steps != [] && steps[0] == Equal
    ensures Equals(steps) == 1 + Equals(steps[1..])
  {
    EqualsConcat([Equal], steps[1..]);
    assert steps == [Equal] + steps[1..];
  }

  lemma EqualsSkip(steps: seq<Step>)
    ensures Equals(steps) == Equals(steps[RunLen(steps)..])
  {
    var n := RunLen(steps);
    RunHasNoEquals(steps);
    EqualsConcat(steps[..n], steps[n..]);
    assert steps == steps[..n] + steps[n..];
  }

  /** Grouping neither loses nor invents changed lines. */
  lemma {:induction false} GroupChanged<T>(a: seq<T>, b: seq<T>, i: nat, j: nat, i2: nat, j2: nat, steps: seq<Step>)
    requires Path(a, b, i, j, i2, j2, steps)
    ensures Changed(Group(steps, i, j)) + 2 * Equals(steps) == (i2 - i) + (j2 - j)
    decreases |steps|
  {
    if steps == [] {
    } else if steps[0] == Equal {
      GroupChanged(a, b, i + 1, j + 1, i2, j2, steps[1..]);
      EqualsFirst(steps);
    } else {
      RunPath(a, b, i, j, i2, j2, steps);
      GroupChanged(a, b, i + RunOld(steps), j + RunNew(steps), i2, j2, steps[RunLen(steps)..]);
      EqualsSkip(steps);
    }
  }

  // ----- Minimality ------------------------------------------------------------------------

  /** The elements a script keeps form a common subsequence. */
  lemma {:induction false} KeptIsCommon<T>(a: seq<T>, b: seq<T>, i: nat, j: nat, i2: nat, j2: nat, hs: seq<Hunk>)
    returns (c: seq<T>)
    requires Script(a, b, i, j, i2, j2, hs)
    ensures i <= i2 <= |a| && j <= j2 <= |b|
    ensures IsSubseq(c, a[i..i2]) && IsSubseq(c, b[j..j2])
    ensures 2 * |c| + Changed(hs) == (i2 - i) + (j2 - j)
    decreases |hs|
  {
    if hs == [] {
      SubseqSelf(a[i..i2]);
      RunSlice(a, b, i, j, i2 - i);
      c := a[i..i2];
    } else {
      var h := hs[0];
      var c' := KeptIsCommon(a, b, h.OldEnd(), h.NewEnd(), i2, j2, hs[1..]);
      c := KeptStep(a, b, i, j, i2, j2, h, c');
    }
  }

  lemma KeptStep<T>(a: seq<T>, b: seq<T>, i: nat, j: nat, i2: nat, j2: nat, h: Hunk, c: seq<T>) returns (r: seq<T>)
    requires Leads(a, b, i, j, h) && h.OldEnd() <= i2 <= |a| && h.NewEnd() <= j2 <= |b|
    requires IsSubseq(c, a[h.OldEnd()..i2]) && IsSubseq(c, b[h.NewEnd()..j2])
    ensures IsSubseq(r, a[i..i2]) && IsSubseq(r, b[j..j2]) && |r| == h.oldStart - i + |c|
  {
    RunSlice(a, b, i, j, h.oldStart - i);
    KeptSide(a, i, h.oldStart, h.OldEnd(), i2, c);
    KeptSide(b, j, h.newStart, h.NewEnd(), j2, c);
    r := a[i..h.oldStart] + c;
  }

  lemma KeptSide<T>(s: seq<T>, i: nat, k: nat, l: nat, i2: nat, c: seq<T>)
    requires i <= k <= l <= i2 <= |s| && IsSubseq(c, s[l..i2])
    ensures IsSubseq(s[i..k] + c, s[i..i2])
  {
    SubseqSelf(s[i..k]);
    SubseqConcat([], s[k..l], c, s[l..i2]);
    assert [] + c == c;
    SliceJoin(s, k, l, i2);
    SubseqConcat(s[i..k], s[i..k], c, s[k..i2]);
    SliceJoin(s, i, k, i2);
  }

  /** No script of the chunk changes fewer lines than m + n - 2 * LCS. */
  lemma ScriptsChangeAtLeast<T>(a: seq<T>, b: seq<T>, hs: seq<Hunk>)
    requires IsScript(a, b, hs)
    ensures Changed(hs) >= |a| + |b| - 2 * LcsLen(a, b, |a|, |b|)
  {
    var c := KeptIsCommon(a, b, 0, 0, |a|, |b|, hs);
    SliceWhole(a);
    SliceWhole(b);
    LcsIsUpperBound(a, b, |a|, |b|, c);
  }

  /** The hunks of the dense-table diff, numbered from the chunk's start. */
  function LcsHunks<T(==)>(a: seq<T>, b: seq<T>): (r: seq<Hunk>) {
    Group(Backtrack(a, b, |a|, |b|), 0, 0)
  }

  /** The dense-table diff is a script, and no script of the chunk changes fewer lines. */
  lemma LcsHunksAreMinimal<T>(a: seq<T>, b: seq<T>, hs: seq<Hunk>)
    requires IsScript(a, b, hs)
    ensures IsScript(a, b, LcsHunks(a, b))
    ensures Changed(LcsHunks(a, b)) == |a| + |b| - 2 * LcsLen(a, b, |a|, |b|)
    ensures Changed(LcsHunks(a, b)) <= Changed(hs)
  {
    LcsHunksAreScript(a, b);
    ScriptsChangeAtLeast(a, b, hs);
  }

  lemma LcsHunksAreScript<T>(a: seq<T>, b: seq<T>)
    ensures IsScript(a, b, LcsHunks(a, b))
    ensures Changed(LcsHunks(a, b)) == |a| + |b| - 2 * LcsLen(a, b, |a|, |b|)
  {
    var steps := Backtrack(a, b, |a|, |b|);
    BacktrackIsPath(a, b, |a|, |b|);
    GroupIsScript(a, b, 0, 0, |a|, |b|, steps, LcsHunks(a, b));
    GroupChanged(a, b, 0, 0, |a|, |b|, steps);
  }

  /** The bound is attained: some common subsequence has LCS length. */
  lemma LcsIsAttained<T>(a: seq<T>, b: seq<T>) returns (c: seq<T>)
    ensures IsSubseq(c, a) && IsSubseq(c, b) && |c| == LcsLen(a, b, |a|, |b|)
  {
    LcsHunksAreScript(a, b);
    c := KeptIsCommon(a, b, 0, 0, |a|, |b|, LcsHunks(a, b));
    SliceWhole(a);
    SliceWhole(b);
  }

  // ----- Which longest alignment is taken ---------------------------------------------------------------

  lemma LcsOfSlices<T>(a: seq<T>, b: seq<T>, i: nat, j: nat) returns (c: seq<T>)
    requires i <= |a| && j <= |b|
    ensures IsSubseq(c, a[..i]) && IsSubseq(c, b[..j]) && |c| == LcsLen(a, b, i, j)
  {
    c := LcsIsAttained(a[..i], b[..j]);
    LcsOfPrefixes(a, b, a[..i], b[..j], i, j);
  }

  /** A longest common subsequence. */
  ghost predicate IsLongest<T(!new)>(c: seq<T>, a: seq<T>, b: seq<T>) {
    IsSubseq(c, a) && IsSubseq(c, b) && forall d: seq<T> :: IsSubseq(d, a) && IsSubseq(d, b) ==> |d| <= |c|
  }

  lemma LongestIff<T(!new)>(a: seq<T>, b: seq<T>, i: nat, j: nat, c: seq<T>)
    requires i <= |a| && j <= |b| && IsSubseq(c, a[..i]) && IsSubseq(c, b[..j])
    ensures IsLongest(c, a[..i], b[..j]) <==> |c| == LcsLen(a, b, i, j)
  {
    var d := LcsOfSlices(a, b, i, j);
    forall e: seq<T> | IsSubseq(e, a[..i]) && IsSubseq(e, b[..j]) ensures |e| <= LcsLen(a, b, i, j) {
      LcsIsUpperBound(a, b, i, j, e);
    }
    LcsIsUpperBound(a, b, i, j, c);
  }

  /** The last step of an alignment: equal ends are matched; else the old line goes where a longest common
      subsequence can do without it, and the new one only where none can. */
  lemma LastStepIs<T(!new)>(a: seq<T>, b: seq<T>, i: nat, j: nat)
    requires 0 < i <= |a| && 0 < j <= |b|
    ensures var steps := Backtrack(a, b, i, j);
            steps != [] && steps[|steps| - 1]
            == if a[i - 1] == b[j - 1] then Equal
               else if exists c: seq<T> :: IsLongest(c, a[..i], b[..j]) && IsSubseq(c, a[..i - 1]) then Delete
               else Insert
  {
    var s := BackStep(a, b, i, j);
    BacktrackStep(a, b, i, j, s, i - OldStep(s), j - NewStep(s));
    if a[i - 1] != b[j - 1] { DeleteIff(a, b, i, j, i - 1); }
  }

  lemma DeleteIff<T(!new)>(a: seq<T>, b: seq<T>, i: nat, j: nat, m: nat)
    requires i <= |a| && 0 < j <= |b| && i == m + 1 && a[m] != b[j - 1]
    ensures LcsLen(a, b, m, j) >= LcsLen(a, b, i, j - 1)
            <==> exists c: seq<T> :: IsLongest(c, a[..i], b[..j]) && IsSubseq(c, a[..m])
  {
    if LcsLen(a, b, m, j) >= LcsLen(a, b, i, j - 1) {
      var c := LcsOfSlices(a, b, m, j);
      SubseqSnoc(c, a[..m], [a[m]]);
      assert a[..m] + [a[m]] == a[..i];
      LongestIff(a, b, i, j, c);
    } else if exists c: seq<T> :: IsLongest(c, a[..i], b[..j]) && IsSubseq(c, a[..m]) {
      var c: seq<T> :| IsLongest(c, a[..i], b[..j]) && IsSubseq(c, a[..m]);
      LongestIff(a, b, i, j, c);
      LcsIsUpperBound(a, b, m, j, c);
    }
  }

  // ----- Common ends ---------------------------------------------------------------------

  lemma {:induction false} LcsOfPrefixes<T>(a: seq<T>, b: seq<T>, a': seq<T>, b': seq<T>, i: nat, j: nat)
    requires a' <= a && b' <= b && i <= |a'| && j <= |b'|
    ensures LcsLen(a', b', i, j) == LcsLen(a, b, i, j)
    decreases i + j
  {
    if i > 0 && j > 0 {
      LcsOfPrefixes(a, b, a', b', i - 1, j - 1);
      LcsOfPrefixes(a, b, a', b', i - 1, j);
      LcsOfPrefixes(a, b, a', b', i, j - 1);
    }
  }

  /** A common first element is worth one. */
  lemma {:induction false} LcsFirst<T>(a: seq<T>, b: seq<T>, i: nat, j: nat)
    requires 0 < i <= |a| && 0 < j <= |b| && a[0] == b[0]
    ensures LcsLen(a, b, i, j) == 1 + LcsLen(a[1..], b[1..], i - 1, j - 1)
    decreases i + j
  {
    if i > 1 && j > 1 { LcsFirst(a, b, i - 1, j - 1); }
    if i > 1 { LcsFirst(a, b, i - 1, j); }
    if j > 1 { LcsFirst(a, b, i, j - 1); }
  }

  /** A common prefix is worth its length. */
  lemma {:induction false} LcsAfterPrefix<T>(a: seq<T>, b: seq<T>, s: nat)
    requires SameRun(a, b, 0, 0, s)
    ensures LcsLen(a, b, |a|, |b|) == s + LcsLen(a[s..], b[s..], |a[s..]|, |b[s..]|)
    decreases s
  {
    if s == 0 {
      assert a[0..] == a && b[0..] == b;
    } else {
      LcsFirst(a, b, |a|, |b|);
      LcsAfterPrefix(a[1..], b[1..], s - 1);
      assert a[1..][s - 1..] == a[s..] && b[1..][s - 1..] == b[s..];
    }
  }

  /** A common suffix is worth its length. */
  lemma {:induction false} LcsBeforeSuffix<T>(a: seq<T>, b: seq<T>, i: nat, j: nat, e: nat)
    requires SameRun(a, b, i, j, e)
    ensures LcsLen(a, b, i + e, j + e) == LcsLen(a, b, i, j) + e
    decreases e
  {
    if e > 0 { LcsBeforeSuffix(a, b, i, j, e - 1); }
  }

  lemma LcsOfTrimmed<T>(x: seq<T>, y: seq<T>, x': seq<T>, y': seq<T>, e: nat)
    requires x' <= x && y' <= y && |x'| + e == |x| && |y'| + e == |y| && SameRun(x, y, |x'|, |y'|, e)
    ensures LcsLen(x, y, |x|, |y|) == e + LcsLen(x', y', |x'|, |y'|)
  {
    LcsBeforeSuffix(x, y, |x'|, |y'|, e);
    LcsOfPrefixes(x, y, x', y', |x'|, |y'|);
  }

  lemma RunDrop<T>(a: seq<T>, b: seq<T>, s: nat, i: nat, j: nat, n: nat)
    requires s <= i && s <= j && SameRun(a, b, i, j, n)
    ensures SameRun(a[s..], b[s..], i - s, j - s, n)
  {
  }

  /** Stripping common ends costs the diff nothing: the LCS of the middle plus the ends is
      the LCS of the whole. */
  lemma LcsOfMiddle<T>(a: seq<T>, b: seq<T>, s: nat, i1: nat, j1: nat, e: nat, am: seq<T>, bm: seq<T>)
    requires s <= i1 && s <= j1 && i1 + e == |a| && j1 + e == |b| && am == a[s..i1] && bm == b[s..j1]
    requires SameRun(a, b, 0, 0, s) && SameRun(a, b, i1, j1, e)
    ensures LcsLen(a, b, |a|, |b|) == s + e + LcsLen(am, bm, |am|, |bm|)
  {
    var (x, y) := (a[s..], b[s..]);
    LcsAfterPrefix(a, b, s);
    TrimmedRun(a, b, s, i1, j1, e, am, bm, x, y);
    LcsOfTrimmed(x, y, am, bm, e);
  }

  lemma TrimmedRun<T>(a: seq<T>, b: seq<T>, s: nat, i1: nat, j1: nat, e: nat, am: seq<T>, bm: seq<T>,
                      x: seq<T>, y: seq<T>)
    requires s <= i1 && s <= j1 && i1 + e == |a| && j1 + e == |b| && am == a[s..i1] && bm == b[s..j1]
    requires SameRun(a, b, i1, j1, e) && x == a[s..] && y == b[s..]
    ensures am <= x && bm <= y && |am| + e == |x| && |bm| + e == |y| && SameRun(x, y, |am|, |bm|, e)
  {
    RunDrop(a, b, s, i1, j1, e);
  }
}
