/**
  The patience diff of two id sequences: strip the common ends, recurse between anchors,
  fall back to the dense table or to one coarse replacement.
 */
module LineDiff {
  import opened EditScript
  import opened Lcs
  import opened LcsTable
  import opened Patience
  import opened Utils

  const FALLBACK_LCS_CELLS: nat := 1_000_000
  const MAX_PATIENCE_DEPTH: nat := 32

  // ----- What is computed ---------------------------------------------------------------

  /** The two chunks left once the common prefix and suffix are taken off. */
  function Middle(a: seq<Id>, b: seq<Id>): (r: (nat, seq<Id>, seq<Id>)) {
    var s := CommonPrefix(a, b);
    var e := CommonSuffix(a, b, s, |a|, |b|);
    (s, a[s..|a| - e], b[s..|b| - e])
  }

  /** Where gap `k` of an anchor chain starts and ends. */
  function GapStart(c: seq<Pair>, k: nat): (r: Pair)
    requires k <= |c|
  {
    if k == 0 then (0, 0) else (c[k - 1].0 + 1, c[k - 1].1 + 1)
  }

  function GapEnd(a: seq<Id>, b: seq<Id>, c: seq<Pair>, k: nat): (r: Pair)
    requires k <= |c|
  {
    if k < |c| then c[k] else (|a|, |b|)
  }

  /** A chain of equal lines, in order on both sides. */
  ghost predicate CommonChain(a: seq<Id>, b: seq<Id>, c: seq<Pair>) {
    Increasing(c) && forall k :: 0 <= k < |c| ==> c[k].0 < |a| && c[k].1 < |b| && a[c[k].0] == b[c[k].1]
  }

  /** Anchors are equal lines in order. */
  lemma AnchorsAreCommon(a: seq<Id>, b: seq<Id>)
    ensures Anchors(a, b).Some? ==> CommonChain(a, b, Anchors(a, b).value)
  {
    AnchorsAreLongest(a, b, []);
    if Anchors(a, b).Some? {
      var c := Anchors(a, b).value;
      forall k | 0 <= k < |c| ensures c[k].0 < |a| && c[k].1 < |b| && a[c[k].0] == b[c[k].1] {
        assert UniqueMatch(a, b, c[k]);
      }
    }
  }

  lemma GapInRange(a: seq<Id>, b: seq<Id>, c: seq<Pair>, k: nat)
    requires CommonChain(a, b, c) && k <= |c|
    ensures GapStart(c, k).0 <= GapEnd(a, b, c, k).0 <= |a|
    ensures GapStart(c, k).1 <= GapEnd(a, b, c, k).1 <= |b|
  {
  }

  /** The hunks of a chunk pair at recursion depth `depth`, numbered from the chunk's start. */
  ghost function DiffHunks(a: seq<Id>, b: seq<Id>, depth: nat): (r: seq<Hunk>)
    requires depth <= MAX_PATIENCE_DEPTH
    decreases MAX_PATIENCE_DEPTH - depth, 1, 0
  {
    var (s, am, bm) := Middle(a, b);
    ShiftAll(MiddleHunks(am, bm, depth), s, s)
  }

  ghost function MiddleHunks(a: seq<Id>, b: seq<Id>, depth: nat): (r: seq<Hunk>)
    requires depth <= MAX_PATIENCE_DEPTH
    decreases MAX_PATIENCE_DEPTH - depth, 0, 0
  {
    if a == [] && b == [] then []
    else if a == [] || b == [] then [Hunk(0, |a|, 0, |b|)]
    else if depth < MAX_PATIENCE_DEPTH && Anchors(a, b).Some? then
      AnchorsAreCommon(a, b);
      GapHunksTo(a, b, Anchors(a, b).value, |Anchors(a, b).value| + 1, depth + 1)
    else if |a| * |b| <= FALLBACK_LCS_CELLS then LcsHunks(a, b)
    else [Hunk(0, |a|, 0, |b|)]
  }

  /** The hunks of the first `k` gaps around an anchor chain. */
  ghost function GapHunksTo(a: seq<Id>, b: seq<Id>, c: seq<Pair>, k: nat, depth: nat): (r: seq<Hunk>)
    requires CommonChain(a, b, c) && k <= |c| + 1 && depth <= MAX_PATIENCE_DEPTH
    decreases MAX_PATIENCE_DEPTH - depth, 3, k
  {
    if k == 0 then []
    else GapHunksTo(a, b, c, k - 1, depth) + GapHunks(a, b, c, k - 1, depth)
  }

  ghost function GapHunks(a: seq<Id>, b: seq<Id>, c: seq<Pair>, k: nat, depth: nat): (r: seq<Hunk>)
    requires CommonChain(a, b, c) && k <= |c| && depth <= MAX_PATIENCE_DEPTH
    decreases MAX_PATIENCE_DEPTH - depth, 2, 0
  {
    GapInRange(a, b, c, k);
    var (s, e) := (GapStart(c, k), GapEnd(a, b, c, k));
    ShiftAll(DiffHunks(a[s.0..e.0], b[s.1..e.1], depth), s.0, s.1)
  }

  // ----- Correctness ---------------------------------------------------------------------

  /** The stripped ends are common runs: `s` lines in front, `e` lines behind (i1, j1). */
  lemma EndsAgree(a: seq<Id>, b: seq<Id>) returns (s: nat, i1: nat, j1: nat, e: nat)
    ensures s <= i1 && s <= j1 && i1 + e == |a| && j1 + e == |b|
    ensures SameRun(a, b, 0, 0, s) && SameRun(a, b, i1, j1, e)
    ensures Middle(a, b) == (s, a[s..i1], b[s..j1])
    ensures |a| - |Middle(a, b).1| == s + e && |b| - |Middle(a, b).2| == s + e
  {
    s := CommonPrefix(a, b);
    e := CommonSuffix(a, b, s, |a|, |b|);
    i1, j1 := |a| - e, |b| - e;
    PrefixRun(a, b, 0, 0);
    SuffixRun(a, b, s, |a|, |b|, 0);
  }

  lemma MiddleScript(a: seq<Id>, b: seq<Id>, hs: seq<Hunk>)
    requires IsScript(Middle(a, b).1, Middle(a, b).2, hs)
    ensures IsScript(a, b, ShiftAll(hs, Middle(a, b).0, Middle(a, b).0))
  {
    var s, i1, j1, e := EndsAgree(a, b);
    StrippedScript(a, b, s, i1, j1, e, hs);
  }

  lemma CoarseScript(a: seq<Id>, b: seq<Id>)
    requires a != [] || b != []
    ensures IsScript(a, b, [Hunk(0, |a|, 0, |b|)])
  {
    var h := Hunk(0, |a|, 0, |b|);
    ScriptCons(a, b, 0, 0, |a|, |b|, h, []);
    assert [h] + [] == [h];
  }

  /** Whatever mix of stripping, anchors, table and coarse replacement runs, the hunks form
      a script: in range, non-empty, apart, with equal lines everywhere else. */
  lemma {:induction false} DiffIsScript(a: seq<Id>, b: seq<Id>, depth: nat)
    requires depth <= MAX_PATIENCE_DEPTH
    ensures IsScript(a, b, DiffHunks(a, b, depth))
    decreases MAX_PATIENCE_DEPTH - depth, 1, 0
  {
    var (s, am, bm) := Middle(a, b);
    MiddleIsScript(am, bm, depth);
    MiddleScript(a, b, MiddleHunks(am, bm, depth));
  }

  lemma {:induction false} MiddleIsScript(a: seq<Id>, b: seq<Id>, depth: nat)
    requires depth <= MAX_PATIENCE_DEPTH
    ensures IsScript(a, b, MiddleHunks(a, b, depth))
    decreases MAX_PATIENCE_DEPTH - depth, 0, 0
  {
    if a == [] && b == [] {
    } else if a == [] || b == [] {
      CoarseScript(a, b);
    } else if depth < MAX_PATIENCE_DEPTH && Anchors(a, b).Some? {
      AnchorsAreCommon(a, b);
      GapsAreScript(a, b, Anchors(a, b).value, |Anchors(a, b).value| + 1, depth + 1, (|a|, |b|), MiddleHunks(a, b, depth));
    } else if |a| * |b| <= FALLBACK_LCS_CELLS {
      LcsHunksAreScript(a, b);
    } else {
      CoarseScript(a, b);
    }
  }

  /** The hunks of the first `n` gaps bring both sides to where the last of them ends. */
  lemma {:induction false} GapsAreScript(a: seq<Id>, b: seq<Id>, c: seq<Pair>, n: nat, depth: nat, e: Pair, hs: seq<Hunk>)
    requires CommonChain(a, b, c) && 1 <= n <= |c| + 1 && depth <= MAX_PATIENCE_DEPTH
    requires e == GapEnd(a, b, c, n - 1) && hs == GapHunksTo(a, b, c, n, depth)
    ensures Script(a, b, 0, 0, e.0, e.1, hs)
    decreases MAX_PATIENCE_DEPTH - depth, 3, n
  {
    var m := n - 1;
    if m == 0 {
      GapIsScript(a, b, c, m, depth, (0, 0), e, hs);
    } else {
      var gs := GapHunksTo(a, b, c, m, depth);
      GapsAreScript(a, b, c, m, depth, c[m - 1], gs);
      GapExtends(a, b, c, m, depth, c[m - 1], e, gs, hs);
    }
  }

  lemma {:induction false} GapExtends(a: seq<Id>, b: seq<Id>, c: seq<Pair>, m: nat, depth: nat,
                                      p: Pair, e: Pair, gs: seq<Hunk>, hs: seq<Hunk>)
    requires CommonChain(a, b, c) && 0 < m <= |c| && depth <= MAX_PATIENCE_DEPTH
    requires p == c[m - 1] && e == GapEnd(a, b, c, m) && hs == gs + GapHunks(a, b, c, m, depth)
    requires Script(a, b, 0, 0, p.0, p.1, gs)
    ensures Script(a, b, 0, 0, e.0, e.1, hs)
    decreases MAX_PATIENCE_DEPTH - depth, 3, 0
  {
    var (s, ks) := (GapStart(c, m), GapHunks(a, b, c, m, depth));
    GapIsScript(a, b, c, m, depth, s, e, ks);
    assert p.0 < |a| && p.1 < |b| && a[p.0] == b[p.1];
    ScriptAround(a, b, 0, 0, p.0, p.1, s.0, s.1, e.0, e.1, gs, ks);
  }

  lemma {:induction false} GapIsScript(a: seq<Id>, b: seq<Id>, c: seq<Pair>, k: nat, depth: nat,
                                       s: Pair, e: Pair, hs: seq<Hunk>)
    requires CommonChain(a, b, c) && k <= |c| && depth <= MAX_PATIENCE_DEPTH
    requires s == GapStart(c, k) && e == GapEnd(a, b, c, k) && hs == GapHunks(a, b, c, k, depth)
    ensures Script(a, b, s.0, s.1, e.0, e.1, hs)
    decreases MAX_PATIENCE_DEPTH - depth, 2, 0
  {
    GapInRange(a, b, c, k);
    DiffIsScript(a[s.0..e.0], b[s.1..e.1], depth);
    ScriptOfSlices(a, b, s.0, s.1, e.0, e.1, DiffHunks(a[s.0..e.0], b[s.1..e.1], depth));
  }

  ghost predicate InGap(s: Pair, e: Pair, h: Hunk) {
    s.0 <= h.oldStart && h.OldEnd() <= e.0 && s.1 <= h.newStart && h.NewEnd() <= e.1
  }

  lemma {:induction false} HunkInSomeGap(a: seq<Id>, b: seq<Id>, c: seq<Pair>, n: nat, depth: nat, l: nat)
    returns (m: nat)
    requires CommonChain(a, b, c) && n <= |c| + 1 && depth <= MAX_PATIENCE_DEPTH
    requires l < |GapHunksTo(a, b, c, n, depth)|
    ensures m < n && InGap(GapStart(c, m), GapEnd(a, b, c, m), GapHunksTo(a, b, c, n, depth)[l])
    decreases n
  {
    m := n - 1;
    var gs := GapHunksTo(a, b, c, m, depth);
    if l < |gs| {
      m := HunkInSomeGap(a, b, c, m, depth, l);
    } else {
      var (s, e, ks) := (GapStart(c, m), GapEnd(a, b, c, m), GapHunks(a, b, c, m, depth));
      GapIsScript(a, b, c, m, depth, s, e, ks);
      ScriptOrdered(a, b, s.0, s.1, e.0, e.1, ks, l - |gs|);
    }
  }

  /** Anchors are kept: no hunk covers an anchor line, on either side. */
  lemma AnchorsAreKept(a: seq<Id>, b: seq<Id>, depth: nat, k: nat, l: nat)
    requires a != [] && b != [] && depth < 32 && Anchors(a, b).Some?
    requires k < |Anchors(a, b).value| && l < |MiddleHunks(a, b, depth)|
    ensures var (p, h) := (Anchors(a, b).value[k], MiddleHunks(a, b, depth)[l]);
            !(h.oldStart <= p.0 < h.OldEnd()) && !(h.newStart <= p.1 < h.NewEnd())
  {
    var c := Anchors(a, b).value;
    AnchorsAreCommon(a, b);
    GapsKeepAnchors(a, b, c, |c| + 1, depth + 1, k, l);
  }

  lemma GapsKeepAnchors(a: seq<Id>, b: seq<Id>, c: seq<Pair>, n: nat, depth: nat, k: nat, l: nat)
    requires CommonChain(a, b, c) && n <= |c| + 1 && depth <= MAX_PATIENCE_DEPTH
    requires k < |c| && l < |GapHunksTo(a, b, c, n, depth)|
    ensures var (p, h) := (c[k], GapHunksTo(a, b, c, n, depth)[l]);
            !(h.oldStart <= p.0 < h.OldEnd()) && !(h.newStart <= p.1 < h.NewEnd())
  {
    var m := HunkInSomeGap(a, b, c, n, depth, l);
    OutsideGap(a, b, c, k, m);
  }

  lemma OutsideGap(a: seq<Id>, b: seq<Id>, c: seq<Pair>, k: nat, m: nat)
    requires CommonChain(a, b, c) && k < |c| && m <= |c|
    ensures var (s, e) := (GapStart(c, m), GapEnd(a, b, c, m));
            !(s.0 <= c[k].0 < e.0) && !(s.1 <= c[k].1 < e.1)
  {
    if k < m {
      assert c[k].0 <= c[m - 1].0 && c[k].1 <= c[m - 1].1;
    } else {
      assert c[m].0 <= c[k].0 && c[m].1 <= c[k].1;
    }
  }

  /** Nothing is reported exactly when the sequences are equal. */
  lemma NoHunksIffEqual(a: seq<Id>, b: seq<Id>, depth: nat)
    requires depth <= MAX_PATIENCE_DEPTH
    ensures DiffHunks(a, b, depth) == [] <==> a == b
  {
    DiffIsScript(a, b, depth);
    if a == b { PrefixRun(a, b, 0, |a|); }
    if DiffHunks(a, b, depth) == [] {
      RunSlice(a, b, 0, 0, |a|);
      assert a[0..|a|] == a && b[0..|b|] == b;
    }
  }

  // ----- How much is reported ------------------------------------------------------------

  /** The gaps of a chain change no more than their own lines: every anchor saves two. */
  lemma {:induction false} GapsChange(a: seq<Id>, b: seq<Id>, c: seq<Pair>, m: nat, n: nat, depth: nat, e: Pair)
    requires CommonChain(a, b, c) && m <= |c| && n == m + 1 && depth <= MAX_PATIENCE_DEPTH
    requires e == GapEnd(a, b, c, m)
    ensures Changed(GapHunksTo(a, b, c, n, depth)) + 2 * m <= e.0 + e.1
    decreases m
  {
    var (s, ks) := (GapStart(c, m), GapHunks(a, b, c, m, depth));
    GapIsScript(a, b, c, m, depth, s, e, ks);
    ScriptChangesAtMost(a, b, s.0, s.1, e.0, e.1, ks);
    ChangedConcat(GapHunksTo(a, b, c, m, depth), ks);
    if m > 0 { GapsChange(a, b, c, m - 1, m, depth, c[m - 1]); }
  }

  /** How many anchors a stripped chunk is split at. */
  ghost function AnchorsUsed(a: seq<Id>, b: seq<Id>, depth: nat): (r: nat) {
    if a != [] && b != [] && depth < MAX_PATIENCE_DEPTH && Anchors(a, b).Some? then |Anchors(a, b).value| else 0
  }

  lemma MiddleChangesAtMost(a: seq<Id>, b: seq<Id>, depth: nat)
    requires depth <= MAX_PATIENCE_DEPTH
    ensures Changed(MiddleHunks(a, b, depth)) + 2 * AnchorsUsed(a, b, depth) <= |a| + |b|
  {
    if a != [] && b != [] && depth < MAX_PATIENCE_DEPTH && Anchors(a, b).Some? {
      var c := Anchors(a, b).value;
      AnchorsAreCommon(a, b);
      GapsChange(a, b, c, |c|, |c| + 1, depth + 1, (|a|, |b|));
    } else {
      MiddleIsScript(a, b, depth);
      ScriptChangesAtMost(a, b, 0, 0, |a|, |b|, MiddleHunks(a, b, depth));
    }
  }

  /** Whatever path a chunk takes, it reports no stripped line and no anchor as changed. */
  lemma DiffChangesAtMost(a: seq<Id>, b: seq<Id>, depth: nat)
    requires depth <= MAX_PATIENCE_DEPTH
    ensures var (s, am, bm) := Middle(a, b);
            Changed(DiffHunks(a, b, depth)) + 2 * AnchorsUsed(am, bm, depth) <= |am| + |bm|
  {
    var (s, am, bm) := Middle(a, b);
    ChangedShift(MiddleHunks(am, bm, depth), s, s);
    MiddleChangesAtMost(am, bm, depth);
  }

  /** The chunk left after stripping is diffed without approximation: it is empty on one side,
      or of at most a million cells and without anchors. */
  ghost predicate Exact(a: seq<Id>, b: seq<Id>, depth: nat) {
    || a == [] || b == []
    || ((depth == MAX_PATIENCE_DEPTH || Anchors(a, b).None?) && |a| * |b| <= 1_000_000)
  }

  lemma MiddleChanged(a: seq<Id>, b: seq<Id>, depth: nat)
    requires depth <= MAX_PATIENCE_DEPTH && Exact(a, b, depth)
    ensures Changed(MiddleHunks(a, b, depth)) == |a| + |b| - 2 * LcsLen(a, b, |a|, |b|)
  {
    if a != [] && b != [] {
      LcsHunksAreScript(a, b);
    }
  }

  /** Wherever neither anchors nor the coarse bound cut in, the diff changes as few lines as
      any script of the two texts. */
  lemma DiffIsMinimal(a: seq<Id>, b: seq<Id>, depth: nat, hs: seq<Hunk>)
    requires depth <= MAX_PATIENCE_DEPTH
    requires var (s, am, bm) := Middle(a, b); Exact(am, bm, depth)
    requires IsScript(a, b, hs)
    ensures Changed(DiffHunks(a, b, depth)) <= Changed(hs)
  {
    var (s, am, bm) := Middle(a, b);
    MiddleChanged(am, bm, depth);
    ChangedShift(MiddleHunks(am, bm, depth), s, s);
    MiddleLcs(a, b, am, bm);
    ScriptsChangeAtLeast(a, b, hs);
  }

  /** Taking `s` lines off the front and as many off both ends as will go leaves `am` and `bm`. */
  ghost predicate Stripped<T(!new)>(a: seq<T>, b: seq<T>, s: nat, am: seq<T>, bm: seq<T>) {
    var (i, j) := (s + |am|, s + |bm|);
    && i <= |a| && j <= |b| && |a| - i == |b| - j && am == a[s..i] && bm == b[s..j]
    && SameRun(a, b, 0, 0, s) && SameRun(a, b, i, j, |a| - i)
    && (s < |a| && s < |b| ==> a[s] != b[s])
    && (s < i && s < j ==> a[i - 1] != b[j - 1])
  }

  /** The stripping is the longest possible on both ends, the front first. */
  lemma StrippedIffMiddle(a: seq<Id>, b: seq<Id>, s: nat, am: seq<Id>, bm: seq<Id>)
    ensures Stripped(a, b, s, am, bm) <==> Middle(a, b) == (s, am, bm)
  {
    if Stripped(a, b, s, am, bm) {
      StrippedIsMiddle(a, b, s, am, bm, |a| - s - |am|);
    }
    if Middle(a, b) == (s, am, bm) {
      MiddleIsStripped(a, b, s, am, bm);
    }
  }

  lemma StrippedIsMiddle(a: seq<Id>, b: seq<Id>, s: nat, am: seq<Id>, bm: seq<Id>, e: nat)
    requires Stripped(a, b, s, am, bm) && e == |a| - s - |am|
    ensures Middle(a, b) == (s, am, bm)
  {
    PrefixIs(a, b, s);
    SuffixIs(a, b, s, s + |am|, s + |bm|, e);
  }

  lemma MiddleIsStripped(a: seq<Id>, b: seq<Id>, s: nat, am: seq<Id>, bm: seq<Id>)
    requires Middle(a, b) == (s, am, bm)
    ensures Stripped(a, b, s, am, bm)
  {
    var n, i1, j1, e := EndsAgree(a, b);
    PrefixStops(a, b);
    SuffixStops(a, b, s, i1, j1, e);
  }

  /** No line occurs exactly once on each side. */
  ghost predicate NothingUnique(a: seq<Id>, b: seq<Id>) {
    forall x :: !(multiset(a)[x] == 1 && multiset(b)[x] == 1)
  }

  lemma NothingUniqueIff(a: seq<Id>, b: seq<Id>)
    ensures NothingUnique(a, b) <==> Anchors(a, b).None?
  {
    AnchorsAreLongest(a, b, []);
    if Anchors(a, b).Some? {
      var p := Anchors(a, b).value[0];
      assert UniqueMatch(a, b, p);
    } else {
      forall x ensures !(multiset(a)[x] == 1 && multiset(b)[x] == 1) {
        if multiset(a)[x] == 1 && multiset(b)[x] == 1 {
          assert x in multiset(a) && x in multiset(b);
          var i: nat :| i < |a| && a[i] == x;
          var j: nat :| j < |b| && b[j] == x;
          assert AnchorChain(a, b, [(i, j)]);
          AnchorsAreLongest(a, b, [(i, j)]);
        }
      }
    }
  }

  /** All of it is replaced at once: only one side has lines, or both have very many. */
  predicate OneBlock(a: seq<Id>, b: seq<Id>) {
    ((a == []) != (b == [])) || |a| * |b| > 1_000_000
  }

  /** Where no line is unique on both sides, a chunk of up to a million cells is diffed as well as
      any script can; a larger one is replaced whole. */
  lemma WithoutAnchors(a: seq<Id>, b: seq<Id>, depth: nat, s: nat, am: seq<Id>, bm: seq<Id>)
    requires depth <= 32 && Stripped(a, b, s, am, bm) && NothingUnique(am, bm)
    ensures |am| * |bm| <= 1_000_000 ==>
      forall hs | IsScript(a, b, hs) :: Changed(DiffHunks(a, b, depth)) <= Changed(hs)
    ensures OneBlock(am, bm) ==>
      DiffHunks(a, b, depth) == [Hunk(s, |am|, s, |bm|)]
  {
    StrippedIffMiddle(a, b, s, am, bm);
    assert ShiftAll([Hunk(0, |am|, 0, |bm|)], s, s) == [Hunk(s, |am|, s, |bm|)];
    NothingUniqueIff(am, bm);
    if |am| * |bm| <= 1_000_000 {
      forall hs | IsScript(a, b, hs) ensures Changed(DiffHunks(a, b, depth)) <= Changed(hs) {
        DiffIsMinimal(a, b, depth, hs);
      }
    } else {
      assert MiddleHunks(am, bm, depth) == [Hunk(0, |am|, 0, |bm|)];
    }
  }

  lemma MiddleLcs(a: seq<Id>, b: seq<Id>, am: seq<Id>, bm: seq<Id>)
    requires Middle(a, b).1 == am && Middle(a, b).2 == bm
    ensures |a| - |am| == |b| - |bm|
    ensures LcsLen(a, b, |a|, |b|) == |a| - |am| + LcsLen(am, bm, |am|, |bm|)
  {
    var s, i1, j1, e := EndsAgree(a, b);
    LcsOfMiddle(a, b, s, i1, j1, e, am, bm);
  }

  // ----- How many lines are looked at ------------------------------------------------------

  /** The lines of a chunk pair and of all chunks the recursion makes of it. */
  ghost function DiffLines(a: seq<Id>, b: seq<Id>, depth: nat): (r: nat)
    requires depth <= MAX_PATIENCE_DEPTH
    decreases MAX_PATIENCE_DEPTH - depth, 1, 0
  {
    var (s, am, bm) := Middle(a, b);
    |a| + |b| + MiddleLines(am, bm, depth)
  }

  ghost function MiddleLines(a: seq<Id>, b: seq<Id>, depth: nat): (r: nat)
    requires depth <= MAX_PATIENCE_DEPTH
    decreases MAX_PATIENCE_DEPTH - depth, 0, 0
  {
    if a != [] && b != [] && depth < MAX_PATIENCE_DEPTH && Anchors(a, b).Some? then
      AnchorsAreCommon(a, b);
      GapLinesTo(a, b, Anchors(a, b).value, |Anchors(a, b).value| + 1, depth + 1)
    else 0
  }

  ghost function GapLinesTo(a: seq<Id>, b: seq<Id>, c: seq<Pair>, k: nat, depth: nat): (r: nat)
    requires CommonChain(a, b, c) && k <= |c| + 1 && depth <= MAX_PATIENCE_DEPTH
    decreases MAX_PATIENCE_DEPTH - depth, 3, k
  {
    if k == 0 then 0 else GapLinesTo(a, b, c, k - 1, depth) + GapLines(a, b, c, k - 1, depth)
  }

  ghost function GapLines(a: seq<Id>, b: seq<Id>, c: seq<Pair>, k: nat, depth: nat): (r: nat)
    requires CommonChain(a, b, c) && k <= |c| && depth <= MAX_PATIENCE_DEPTH
    decreases MAX_PATIENCE_DEPTH - depth, 2, 0
  {
    GapInRange(a, b, c, k);
    var (s, e) := (GapStart(c, k), GapEnd(a, b, c, k));
    DiffLines(a[s.0..e.0], b[s.1..e.1], depth)
  }

  /** Every line is looked at once a depth at most. */
  lemma {:induction false} LinesBounded(a: seq<Id>, b: seq<Id>, depth: nat, rounds: nat)
    requires depth <= MAX_PATIENCE_DEPTH && rounds == MAX_PATIENCE_DEPTH - depth
    ensures DiffLines(a, b, depth) <= (rounds + 1) * (|a| + |b|)
    decreases MAX_PATIENCE_DEPTH - depth, 1, 0
  {
    var s, i1, j1, e := EndsAgree(a, b);
    var (am, bm) := (a[s..i1], b[s..j1]);
    MiddleLinesBounded(am, bm, depth, rounds);
    AddRound(DiffLines(a, b, depth), MiddleLines(am, bm, depth), rounds, |am| + |bm|, |a| + |b|);
  }

  lemma AllLinesBounded(a: seq<Id>, b: seq<Id>, depth: nat, lines: nat)
    requires depth == 0 && lines == DiffLines(a, b, depth)
    ensures lines <= 33 * (|a| + |b|)
  {
    LinesBounded(a, b, depth, MAX_PATIENCE_DEPTH);
  }

  lemma AddRound(lines: nat, rest: nat, rounds: nat, m: nat, n: nat)
    requires m <= n && rest <= rounds * m && lines == n + rest
    ensures lines <= (rounds + 1) * n
  {
    MulMonotone(m, n, rounds);
    assert rounds * n + n == (rounds + 1) * n;
  }

  lemma {:induction false} MiddleLinesBounded(a: seq<Id>, b: seq<Id>, depth: nat, rounds: nat)
    requires depth <= MAX_PATIENCE_DEPTH && rounds == MAX_PATIENCE_DEPTH - depth
    ensures MiddleLines(a, b, depth) <= rounds * (|a| + |b|)
    decreases MAX_PATIENCE_DEPTH - depth, 0, 0
  {
    if a != [] && b != [] && depth < MAX_PATIENCE_DEPTH && Anchors(a, b).Some? {
      AnchorsAreCommon(a, b);
      var (c, e) := (Anchors(a, b).value, (|a|, |b|));
      GapLinesBounded(a, b, c, |c|, |c| + 1, depth + 1, rounds, e);
      assert MiddleLines(a, b, depth) == GapLinesTo(a, b, c, |c| + 1, depth + 1);
    }
  }

  /** The lines of the gaps up to gap `k`, which ends at `e`. */
  lemma {:induction false} GapLinesBounded(a: seq<Id>, b: seq<Id>, c: seq<Pair>, k: nat, next: nat, depth: nat,
                                           rounds: nat, e: Pair)
    requires CommonChain(a, b, c) && k <= |c| && next == k + 1 && e == GapEnd(a, b, c, k)
    requires depth <= MAX_PATIENCE_DEPTH && rounds == MAX_PATIENCE_DEPTH - depth + 1
    ensures GapLinesTo(a, b, c, next, depth) <= rounds * (e.0 + e.1)
    decreases MAX_PATIENCE_DEPTH - depth, 3, k
  {
    var s := GapStart(c, k);
    GapInRange(a, b, c, k);
    var n := (e.0 - s.0) + (e.1 - s.1);
    OneGapBounded(a, b, c, k, depth, rounds, s, e, n);
    if k > 0 {
      var p := c[k - 1];
      GapLinesBounded(a, b, c, k - 1, k, depth, rounds, p);
      LinesAdd(GapLinesTo(a, b, c, k, depth), GapLines(a, b, c, k, depth), rounds, p.0 + p.1, n, e.0 + e.1);
    }
  }

  lemma {:induction false} OneGapBounded(a: seq<Id>, b: seq<Id>, c: seq<Pair>, k: nat, depth: nat,
                                         rounds: nat, s: Pair, e: Pair, n: nat)
    requires CommonChain(a, b, c) && k <= |c| && s == GapStart(c, k) && e == GapEnd(a, b, c, k)
    requires depth <= MAX_PATIENCE_DEPTH && rounds == MAX_PATIENCE_DEPTH - depth + 1 && n == (e.0 - s.0) + (e.1 - s.1)
    ensures GapLines(a, b, c, k, depth) <= rounds * n
    decreases MAX_PATIENCE_DEPTH - depth, 2, 0
  {
    GapInRange(a, b, c, k);
    LinesBounded(a[s.0..e.0], b[s.1..e.1], depth, rounds - 1);
  }

  lemma LinesAdd(done: nat, more: nat, rounds: nat, m: nat, n: nat, t: nat)
    requires done <= rounds * m && more <= rounds * n && m + n <= t
    ensures done + more <= rounds * t
  {
    assert rounds * m + rounds * n == rounds * (m + n);
    MulMonotone(m + n, t, rounds);
  }

  // ----- The program ------------------------------------------------------------------------

  /** Strip the common prefix. */
  method StripPrefix(a: seq<Id>, b: seq<Id>) returns (start: nat)
    ensures start == CommonPrefix(a, b)
  {
    start := 0;
    var minLen := Min(|a|, |b|);
    while start < minLen && a[start] == b[start]
      invariant start <= minLen && PrefixFrom(a, b, 0) == PrefixFrom(a, b, start)
    {
      start := start + 1;
    }
  }

  /** Strip the common suffix without running into the prefix. */
  method StripSuffix(a: seq<Id>, b: seq<Id>, start: nat) returns (oldEnd: nat, newEnd: nat)
    requires start <= |a| && start <= |b|
    ensures oldEnd == |a| - CommonSuffix(a, b, start, |a|, |b|)
    ensures newEnd == |b| - CommonSuffix(a, b, start, |a|, |b|)
  {
    oldEnd, newEnd := |a|, |b|;
    while oldEnd > start && newEnd > start && a[oldEnd - 1] == b[newEnd - 1]
      invariant start <= oldEnd <= |a| && start <= newEnd <= |b| && |a| - oldEnd == |b| - newEnd
      invariant CommonSuffix(a, b, start, |a|, |b|) == |a| - oldEnd + CommonSuffix(a, b, start, oldEnd, newEnd)
    {
      oldEnd, newEnd := oldEnd - 1, newEnd - 1;
    }
  }

  /** The middles of two chunks, and where they start. */
  method StripEnds(a: seq<Id>, b: seq<Id>) returns (start: nat, oldMid: seq<Id>, newMid: seq<Id>)
    ensures Middle(a, b) == (start, oldMid, newMid) && Stripped(a, b, start, oldMid, newMid)
    ensures start + |oldMid| <= |a| && start + |newMid| <= |b|
  {
    start := StripPrefix(a, b);
    var oldEnd, newEnd := StripSuffix(a, b, start);
    oldMid, newMid := a[start..oldEnd], b[start..newEnd];
    MiddleIsStripped(a, b, start, oldMid, newMid);
  }

  /** Diff two chunks that start at `oldBase`/`newBase`, appending absolute hunks to `out`.
      `cells` counts the dense-table cells computed, `lines` the lines of all chunks diffed. */
  method DiffRange(a: seq<Id>, b: seq<Id>, oldBase: nat, newBase: nat, depth: nat, out: HunkList)
    returns (ghost cells: nat, ghost lines: nat)
    requires depth <= MAX_PATIENCE_DEPTH
    requires oldBase + |a| < U32_RANGE && newBase + |b| < U32_RANGE
    modifies out
    ensures out.hunks == old(out.hunks) + ShiftAll(DiffHunks(a, b, depth), oldBase, newBase)
    ensures cells <= FALLBACK_LCS_CELLS * Min(|a|, |b|) && lines == DiffLines(a, b, depth)
    decreases MAX_PATIENCE_DEPTH - depth, 1, 0
  {
    var start, oldMid, newMid := StripEnds(a, b);
    var oldMidBase, newMidBase := oldBase + AsU32(start), newBase + AsU32(start);
    StripPushed(a, b, start, oldMid, newMid, depth, oldBase, newBase);
    cells, lines := DiffMiddle(oldMid, newMid, oldMidBase, newMidBase, depth, out);
    lines := |a| + |b| + lines;
  }

  lemma StripPushed(a: seq<Id>, b: seq<Id>, s: nat, am: seq<Id>, bm: seq<Id>, depth: nat, ob: nat, nb: nat)
    requires depth <= MAX_PATIENCE_DEPTH && Middle(a, b) == (s, am, bm)
    ensures ShiftAll(DiffHunks(a, b, depth), ob, nb) == ShiftAll(MiddleHunks(am, bm, depth), ob + s, nb + s)
  {
    ShiftTwice(MiddleHunks(am, bm, depth), s, s, ob, nb);
  }

  /** The rest of the range diff, once the common ends are off. */
  method DiffMiddle(a: seq<Id>, b: seq<Id>, oldBase: nat, newBase: nat, depth: nat, out: HunkList)
    returns (ghost cells: nat, ghost lines: nat)
    requires depth <= MAX_PATIENCE_DEPTH
    requires oldBase + |a| < U32_RANGE && newBase + |b| < U32_RANGE
    modifies out
    ensures out.hunks == old(out.hunks) + ShiftAll(MiddleHunks(a, b, depth), oldBase, newBase)
    ensures cells <= FALLBACK_LCS_CELLS * Min(|a|, |b|) && lines == MiddleLines(a, b, depth)
    decreases MAX_PATIENCE_DEPTH - depth, 0, 0
  {
    cells, lines := 0, 0;
    if a == [] && b == [] {
      return;
    }
    if a == [] || b == [] {
      out.Push(Hunk(oldBase, AsU32(|a|), newBase, AsU32(|b|)));
      return;
    }
    if depth < MAX_PATIENCE_DEPTH {
      var anchors := PatienceAnchors(a, b);
      if anchors.Some? {
        AnchorsAreCommon(a, b);
        cells, lines := DiffGaps(a, b, oldBase, newBase, anchors.value, depth + 1, out);
        return;
      }
    }
    if |a| * |b| <= FALLBACK_LCS_CELLS {
      cells := LcsDiff(a, b, oldBase, newBase, out);
    } else {
      out.Push(Hunk(oldBase, AsU32(|a|), newBase, AsU32(|b|)));
    }
  }

  /** Recurse into the gaps around the anchor chain. */
  method DiffGaps(a: seq<Id>, b: seq<Id>, oldBase: nat, newBase: nat, anchors: seq<Pair>, depth: nat, out: HunkList)
    returns (ghost cells: nat, ghost lines: nat)
    requires CommonChain(a, b, anchors) && depth <= MAX_PATIENCE_DEPTH
    requires oldBase + |a| < U32_RANGE && newBase + |b| < U32_RANGE
    modifies out
    ensures out.hunks == old(out.hunks) + ShiftAll(GapHunksTo(a, b, anchors, |anchors| + 1, depth), oldBase, newBase)
    ensures cells <= FALLBACK_LCS_CELLS * Min(|a|, |b|) && lines == GapLinesTo(a, b, anchors, |anchors| + 1, depth)
    decreases MAX_PATIENCE_DEPTH - depth, 2, 0
  {
    var prevOld: nat, prevNew: nat := 0, 0;
    cells, lines := 0, 0;
    for k := 0 to |anchors|
      invariant (prevOld, prevNew) == GapStart(anchors, k)
      invariant out.hunks == old(out.hunks) + ShiftAll(GapHunksTo(a, b, anchors, k, depth), oldBase, newBase)
      invariant cells <= FALLBACK_LCS_CELLS * Min(prevOld, prevNew) && lines == GapLinesTo(a, b, anchors, k, depth)
    {
      ghost var gap, seen :=
        DiffGap(a, b, oldBase, newBase, anchors, k, prevOld, prevNew, anchors[k].0, anchors[k].1, depth, out);
      GapPushed(a, b, anchors, k, depth, oldBase, newBase, old(out.hunks));
      WorkAdds(cells, gap, prevOld, prevNew, anchors[k].0, anchors[k].1);
      cells, lines := cells + gap, lines + seen;
      prevOld, prevNew := anchors[k].0 + 1, anchors[k].1 + 1;
    }
    ghost var gap, seen := DiffGap(a, b, oldBase, newBase, anchors, |anchors|, prevOld, prevNew, |a|, |b|, depth, out);
    GapPushed(a, b, anchors, |anchors|, depth, oldBase, newBase, old(out.hunks));
    WorkAdds(cells, gap, prevOld, prevNew, |a|, |b|);
    cells, lines := cells + gap, lines + seen;
  }

  lemma WorkAdds(done: nat, more: nat, i: nat, j: nat, i2: nat, j2: nat)
    requires i <= i2 && j <= j2
    requires done <= FALLBACK_LCS_CELLS * Min(i, j) && more <= FALLBACK_LCS_CELLS * Min(i2 - i, j2 - j)
    ensures done + more <= FALLBACK_LCS_CELLS * Min(i2, j2)
    ensures Min(i2, j2) <= Min(i2 + 1, j2 + 1)
  {
  }

  lemma GapPushed(a: seq<Id>, b: seq<Id>, c: seq<Pair>, k: nat, depth: nat, ob: nat, nb: nat, pre: seq<Hunk>)
    requires CommonChain(a, b, c) && k <= |c| && depth <= MAX_PATIENCE_DEPTH
    ensures pre + ShiftAll(GapHunksTo(a, b, c, k + 1, depth), ob, nb)
         == pre + ShiftAll(GapHunksTo(a, b, c, k, depth), ob, nb) + ShiftAll(GapHunks(a, b, c, k, depth), ob, nb)
  {
    ShiftConcat(GapHunksTo(a, b, c, k, depth), GapHunks(a, b, c, k, depth), ob, nb);
  }

  /** Diff the stretch between two anchors. */
  method DiffGap(a: seq<Id>, b: seq<Id>, oldBase: nat, newBase: nat, ghost c: seq<Pair>, ghost k: nat,
                 prevOld: nat, prevNew: nat, nextOld: nat, nextNew: nat, depth: nat, out: HunkList)
    returns (ghost cells: nat, ghost lines: nat)
    requires CommonChain(a, b, c) && k <= |c| && depth <= MAX_PATIENCE_DEPTH
    requires (prevOld, prevNew) == GapStart(c, k) && (nextOld, nextNew) == GapEnd(a, b, c, k)
    requires oldBase + |a| < U32_RANGE && newBase + |b| < U32_RANGE
    modifies out
    ensures prevOld <= nextOld <= |a| && prevNew <= nextNew <= |b|
    ensures out.hunks == old(out.hunks) + ShiftAll(GapHunks(a, b, c, k, depth), oldBase, newBase)
    ensures cells <= FALLBACK_LCS_CELLS * Min(nextOld - prevOld, nextNew - prevNew)
    ensures lines == GapLines(a, b, c, k, depth)
    decreases MAX_PATIENCE_DEPTH - depth, 1, 1
  {
    GapInRange(a, b, c, k);
    var (ga, gb) := (a[prevOld..nextOld], b[prevNew..nextNew]);
    cells, lines := DiffRange(ga, gb, oldBase + prevOld, newBase + prevNew, depth, out);
    ShiftTwice(DiffHunks(ga, gb, depth), prevOld, prevNew, oldBase, newBase);
  }

  /** Diff two pre-interned line sequences. */
  method DiffInternedLines(oldIds: seq<Id>, newIds: seq<Id>)
    returns (hunks: seq<Hunk>, ghost cells: nat, ghost lines: nat)
    requires |oldIds| < U32_RANGE && |newIds| < U32_RANGE
    ensures hunks == DiffHunks(oldIds, newIds, 0)
    ensures IsScript(oldIds, newIds, hunks)
    ensures Replayable(hunks, 0, |oldIds|, |newIds|) && Replay(oldIds, newIds, hunks, 0) == newIds
    ensures hunks == [] <==> oldIds == newIds
    ensures forall s, am, bm | Stripped(oldIds, newIds, s, am, bm) && NothingUnique(am, bm) ::
              && (|am| * |bm| <= 1_000_000 ==>
                    forall hs | IsScript(oldIds, newIds, hs) :: Changed(hunks) <= Changed(hs))
              && (OneBlock(am, bm) ==>
                    hunks == [Hunk(s, |am|, s, |bm|)])
    ensures cells <= 1_000_000 * Min(|oldIds|, |newIds|) && lines <= 33 * (|oldIds| + |newIds|)
  {
    var out := new HunkList();
    cells, lines := DiffRange(oldIds, newIds, 0, 0, 0, out);
    hunks := out.hunks;
    assert hunks == DiffHunks(oldIds, newIds, 0);
    DiffReplays(oldIds, newIds, 0, hunks);
    AllLinesBounded(oldIds, newIds, 0, lines);
    forall s, am, bm | Stripped(oldIds, newIds, s, am, bm) && NothingUnique(am, bm)
      ensures |am| * |bm| <= 1_000_000 ==>
        forall hs | IsScript(oldIds, newIds, hs) :: Changed(hunks) <= Changed(hs)
      ensures OneBlock(am, bm) ==> hunks == [Hunk(s, |am|, s, |bm|)]
    {
      WithoutAnchors(oldIds, newIds, 0, s, am, bm);
    }
  }

  lemma DiffReplays(a: seq<Id>, b: seq<Id>, depth: nat, hs: seq<Hunk>)
    requires depth <= MAX_PATIENCE_DEPTH && hs == DiffHunks(a, b, depth)
    ensures IsScript(a, b, hs) && (hs == [] <==> a == b)
    ensures Replayable(hs, 0, |a|, |b|) && Replay(a, b, hs, 0) == b
  {
    DiffIsScript(a, b, depth);
    ScriptReplays(a, b, 0, 0, hs);
    NoHunksIffEqual(a, b, depth);
  }
}
