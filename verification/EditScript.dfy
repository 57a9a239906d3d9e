/**
  Hunks and edit scripts.

  A hunk names a run of old elements and the run of new elements that replaces it.
  A list of hunks is a script when the stretches between the hunks are equal on both
  sides and no two hunks touch. The definition is generic: the same script relates
  interned ids, line tokens and, once lifted, bytes.
 */
module EditScript {
  import opened Utils

  datatype Hunk = Hunk(oldStart: nat, oldCount: nat, newStart: nat, newCount: nat) {
    function OldEnd(): nat { oldStart + oldCount }
    function NewEnd(): nat { newStart + newCount }
    function Shift(i: nat, j: nat): Hunk { Hunk(i + oldStart, oldCount, j + newStart, newCount) }
  }

  /** The `n` elements of `a` at `i` are those of `b` at `j`. */
  ghost predicate SameRun<T>(a: seq<T>, b: seq<T>, i: nat, j: nat, n: int) {
    && i + n <= |a| && j + n <= |b|
    && forall p :: i <= p < i + n ==> a[p] == b[p - i + j]
  }

  /** The common prefix is a common run, and no common run from the start is longer. */
  lemma {:induction false} PrefixRun<T>(a: seq<T>, b: seq<T>, k: nat, p: nat)
    requires k <= |a| && k <= |b| && k <= p && SameRun(a, b, k, k, p - k)
    ensures p <= PrefixFrom(a, b, k) && SameRun(a, b, k, k, PrefixFrom(a, b, k) - k)
    decreases |a| - k
  {
    if k < |a| && k < |b| && a[k] == b[k] { PrefixRun(a, b, k + 1, if k < p then p else k + 1); }
  }

  /** The common suffix is a common run, and no common run at the end is longer. */
  lemma {:induction false} SuffixRun<T>(a: seq<T>, b: seq<T>, s: nat, i: nat, j: nat, q: nat)
    requires s + q <= i <= |a| && s + q <= j <= |b| && SameRun(a, b, i - q, j - q, q)
    ensures q <= CommonSuffix(a, b, s, i, j)
    ensures var r := CommonSuffix(a, b, s, i, j); SameRun(a, b, i - r, j - r, r)
    decreases i
  {
    if q > 0 { assert a[i - 1] == b[j - 1]; }
    if i > s && j > s && a[i - 1] == b[j - 1] {
      SuffixRun(a, b, s, i - 1, j - 1, if q > 0 then q - 1 else 0);
    }
  }

  /** The common prefix ends where the elements differ or run out, and nothing else is it. */
  lemma PrefixIs<T>(a: seq<T>, b: seq<T>, s: nat)
    requires SameRun(a, b, 0, 0, s) && (s < |a| && s < |b| ==> a[s] != b[s])
    ensures CommonPrefix(a, b) == s
  {
    PrefixRun(a, b, 0, s);
  }

  lemma PrefixStops<T>(a: seq<T>, b: seq<T>)
    ensures var s := CommonPrefix(a, b); s < |a| && s < |b| ==> a[s] != b[s]
  {
    var s := CommonPrefix(a, b);
    PrefixRun(a, b, 0, 0);
    if s < |a| && s < |b| && a[s] == b[s] { PrefixRun(a, b, 0, s + 1); }
  }

  /** The same of the common suffix behind the first `s` elements. */
  lemma SuffixIs<T>(a: seq<T>, b: seq<T>, s: nat, i: nat, j: nat, e: nat)
    requires s <= i && s <= j && i + e == |a| && j + e == |b| && SameRun(a, b, i, j, e)
    requires s < i && s < j ==> a[i - 1] != b[j - 1]
    ensures CommonSuffix(a, b, s, |a|, |b|) == e
  {
    SuffixRun(a, b, s, |a|, |b|, e);
  }

  lemma SuffixStops<T>(a: seq<T>, b: seq<T>, s: nat, i: nat, j: nat, e: nat)
    requires s <= i && s <= j && i + e == |a| && j + e == |b| && CommonSuffix(a, b, s, |a|, |b|) == e
    ensures s < i && s < j ==> a[i - 1] != b[j - 1]
  {
    SuffixRun(a, b, s, |a|, |b|, 0);
    if s < i && s < j && a[i - 1] == b[j - 1] { SuffixRun(a, b, s, |a|, |b|, e + 1); }
  }

  /** At least one common element separates `h` from the next hunk, on both sides. */
  ghost predicate Apart(h: Hunk, next: Hunk) {
    h.OldEnd() < next.oldStart && h.NewEnd() < next.newStart
  }

  /** `h` is a non-empty replacement, reached from (i, j) across an equal gap. */
  ghost predicate Leads<T>(a: seq<T>, b: seq<T>, i: nat, j: nat, h: Hunk) {
    && 0 <= h.oldStart - i == h.newStart - j
    && 0 < h.oldCount + h.newCount
    && SameRun(a, b, i, j, h.oldStart - i)
  }

  /** `hs` turns the stretch `a[i..i2]` into the stretch `b[j..j2]`. */
  ghost predicate Script<T>(a: seq<T>, b: seq<T>, i: nat, j: nat, i2: nat, j2: nat, hs: seq<Hunk>)
    decreases |hs|
  {
    if hs == [] then 0 <= i2 - i == j2 - j && SameRun(a, b, i, j, i2 - i)
    else
      && Leads(a, b, i, j, hs[0])
      && (|hs| > 1 ==> Apart(hs[0], hs[1]))
      && hs[0].OldEnd() <= i2 <= |a| && hs[0].NewEnd() <= j2 <= |b|
      && Script(a, b, hs[0].OldEnd(), hs[0].NewEnd(), i2, j2, hs[1..])
  }

  /** `hs` turns all of `a` into all of `b`. */
  ghost predicate IsScript<T>(a: seq<T>, b: seq<T>, hs: seq<Hunk>) {
    Script(a, b, 0, 0, |a|, |b|, hs)
  }

  lemma RunJoin<T>(a: seq<T>, b: seq<T>, i: nat, j: nat, i1: nat, j1: nat, i2: nat)
    requires 0 <= i1 - i == j1 - j && i1 <= i2
    requires SameRun(a, b, i, j, i1 - i) && SameRun(a, b, i1, j1, i2 - i1)
    ensures SameRun(a, b, i, j, i2 - i)
  {
  }

  lemma RunGrow<T>(a: seq<T>, b: seq<T>, i: nat, j: nat, m: nat, n: nat)
    requires SameRun(a, b, i, j, m) && SameRun(a, b, i + m, j + m, n)
    ensures SameRun(a, b, i, j, m + n)
  {
  }

  lemma ScriptCons<T>(a: seq<T>, b: seq<T>, i: nat, j: nat, i2: nat, j2: nat, h: Hunk, hs: seq<Hunk>)
    requires Leads(a, b, i, j, h) && h.OldEnd() <= i2 <= |a| && h.NewEnd() <= j2 <= |b|
    requires hs != [] ==> Apart(h, hs[0])
    requires Script(a, b, h.OldEnd(), h.NewEnd(), i2, j2, hs)
    ensures Script(a, b, i, j, i2, j2, [h] + hs)
  {
    assert ([h] + hs)[1..] == hs;
  }

  /** A common run in front of a script does not change it. */
  lemma ScriptBehind<T>(a: seq<T>, b: seq<T>, i: nat, j: nat, i1: nat, j1: nat, i2: nat, j2: nat, hs: seq<Hunk>)
    requires 0 <= i1 - i == j1 - j && SameRun(a, b, i, j, i1 - i) && Script(a, b, i1, j1, i2, j2, hs)
    ensures Script(a, b, i, j, i2, j2, hs)
  {
    RunJoin(a, b, i, j, i1, j1, if hs == [] then i2 else hs[0].oldStart);
  }

  /** Where a script may end. */
  lemma {:induction false} ScriptBounds<T>(a: seq<T>, b: seq<T>, i: nat, j: nat, i2: nat, j2: nat, hs: seq<Hunk>)
    requires Script(a, b, i, j, i2, j2, hs)
    ensures i <= i2 <= |a| && j <= j2 <= |b|
  {
  }

  /** A script from (i1, j1) on, behind its first hunk. */
  lemma ScriptStep<T>(a: seq<T>, b: seq<T>, i: nat, j: nat, i1: nat, j1: nat, i2: nat, j2: nat, hs: seq<Hunk>)
    requires hs != [] && Leads(a, b, i, j, hs[0]) && (|hs| > 1 ==> Apart(hs[0], hs[1]))
    requires i1 == hs[0].OldEnd() && j1 == hs[0].NewEnd()
    requires Script(a, b, i1, j1, i2, j2, hs[1..])
    ensures Script(a, b, i, j, i2, j2, hs)
  {
    ScriptBounds(a, b, i1, j1, i2, j2, hs[1..]);
  }

  lemma ConcatStep<T>(a: seq<T>, b: seq<T>, i: nat, j: nat, i2: nat, j2: nat, hs: seq<Hunk>, ks: seq<Hunk>)
    requires hs != [] && Leads(a, b, i, j, hs[0])
    requires hs[1..] + ks != [] ==> Apart(hs[0], (hs[1..] + ks)[0])
    requires Script(a, b, hs[0].OldEnd(), hs[0].NewEnd(), i2, j2, hs[1..] + ks)
    ensures Script(a, b, i, j, i2, j2, hs + ks)
  {
    assert (hs + ks)[1..] == hs[1..] + ks;
    ScriptStep(a, b, i, j, hs[0].OldEnd(), hs[0].NewEnd(), i2, j2, hs + ks);
  }

  /** Two scripts that do not touch compose. */
  lemma {:induction false} ScriptConcat<T>(a: seq<T>, b: seq<T>, i: nat, j: nat, i1: nat, j1: nat, i2: nat, j2: nat,
                                           hs: seq<Hunk>, ks: seq<Hunk>)
    requires Script(a, b, i, j, i1, j1, hs) && Script(a, b, i1, j1, i2, j2, ks)
    requires hs != [] && ks != [] ==> Apart(hs[|hs| - 1], ks[0])
    ensures Script(a, b, i, j, i2, j2, hs + ks)
    decreases |hs|
  {
    if hs == [] {
      assert hs + ks == ks;
      ScriptBehind(a, b, i, j, i1, j1, i2, j2, ks);
    } else {
      ScriptConcat(a, b, hs[0].OldEnd(), hs[0].NewEnd(), i1, j1, i2, j2, hs[1..], ks);
      ConcatStep(a, b, i, j, i2, j2, hs, ks);
    }
  }

  /** A common run after a script does not change it. */
  lemma ScriptAhead<T>(a: seq<T>, b: seq<T>, i: nat, j: nat, i1: nat, j1: nat, i2: nat, j2: nat, hs: seq<Hunk>)
    requires Script(a, b, i, j, i1, j1, hs) && Script(a, b, i1, j1, i2, j2, [])
    ensures Script(a, b, i, j, i2, j2, hs)
  {
    ScriptConcat(a, b, i, j, i1, j1, i2, j2, hs, []);
    assert hs + [] == hs;
  }

  lemma RunIsScript<T>(a: seq<T>, b: seq<T>, i: nat, j: nat, n: int, i2: nat, j2: nat)
    requires 0 <= n && SameRun(a, b, i, j, n) && i2 == i + n && j2 == j + n
    ensures Script(a, b, i, j, i2, j2, [])
  {
  }

  /** Scripts on both sides of a common element compose: what an anchor line is for. */
  lemma ScriptAround<T>(a: seq<T>, b: seq<T>, i: nat, j: nat, i1: nat, j1: nat, i1': nat, j1': nat, i2: nat, j2: nat,
                        hs: seq<Hunk>, ks: seq<Hunk>)
    requires Script(a, b, i, j, i1, j1, hs) && Script(a, b, i1', j1', i2, j2, ks)
    requires i1 < |a| && j1 < |b| && a[i1] == b[j1] && i1' == i1 + 1 && j1' == j1 + 1
    ensures Script(a, b, i, j, i2, j2, hs + ks)
  {
    ScriptBehind(a, b, i1, j1, i1', j1', i2, j2, ks);
    if hs != [] { ScriptOrdered(a, b, i, j, i1, j1, hs, |hs| - 1); }
    ScriptConcat(a, b, i, j, i1, j1, i2, j2, hs, ks);
  }

  /** A hunk list in closed form: every hunk is in range and non-empty, and any two are
      strictly ordered with a common element between them. */
  lemma {:induction false} ScriptOrdered<T>(a: seq<T>, b: seq<T>, i: nat, j: nat, i2: nat, j2: nat, hs: seq<Hunk>, k: nat)
    requires Script(a, b, i, j, i2, j2, hs) && k < |hs|
    ensures i <= hs[k].oldStart && hs[k].OldEnd() <= i2 <= |a|
    ensures j <= hs[k].newStart && hs[k].NewEnd() <= j2 <= |b|
    ensures 0 < hs[k].oldCount + hs[k].newCount
    ensures forall l :: k < l < |hs| ==> Apart(hs[k], hs[l])
    decreases |hs|
  {
    if k > 0 {
      ScriptOrdered(a, b, hs[0].OldEnd(), hs[0].NewEnd(), i2, j2, hs[1..], k - 1);
      forall l | k < l < |hs| ensures Apart(hs[k], hs[l]) { assert hs[l] == hs[1..][l - 1]; }
    } else if |hs| > 1 {
      ScriptOrdered(a, b, hs[0].OldEnd(), hs[0].NewEnd(), i2, j2, hs[1..], 0);
      forall l | 0 < l < |hs| ensures Apart(hs[0], hs[l]) { assert hs[l] == hs[1..][l - 1]; }
    }
  }

  /** The same hunks relate any two sequences that agree wherever the first two do. */
  lemma {:induction false} ScriptTransfer<S, T>(a: seq<S>, b: seq<S>, a': seq<T>, b': seq<T>,
                                                i: nat, j: nat, i2: nat, j2: nat, hs: seq<Hunk>)
    requires Script(a, b, i, j, i2, j2, hs) && |a| == |a'| && |b| == |b'|
    requires forall p, q :: 0 <= p < |a| && 0 <= q < |b| && a[p] == b[q] ==> a'[p] == b'[q]
    ensures Script(a', b', i, j, i2, j2, hs)
    decreases |hs|
  {
    if hs != [] {
      ScriptTransfer(a, b, a', b', hs[0].OldEnd(), hs[0].NewEnd(), i2, j2, hs[1..]);
    }
  }

  // ----- Translation -----------------------------------------------------------------

  /** The hunks of a chunk, renumbered for a chunk that starts at (i, j). */
  function ShiftAll(hs: seq<Hunk>, i: nat, j: nat): (r: seq<Hunk>)
    ensures |r| == |hs| && forall k :: 0 <= k < |r| ==> r[k] == hs[k].Shift(i, j)
  {
    seq(|hs|, k requires 0 <= k < |hs| => hs[k].Shift(i, j))
  }

  /** `a` is the stretch of `A` that starts at `o`. */
  ghost predicate CutFrom<T>(a: seq<T>, A: seq<T>, o: nat) {
    o + |a| <= |A| && forall p :: 0 <= p < |a| ==> a[p] == A[o + p]
  }

  lemma RunEmbed<T>(a: seq<T>, b: seq<T>, A: seq<T>, B: seq<T>, oi: nat, oj: nat, i: nat, j: nat, n: int)
    requires SameRun(a, b, i, j, n)
    requires CutFrom(a, A, oi) && CutFrom(b, B, oj)
    ensures SameRun(A, B, oi + i, oj + j, n)
  {
    forall p | oi + i <= p < oi + i + n ensures A[p] == B[p - (oi + i) + (oj + j)] {
      assert A[p] == a[p - oi] == b[p - oi - i + j];
    }
  }

  lemma LeadsEmbed<T>(a: seq<T>, b: seq<T>, A: seq<T>, B: seq<T>, oi: nat, oj: nat, i: nat, j: nat, h: Hunk)
    requires Leads(a, b, i, j, h)
    requires CutFrom(a, A, oi) && CutFrom(b, B, oj)
    ensures Leads(A, B, oi + i, oj + j, h.Shift(oi, oj))
    ensures h.Shift(oi, oj).OldEnd() == oi + h.OldEnd() && h.Shift(oi, oj).NewEnd() == oj + h.NewEnd()
  {
    RunEmbed(a, b, A, B, oi, oj, i, j, h.oldStart - i);
  }

  lemma ShiftTwice(hs: seq<Hunk>, i: nat, j: nat, i': nat, j': nat)
    ensures ShiftAll(ShiftAll(hs, i, j), i', j') == ShiftAll(hs, i' + i, j' + j)
  {
  }

  lemma ShiftConcat(hs: seq<Hunk>, ks: seq<Hunk>, i: nat, j: nat)
    ensures ShiftAll(hs + ks, i, j) == ShiftAll(hs, i, j) + ShiftAll(ks, i, j)
  {
  }

  /** A script of two chunks, renumbered, is a script of the texts the chunks are cut from. */
  lemma {:induction false} ScriptEmbed<T>(a: seq<T>, b: seq<T>, A: seq<T>, B: seq<T>, oi: nat, oj: nat,
                                          i: nat, j: nat, i2: nat, j2: nat, hs: seq<Hunk>, ks: seq<Hunk>)
    requires Script(a, b, i, j, i2, j2, hs) && ks == ShiftAll(hs, oi, oj)
    requires CutFrom(a, A, oi) && CutFrom(b, B, oj)
    ensures Script(A, B, oi + i, oj + j, oi + i2, oj + j2, ks)
    decreases |hs|
  {
    if hs == [] {
      RunEmbed(a, b, A, B, oi, oj, i, j, i2 - i);
      RunIsScript(A, B, oi + i, oj + j, i2 - i, oi + i2, oj + j2);
    } else {
      LeadsEmbed(a, b, A, B, oi, oj, i, j, hs[0]);
      assert ks[0] == hs[0].Shift(oi, oj) && (|hs| > 1 ==> Apart(ks[0], ks[1]));
      ScriptEmbed(a, b, A, B, oi, oj, hs[0].OldEnd(), hs[0].NewEnd(), i2, j2, hs[1..], ks[1..]);
    }
  }

  lemma ScriptOfSlices<T>(a: seq<T>, b: seq<T>, i: nat, j: nat, i2: nat, j2: nat, hs: seq<Hunk>)
    requires i <= i2 <= |a| && j <= j2 <= |b| && IsScript(a[i..i2], b[j..j2], hs)
    ensures Script(a, b, i, j, i2, j2, ShiftAll(hs, i, j))
  {
    ScriptEmbed(a[i..i2], b[j..j2], a, b, i, j, 0, 0, i2 - i, j2 - j, hs, ShiftAll(hs, i, j));
  }

  /** Common ends around a script do not change it. */
  lemma ScriptWithEnds<T>(a: seq<T>, b: seq<T>, s: nat, i1: nat, j1: nat, i2: nat, j2: nat, hs: seq<Hunk>)
    requires SameRun(a, b, 0, 0, s) && Script(a, b, s, s, i1, j1, hs) && Script(a, b, i1, j1, i2, j2, [])
    ensures Script(a, b, 0, 0, i2, j2, hs)
  {
    ScriptAhead(a, b, s, s, i1, j1, i2, j2, hs);
    ScriptBehind(a, b, 0, 0, s, s, i2, j2, hs);
  }

  lemma StrippedScript<T>(a: seq<T>, b: seq<T>, s: nat, i1: nat, j1: nat, e: nat, hs: seq<Hunk>)
    requires s <= i1 && s <= j1 && i1 + e == |a| && j1 + e == |b|
    requires SameRun(a, b, 0, 0, s) && SameRun(a, b, i1, j1, e)
    requires IsScript(a[s..i1], b[s..j1], hs)
    ensures IsScript(a, b, ShiftAll(hs, s, s))
  {
    ScriptOfSlices(a, b, s, s, i1, j1, hs);
    RunIsScript(a, b, i1, j1, e, |a|, |b|);
    ScriptWithEnds(a, b, s, i1, j1, |a|, |b|, ShiftAll(hs, s, s));
  }

  // ----- Replaying -----------------------------------------------------------------

  /** The hunks can be replayed from position `pos` of an `m`-line text against an `n`-line one. */
  predicate Replayable(hs: seq<Hunk>, pos: nat, m: nat, n: nat)
    decreases |hs|
  {
    if hs == [] then pos <= m
    else pos <= hs[0].oldStart && hs[0].OldEnd() <= m && hs[0].NewEnd() <= n && Replayable(hs[1..], hs[0].OldEnd(), m, n)
  }

  /** Rebuild: copy the old gap, take the new lines of the hunk, skip the old ones. */
  function Replay<T>(a: seq<T>, b: seq<T>, hs: seq<Hunk>, pos: nat): (r: seq<T>)
    requires Replayable(hs, pos, |a|, |b|)
    decreases |hs|
  {
    if hs == [] then a[pos..]
    else a[pos..hs[0].oldStart] + b[hs[0].newStart..hs[0].NewEnd()] + Replay(a, b, hs[1..], hs[0].OldEnd())
  }

  lemma RunSlice<T>(a: seq<T>, b: seq<T>, i: nat, j: nat, n: nat)
    requires SameRun(a, b, i, j, n)
    ensures a[i..i + n] == b[j..j + n]
  {
  }

  lemma SliceRun<T>(a: seq<T>, b: seq<T>, i: nat, j: nat, i2: nat, j2: nat)
    requires i <= i2 <= |a| && j <= j2 <= |b| && a[i..i2] == b[j..j2]
    ensures i2 - i == j2 - j && SameRun(a, b, i, j, i2 - i)
  {
    assert |a[i..i2]| == |b[j..j2]|;
    forall p | i <= p < i2 ensures a[p] == b[p - i + j] {
      assert a[p] == a[i..i2][p - i];
    }
  }

  lemma SliceThree<T>(b: seq<T>, j: nat, k: nat, l: nat)
    requires j <= k <= l <= |b|
    ensures b[j..] == b[j..k] + b[k..l] + b[l..]
  {
  }

  /** Replaying a script on the old sequence rebuilds exactly the new one. */
  lemma {:induction false} ScriptReplays<T>(a: seq<T>, b: seq<T>, i: nat, j: nat, hs: seq<Hunk>)
    requires Script(a, b, i, j, |a|, |b|, hs)
    ensures Replayable(hs, i, |a|, |b|) && Replay(a, b, hs, i) == b[j..]
    decreases |hs|
  {
    if hs != [] {
      ScriptReplays(a, b, hs[0].OldEnd(), hs[0].NewEnd(), hs[1..]);
      RunSlice(a, b, i, j, hs[0].oldStart - i);
      SliceThree(b, j, hs[0].newStart, hs[0].NewEnd());
    } else {
      RunSlice(a, b, i, j, |a| - i);
    }
  }

  /** Lines a hunk list reports as changed, both sides together. */
  function Changed(hs: seq<Hunk>): (r: nat) {
    if hs == [] then 0 else hs[0].oldCount + hs[0].newCount + Changed(hs[1..])
  }

  lemma {:induction false} ChangedConcat(hs: seq<Hunk>, ks: seq<Hunk>)
    ensures Changed(hs + ks) == Changed(hs) + Changed(ks)
    decreases |hs|
  {
    if hs == [] {
      assert hs + ks == ks;
    } else {
      ChangedConcat(hs[1..], ks);
      assert (hs + ks)[1..] == hs[1..] + ks;
    }
  }

  /** A script changes no more lines than the stretches have. */
  lemma {:induction false} ScriptChangesAtMost<T>(a: seq<T>, b: seq<T>, i: nat, j: nat, i2: nat, j2: nat, hs: seq<Hunk>)
    requires Script(a, b, i, j, i2, j2, hs)
    ensures Changed(hs) <= (i2 - i) + (j2 - j)
    decreases |hs|
  {
    if hs != [] { ScriptChangesAtMost(a, b, hs[0].OldEnd(), hs[0].NewEnd(), i2, j2, hs[1..]); }
  }

  lemma {:induction false} ChangedShift(hs: seq<Hunk>, i: nat, j: nat)
    ensures Changed(ShiftAll(hs, i, j)) == Changed(hs)
    decreases |hs|
  {
    if hs != [] {
      ChangedShift(hs[1..], i, j);
      assert ShiftAll(hs, i, j)[1..] == ShiftAll(hs[1..], i, j);
    }
  }
}
