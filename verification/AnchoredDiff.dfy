/**
  What the patience diff is minimal among: the scripts that match its anchors.

  The anchors of all recursion depths form one chain of equal lines. Any script that matches
  them changes, between two of them, at least the lines outside a longest common subsequence.
 */
module AnchoredDiff {
  import opened EditScript
  import opened Lcs
  import opened LineDiff
  import opened Patience
  import opened Utils

  // ----- Scripts that match given lines ----------------------------------------------------------

  /** The hunks from aligned positions (i, j) on leave old line `p.0` opposite new line `p.1`. */
  ghost predicate Matches(hs: seq<Hunk>, i: nat, j: nat, p: Pair)
    decreases |hs|
  {
    if hs == [] || p.0 < hs[0].oldStart then 0 <= p.0 - i == p.1 - j
    else hs[0].OldEnd() <= p.0 && Matches(hs[1..], hs[0].OldEnd(), hs[0].NewEnd(), p)
  }

  ghost predicate MatchesAll(hs: seq<Hunk>, i: nat, j: nat, c: seq<Pair>) {
    forall k :: 0 <= k < |c| ==> Matches(hs, i, j, c[k])
  }

  /** A chain of equal lines between (i, j) and (i2, j2). */
  ghost predicate ChainIn<T>(a: seq<T>, b: seq<T>, i: nat, j: nat, i2: nat, j2: nat, c: seq<Pair>)
    decreases |c|
  {
    if c == [] then i <= i2 <= |a| && j <= j2 <= |b|
    else
      && i <= c[0].0 < |a| && j <= c[0].1 < |b| && a[c[0].0] == b[c[0].1]
      && ChainIn(a, b, c[0].0 + 1, c[0].1 + 1, i2, j2, c[1..])
  }

  /** The lines of two stretches outside a longest common subsequence. */
  ghost function Unmatched<T>(a: seq<T>, b: seq<T>, i: nat, j: nat, i2: nat, j2: nat): (r: int)
    requires i <= i2 <= |a| && j <= j2 <= |b|
  {
    var (x, y) := (a[i..i2], b[j..j2]);
    |x| + |y| - 2 * LcsLen(x, y, |x|, |y|)
  }

  /** ... added up over the gaps of a chain. */
  ghost function UnmatchedAround<T>(a: seq<T>, b: seq<T>, i: nat, j: nat, i2: nat, j2: nat, c: seq<Pair>): (r: int)
    requires ChainIn(a, b, i, j, i2, j2, c)
    decreases |c|
  {
    if c == [] then Unmatched(a, b, i, j, i2, j2)
    else Unmatched(a, b, i, j, c[0].0, c[0].1) + UnmatchedAround(a, b, c[0].0 + 1, c[0].1 + 1, i2, j2, c[1..])
  }

  lemma StretchChangesAtLeast<T>(a: seq<T>, b: seq<T>, i: nat, j: nat, i2: nat, j2: nat, hs: seq<Hunk>)
    requires Script(a, b, i, j, i2, j2, hs)
    ensures i <= i2 <= |a| && j <= j2 <= |b| && Changed(hs) >= Unmatched(a, b, i, j, i2, j2)
  {
    var c := KeptIsCommon(a, b, i, j, i2, j2, hs);
    var (x, y) := (a[i..i2], b[j..j2]);
    SliceWhole(x);
    SliceWhole(y);
    LcsIsUpperBound(x, y, |x|, |y|, c);
  }

  /** In the common run in front of the first hunk, a script splits at every line. */
  lemma SplitFront<T>(a: seq<T>, b: seq<T>, i: nat, j: nat, i2: nat, j2: nat, hs: seq<Hunk>, p: Pair, q: Pair)
    requires Script(a, b, i, j, i2, j2, hs) && 0 <= p.0 - i == p.1 - j && q == (p.0 + 1, p.1 + 1)
    requires p.0 < if hs == [] then i2 else hs[0].oldStart
    ensures Script(a, b, i, j, p.0, p.1, []) && Script(a, b, q.0, q.1, i2, j2, hs)
  {
    var n := (if hs == [] then i2 else hs[0].oldStart) - i;
    assert SameRun(a, b, i, j, n);
    RunSplit(a, b, i, j, n, p.0 - i, q);
  }

  lemma RunSplit<T>(a: seq<T>, b: seq<T>, i: nat, j: nat, n: int, m: nat, q: Pair)
    requires m < n && SameRun(a, b, i, j, n) && q == (i + m + 1, j + m + 1)
    ensures SameRun(a, b, i, j, m) && SameRun(a, b, q.0, q.1, n - m - 1)
  {
  }

  lemma MatchesFront(hs: seq<Hunk>, i: nat, j: nat, p: Pair, q: Pair, c: seq<Pair>)
    requires 0 <= p.0 - i == p.1 - j && q == (p.0 + 1, p.1 + 1)
    requires MatchesAll(hs, i, j, c) && forall k :: 0 <= k < |c| ==> p.0 < c[k].0
    ensures MatchesAll(hs, q.0, q.1, c)
  {
    forall k | 0 <= k < |c| ensures Matches(hs, q.0, q.1, c[k]) { assert Matches(hs, i, j, c[k]); }
  }

  lemma MatchesTail(hs: seq<Hunk>, i: nat, j: nat, h: Hunk, p: Pair, c: seq<Pair>)
    requires hs != [] && h == hs[0] && h.oldStart <= p.0 && forall k :: 0 <= k < |c| ==> p.0 < c[k].0
    requires MatchesAll(hs, i, j, c)
    ensures MatchesAll(hs[1..], h.OldEnd(), h.NewEnd(), c)
  {
    forall k | 0 <= k < |c| ensures Matches(hs[1..], h.OldEnd(), h.NewEnd(), c[k]) { assert Matches(hs, i, j, c[k]); }
  }

  lemma SplitCons(hs: seq<Hunk>, h: Hunk, rest: seq<Hunk>, ks: seq<Hunk>)
    requires hs != [] && hs[0] == h && hs[1..] == rest + ks
    ensures hs == [h] + rest + ks && (rest != [] ==> |hs| > 1 && rest[0] == hs[1])
  {
    assert hs == [h] + hs[1..];
    if rest != [] { assert hs[1] == hs[1..][0]; }
  }

  /** A script that matches a pair of lines splits there into two, which match what it matches. */
  lemma {:induction false} SplitAt<T>(a: seq<T>, b: seq<T>, i: nat, j: nat, i2: nat, j2: nat, hs: seq<Hunk>,
                                      p: Pair, q: Pair, c: seq<Pair>)
    returns (gs: seq<Hunk>, ks: seq<Hunk>)
    requires Script(a, b, i, j, i2, j2, hs) && Matches(hs, i, j, p) && p.0 < i2 && q == (p.0 + 1, p.1 + 1)
    requires MatchesAll(hs, i, j, c) && forall k :: 0 <= k < |c| ==> p.0 < c[k].0
    ensures hs == gs + ks
    ensures Script(a, b, i, j, p.0, p.1, gs) && Script(a, b, q.0, q.1, i2, j2, ks)
    ensures MatchesAll(ks, q.0, q.1, c)
    decreases |hs|
  {
    if hs == [] || p.0 < hs[0].oldStart {
      gs, ks := [], hs;
      SplitFront(a, b, i, j, i2, j2, hs, p, q);
      MatchesFront(hs, i, j, p, q, c);
    } else {
      var h := hs[0];
      MatchesTail(hs, i, j, h, p, c);
      var rest;
      rest, ks := SplitAt(a, b, h.OldEnd(), h.NewEnd(), i2, j2, hs[1..], p, q, c);
      gs := [h] + rest;
      SplitCons(hs, h, rest, ks);
      ScriptCons(a, b, i, j, p.0, p.1, h, rest);
    }
  }

  lemma {:induction false} ChainAhead<T>(a: seq<T>, b: seq<T>, i: nat, j: nat, i2: nat, j2: nat, c: seq<Pair>, k: nat)
    requires ChainIn(a, b, i, j, i2, j2, c) && k < |c|
    ensures i <= c[k].0 < i2 <= |a| && j <= c[k].1 < j2 <= |b|
    decreases |c|
  {
    ChainBounds(a, b, c[0].0 + 1, c[0].1 + 1, i2, j2, c[1..]);
    if k > 0 { ChainAhead(a, b, c[0].0 + 1, c[0].1 + 1, i2, j2, c[1..], k - 1); }
  }

  lemma {:induction false} ChainBounds<T>(a: seq<T>, b: seq<T>, i: nat, j: nat, i2: nat, j2: nat, c: seq<Pair>)
    requires ChainIn(a, b, i, j, i2, j2, c)
    ensures i <= i2 <= |a| && j <= j2 <= |b|
    decreases |c|
  {
    if c != [] { ChainBounds(a, b, c[0].0 + 1, c[0].1 + 1, i2, j2, c[1..]); }
  }

  lemma ChainBehind<T>(a: seq<T>, b: seq<T>, q: Pair, i2: nat, j2: nat, c: seq<Pair>, p: Pair)
    requires ChainIn(a, b, q.0, q.1, i2, j2, c) && q == (p.0 + 1, p.1 + 1)
    ensures forall k :: 0 <= k < |c| ==> p.0 < c[k].0
  {
    forall k | 0 <= k < |c| ensures p.0 < c[k].0 { ChainAhead(a, b, q.0, q.1, i2, j2, c, k); }
  }

  lemma SplitAtFirst<T>(a: seq<T>, b: seq<T>, i: nat, j: nat, i2: nat, j2: nat, p: Pair, q: Pair,
                        rest: seq<Pair>, c: seq<Pair>, hs: seq<Hunk>)
    returns (gs: seq<Hunk>, ks: seq<Hunk>)
    requires c != [] && p == c[0] && rest == c[1..] && q == (p.0 + 1, p.1 + 1)
    requires Script(a, b, i, j, i2, j2, hs) && ChainIn(a, b, i, j, i2, j2, c) && MatchesAll(hs, i, j, c)
    ensures ChainIn(a, b, q.0, q.1, i2, j2, rest) && MatchesAll(ks, q.0, q.1, rest)
    ensures hs == gs + ks && Script(a, b, i, j, p.0, p.1, gs) && Script(a, b, q.0, q.1, i2, j2, ks)
  {
    ChainAhead(a, b, i, j, i2, j2, c, 0);
    ChainBehind(a, b, q, i2, j2, rest, p);
    assert forall k :: 0 <= k < |rest| ==> rest[k] == c[k + 1];
    gs, ks := SplitAt(a, b, i, j, i2, j2, hs, p, q, rest);
  }

  /** No script that matches a chain changes fewer lines than lie outside it and the longest common
      subsequences of its gaps. */
  lemma {:induction false} MatchingChangesAtLeast<T>(a: seq<T>, b: seq<T>, i: nat, j: nat, i2: nat, j2: nat,
                                                     c: seq<Pair>, hs: seq<Hunk>, least: int)
    requires Script(a, b, i, j, i2, j2, hs) && ChainIn(a, b, i, j, i2, j2, c) && MatchesAll(hs, i, j, c)
    requires least == UnmatchedAround(a, b, i, j, i2, j2, c)
    ensures Changed(hs) >= least
    decreases |c|
  {
    if c == [] {
      MatchingNone(a, b, i, j, i2, j2, c, hs);
    } else {
      var (p, q, rest) := (c[0], (c[0].0 + 1, c[0].1 + 1), c[1..]);
      var gs, ks := SplitAtFirst(a, b, i, j, i2, j2, p, q, rest, c, hs);
      MatchingChangesAtLeast(a, b, q.0, q.1, i2, j2, rest, ks, UnmatchedAround(a, b, q.0, q.1, i2, j2, rest));
      MatchingStep(a, b, i, j, i2, j2, p, q, rest, c, gs, ks, hs);
    }
  }

  lemma MatchingNone<T>(a: seq<T>, b: seq<T>, i: nat, j: nat, i2: nat, j2: nat, c: seq<Pair>, hs: seq<Hunk>)
    requires Script(a, b, i, j, i2, j2, hs) && c == []
    ensures ChainIn(a, b, i, j, i2, j2, c) && Changed(hs) >= UnmatchedAround(a, b, i, j, i2, j2, c)
  {
    StretchChangesAtLeast(a, b, i, j, i2, j2, hs);
  }

  lemma MatchingStep<T>(a: seq<T>, b: seq<T>, i: nat, j: nat, i2: nat, j2: nat, p: Pair, q: Pair,
                        rest: seq<Pair>, c: seq<Pair>, gs: seq<Hunk>, ks: seq<Hunk>, hs: seq<Hunk>)
    requires c != [] && p == c[0] && rest == c[1..] && q == (p.0 + 1, p.1 + 1)
    requires ChainIn(a, b, i, j, i2, j2, c) && ChainIn(a, b, q.0, q.1, i2, j2, rest)
    requires hs == gs + ks && Script(a, b, i, j, p.0, p.1, gs)
    requires Changed(ks) >= UnmatchedAround(a, b, q.0, q.1, i2, j2, rest)
    ensures Changed(hs) >= UnmatchedAround(a, b, i, j, i2, j2, c)
  {
    ChangedConcat(gs, ks);
    StretchChangesAtLeast(a, b, i, j, p.0, p.1, gs);
    ChainUncons(a, b, i, j, i2, j2, p, q, rest, c);
  }

  lemma ChainCons<T>(a: seq<T>, b: seq<T>, i: nat, j: nat, i2: nat, j2: nat, p: Pair, q: Pair, rest: seq<Pair>,
                     c: seq<Pair>)
    requires i <= p.0 < |a| && j <= p.1 < |b| && a[p.0] == b[p.1] && q == (p.0 + 1, p.1 + 1) && c == [p] + rest
    requires ChainIn(a, b, q.0, q.1, i2, j2, rest)
    ensures ChainIn(a, b, i, j, i2, j2, c)
    ensures UnmatchedAround(a, b, i, j, i2, j2, c)
         == Unmatched(a, b, i, j, p.0, p.1) + UnmatchedAround(a, b, q.0, q.1, i2, j2, rest)
  {
    assert c[1..] == rest;
  }

  lemma ChainUncons<T>(a: seq<T>, b: seq<T>, i: nat, j: nat, i2: nat, j2: nat, p: Pair, q: Pair, rest: seq<Pair>,
                       c: seq<Pair>)
    requires c != [] && p == c[0] && rest == c[1..] && q == (p.0 + 1, p.1 + 1) && ChainIn(a, b, i, j, i2, j2, c)
    ensures i <= p.0 < |a| && j <= p.1 < |b| && a[p.0] == b[p.1] && ChainIn(a, b, q.0, q.1, i2, j2, rest)
    ensures UnmatchedAround(a, b, i, j, i2, j2, c)
         == Unmatched(a, b, i, j, p.0, p.1) + UnmatchedAround(a, b, q.0, q.1, i2, j2, rest)
  {
  }

  lemma ConsConcat(c1: seq<Pair>, o: Pair, rest1: seq<Pair>, p: Pair, c2: seq<Pair>, rest: seq<Pair>, c: seq<Pair>)
    requires c1 != [] && o == c1[0] && rest1 == c1[1..] && rest == rest1 + [p] + c2 && c == c1 + [p] + c2
    ensures c == [o] + rest
  {
  }

  lemma ChainConcatStep<T>(a: seq<T>, b: seq<T>, i: nat, j: nat, p: Pair, i2: nat, j2: nat, o: Pair, r: Pair,
                           rest1: seq<Pair>, c1: seq<Pair>, c2: seq<Pair>, rest: seq<Pair>, c: seq<Pair>)
    requires c1 != [] && o == c1[0] && r == (o.0 + 1, o.1 + 1) && rest1 == c1[1..]
    requires rest == rest1 + [p] + c2 && c == c1 + [p] + c2
    requires ChainIn(a, b, i, j, p.0, p.1, c1) && ChainIn(a, b, r.0, r.1, i2, j2, rest)
    ensures ChainIn(a, b, i, j, i2, j2, c) && ChainIn(a, b, r.0, r.1, p.0, p.1, rest1)
    ensures UnmatchedAround(a, b, i, j, i2, j2, c) - UnmatchedAround(a, b, r.0, r.1, i2, j2, rest)
         == UnmatchedAround(a, b, i, j, p.0, p.1, c1) - UnmatchedAround(a, b, r.0, r.1, p.0, p.1, rest1)
  {
    ConsConcat(c1, o, rest1, p, c2, rest, c);
    ChainUncons(a, b, i, j, p.0, p.1, o, r, rest1, c1);
    ChainCons(a, b, i, j, i2, j2, o, r, rest, c);
  }

  /** Chains on both sides of a pair of equal lines form one. */
  lemma {:induction false} ChainConcat<T>(a: seq<T>, b: seq<T>, i: nat, j: nat, p: Pair, q: Pair, i2: nat, j2: nat,
                                          c1: seq<Pair>, c2: seq<Pair>, c: seq<Pair>)
    requires p.0 < |a| && p.1 < |b| && a[p.0] == b[p.1] && q == (p.0 + 1, p.1 + 1) && c == c1 + [p] + c2
    requires ChainIn(a, b, i, j, p.0, p.1, c1) && ChainIn(a, b, q.0, q.1, i2, j2, c2)
    ensures ChainIn(a, b, i, j, i2, j2, c)
    ensures UnmatchedAround(a, b, i, j, i2, j2, c)
         == UnmatchedAround(a, b, i, j, p.0, p.1, c1) + UnmatchedAround(a, b, q.0, q.1, i2, j2, c2)
    decreases |c1|
  {
    if c1 == [] {
      assert c == [p] + c2;
      ChainCons(a, b, i, j, i2, j2, p, q, c2, c);
    } else {
      var (o, r, rest1) := (c1[0], (c1[0].0 + 1, c1[0].1 + 1), c1[1..]);
      var rest := rest1 + [p] + c2;
      ChainConcat(a, b, r.0, r.1, p, q, i2, j2, rest1, c2, rest);
      ChainConcatStep(a, b, i, j, p, i2, j2, o, r, rest1, c1, c2, rest, c);
    }
  }

  // ----- The anchors of a diff ----------------------------------------------------------------------

  /** The anchors of a chunk pair that starts at `o`, of every recursion depth from `depth` on. */
  ghost function DiffAnchors(a: seq<Id>, b: seq<Id>, depth: nat, o: Pair): (r: seq<Pair>)
    requires depth <= MAX_PATIENCE_DEPTH
    decreases MAX_PATIENCE_DEPTH - depth, 1, 0
  {
    var (s, am, bm) := Middle(a, b);
    MiddleAnchors(am, bm, depth, (o.0 + s, o.1 + s))
  }

  ghost function MiddleAnchors(a: seq<Id>, b: seq<Id>, depth: nat, o: Pair): (r: seq<Pair>)
    requires depth <= MAX_PATIENCE_DEPTH
    decreases MAX_PATIENCE_DEPTH - depth, 0, 0
  {
    if a != [] && b != [] && depth < MAX_PATIENCE_DEPTH && Anchors(a, b).Some? then
      AnchorsAreCommon(a, b);
      GapAnchorsTo(a, b, Anchors(a, b).value, |Anchors(a, b).value|, depth + 1, o)
    else []
  }

  /** The anchors up to the end of gap `k`. */
  ghost function GapAnchorsTo(a: seq<Id>, b: seq<Id>, c: seq<Pair>, k: nat, depth: nat, o: Pair): (r: seq<Pair>)
    requires CommonChain(a, b, c) && k <= |c| && depth <= MAX_PATIENCE_DEPTH
    decreases MAX_PATIENCE_DEPTH - depth, 3, k
  {
    if k == 0 then GapAnchors(a, b, c, 0, depth, o)
    else GapAnchorsTo(a, b, c, k - 1, depth, o) + [Place(o, c[k - 1])] + GapAnchors(a, b, c, k, depth, o)
  }

  ghost function GapAnchors(a: seq<Id>, b: seq<Id>, c: seq<Pair>, k: nat, depth: nat, o: Pair): (r: seq<Pair>)
    requires CommonChain(a, b, c) && k <= |c| && depth <= MAX_PATIENCE_DEPTH
    decreases MAX_PATIENCE_DEPTH - depth, 2, 0
  {
    GapInRange(a, b, c, k);
    var (s, e) := (GapStart(c, k), GapEnd(a, b, c, k));
    DiffAnchors(a[s.0..e.0], b[s.1..e.1], depth, Place(o, s))
  }

  /** A position of a chunk that starts at `o`. */
  function Place(o: Pair, p: Pair): (r: Pair) { (o.0 + p.0, o.1 + p.1) }

  /** No chunk of the recursion is replaced as a whole for its size. */
  ghost predicate NoneCoarse(a: seq<Id>, b: seq<Id>, depth: nat)
    requires depth <= MAX_PATIENCE_DEPTH
    decreases MAX_PATIENCE_DEPTH - depth, 1
  {
    var (s, am, bm) := Middle(a, b);
    MiddleNotCoarse(am, bm, depth)
  }

  ghost predicate MiddleNotCoarse(a: seq<Id>, b: seq<Id>, depth: nat)
    requires depth <= MAX_PATIENCE_DEPTH
    decreases MAX_PATIENCE_DEPTH - depth, 0
  {
    a == [] || b == [] ||
    if depth < MAX_PATIENCE_DEPTH && Anchors(a, b).Some? then
      AnchorsAreCommon(a, b);
      GapsNotCoarse(a, b, Anchors(a, b).value, depth + 1)
    else |a| * |b| <= 1_000_000
  }

  ghost predicate GapsNotCoarse(a: seq<Id>, b: seq<Id>, c: seq<Pair>, depth: nat)
    requires CommonChain(a, b, c) && depth <= MAX_PATIENCE_DEPTH
    decreases MAX_PATIENCE_DEPTH - depth, 3
  {
    forall k :: 0 <= k <= |c| ==> GapNotCoarse(a, b, c, k, depth)
  }

  ghost predicate GapNotCoarse(a: seq<Id>, b: seq<Id>, c: seq<Pair>, k: nat, depth: nat)
    requires CommonChain(a, b, c) && k <= |c| && depth <= MAX_PATIENCE_DEPTH
    decreases MAX_PATIENCE_DEPTH - depth, 2
  {
    GapInRange(a, b, c, k);
    var (s, e) := (GapStart(c, k), GapEnd(a, b, c, k));
    NoneCoarse(a[s.0..e.0], b[s.1..e.1], depth)
  }

  // ----- What the diff changes -------------------------------------------------------------------------

  /** A common run leads from `o` to `s`. */
  ghost predicate Joined<T>(a: seq<T>, b: seq<T>, o: Pair, s: Pair) {
    0 <= s.0 - o.0 == s.1 - o.1 && SameRun(a, b, o.0, o.1, s.0 - o.0)
  }

  /** The chunk pair (x, y) stands between `s` and `e` in the texts. */
  ghost predicate Chunk<T>(a: seq<T>, b: seq<T>, s: Pair, e: Pair, x: seq<T>, y: seq<T>) {
    s.0 <= e.0 <= |a| && s.1 <= e.1 <= |b| && x == a[s.0..e.0] && y == b[s.1..e.1]
  }

  lemma JoinedEmbed<T>(a: seq<T>, b: seq<T>, s: Pair, e: Pair, x: seq<T>, y: seq<T>, p: Pair, q: Pair, p': Pair,
                       q': Pair)
    requires Chunk(a, b, s, e, x, y) && Joined(x, y, p, q) && p' == Place(s, p) && q' == Place(s, q)
    ensures Joined(a, b, p', q')
  {
    RunEmbed(x, y, a, b, s.0, s.1, p.0, p.1, q.0 - p.0);
  }

  lemma JoinedThrough<T>(a: seq<T>, b: seq<T>, o: Pair, s: Pair, t: Pair)
    requires Joined(a, b, o, s) && Joined(a, b, s, t)
    ensures Joined(a, b, o, t)
  {
    RunJoin(a, b, o.0, o.1, s.0, s.1, t.0);
  }

  lemma ChunkOfChunk<T>(a: seq<T>, b: seq<T>, s: Pair, e: Pair, x: seq<T>, y: seq<T>, p: Pair, q: Pair, p': Pair,
                        q': Pair)
    requires Chunk(a, b, s, e, x, y) && p.0 <= q.0 <= |x| && p.1 <= q.1 <= |y| && p' == Place(s, p) && q' == Place(s, q)
    ensures Chunk(a, b, p', q', x[p.0..q.0], y[p.1..q.1])
  {
    SliceOfStretch(a, s.0, x, p.0, q.0, p'.0, q'.0);
    SliceOfStretch(b, s.1, y, p.1, q.1, p'.1, q'.1);
  }

  /** Common runs around a chunk leave no line unmatched. */
  lemma UnmatchedInside<T>(a: seq<T>, b: seq<T>, o: Pair, s: Pair, e: Pair, f: Pair, x: seq<T>, y: seq<T>)
    requires Chunk(a, b, s, e, x, y) && Joined(a, b, o, s) && Joined(a, b, e, f)
    ensures o.0 <= f.0 <= |a| && o.1 <= f.1 <= |b|
    ensures Unmatched(a, b, o.0, o.1, f.0, f.1) == |x| + |y| - 2 * LcsLen(x, y, |x|, |y|)
  {
    var (X, Y, n, m) := (a[o.0..f.0], b[o.1..f.1], s.0 - o.0, f.0 - e.0);
    var (i1, j1) := (n + |x|, n + |y|);
    EndsInChunk(a, b, o, s, e, f, x, y, X, Y, n, i1, j1, m);
    LcsOfMiddle(X, Y, n, i1, j1, m, x, y);
  }

  lemma EndsInChunk<T>(a: seq<T>, b: seq<T>, o: Pair, s: Pair, e: Pair, f: Pair, x: seq<T>, y: seq<T>,
                       X: seq<T>, Y: seq<T>, n: nat, i1: nat, j1: nat, m: nat)
    requires Chunk(a, b, s, e, x, y) && Joined(a, b, o, s) && Joined(a, b, e, f) && Chunk(a, b, o, f, X, Y)
    requires n == s.0 - o.0 && m == f.0 - e.0 && i1 == n + |x| && j1 == n + |y|
    ensures i1 + m == |X| && j1 + m == |Y| && x == X[n..i1] && y == Y[n..j1]
    ensures SameRun(X, Y, 0, 0, n) && SameRun(X, Y, i1, j1, m)
  {
    RunInChunk(a, b, o, f, X, Y, (0, 0), o, n);
    RunInChunk(a, b, o, f, X, Y, (i1, j1), e, m);
    SliceOfStretch(a, o.0, X, n, i1, s.0, e.0);
    SliceOfStretch(b, o.1, Y, n, j1, s.1, e.1);
  }

  lemma RunInChunk<T>(a: seq<T>, b: seq<T>, s: Pair, e: Pair, x: seq<T>, y: seq<T>, p: Pair, p': Pair, n: nat)
    requires Chunk(a, b, s, e, x, y) && p' == Place(s, p) && p.0 + n <= |x| && p.1 + n <= |y|
    requires SameRun(a, b, p'.0, p'.1, n)
    ensures SameRun(x, y, p.0, p.1, n)
  {
    forall r | p.0 <= r < p.0 + n ensures x[r] == y[r - p.0 + p.1] {
      assert a[s.0 + r] == b[s.0 + r - p'.0 + p'.1];
    }
  }

  /** A chunk, between common runs that reach out to `o` and `f`, changes exactly the lines outside its
      anchors and the longest common subsequences between them. */
  lemma {:induction false} DiffChanges(a: seq<Id>, b: seq<Id>, o: Pair, s: Pair, e: Pair, f: Pair,
                                       x: seq<Id>, y: seq<Id>, depth: nat, c: seq<Pair>)
    requires Chunk(a, b, s, e, x, y) && Joined(a, b, o, s) && Joined(a, b, e, f)
    requires depth <= MAX_PATIENCE_DEPTH && NoneCoarse(x, y, depth) && c == DiffAnchors(x, y, depth, s)
    ensures ChainIn(a, b, o.0, o.1, f.0, f.1, c)
    ensures UnmatchedAround(a, b, o.0, o.1, f.0, f.1, c) == Changed(DiffHunks(x, y, depth))
    decreases MAX_PATIENCE_DEPTH - depth, 1, 0
  {
    var n, s', e', xm, ym := StrippedChunk(a, b, o, s, e, f, x, y);
    AnchorsOfMiddle(x, y, depth, s, n, xm, ym, s', MiddleAnchors(xm, ym, depth, s'));
    MiddleChanges(a, b, o, s', e', f, xm, ym, depth, c);
    ChangedShift(MiddleHunks(xm, ym, depth), n, n);
  }

  lemma AnchorsOfMiddle(x: seq<Id>, y: seq<Id>, depth: nat, s: Pair, n: nat, xm: seq<Id>, ym: seq<Id>, s': Pair,
                        c: seq<Pair>)
    requires depth <= MAX_PATIENCE_DEPTH && Middle(x, y) == (n, xm, ym) && s' == (s.0 + n, s.1 + n)
    requires c == MiddleAnchors(xm, ym, depth, s')
    ensures DiffAnchors(x, y, depth, s) == c
  {
  }

  /** What stripping leaves of a chunk stands between longer common runs. */
  lemma StrippedChunk(a: seq<Id>, b: seq<Id>, o: Pair, s: Pair, e: Pair, f: Pair, x: seq<Id>, y: seq<Id>)
    returns (n: nat, s': Pair, e': Pair, xm: seq<Id>, ym: seq<Id>)
    requires Chunk(a, b, s, e, x, y) && Joined(a, b, o, s) && Joined(a, b, e, f)
    ensures Middle(x, y) == (n, xm, ym) && s' == (s.0 + n, s.1 + n)
    ensures Chunk(a, b, s', e', xm, ym) && Joined(a, b, o, s') && Joined(a, b, e', f)
  {
    var i1, j1, m;
    n, i1, j1, m := EndsAgree(x, y);
    xm, ym := x[n..i1], y[n..j1];
    s', e' := (s.0 + n, s.1 + n), (s.0 + i1, s.1 + j1);
    ChunkOfChunk(a, b, s, e, x, y, (n, n), (i1, j1), s', e');
    JoinedEmbed(a, b, s, e, x, y, (0, 0), (n, n), s, s');
    JoinedThrough(a, b, o, s, s');
    JoinedEmbed(a, b, s, e, x, y, (i1, j1), (|x|, |y|), e', e);
    JoinedThrough(a, b, e', e, f);
  }

  lemma {:induction false} MiddleChanges(a: seq<Id>, b: seq<Id>, o: Pair, s: Pair, e: Pair, f: Pair,
                                         x: seq<Id>, y: seq<Id>, depth: nat, c: seq<Pair>)
    requires Chunk(a, b, s, e, x, y) && Joined(a, b, o, s) && Joined(a, b, e, f)
    requires depth <= MAX_PATIENCE_DEPTH && MiddleNotCoarse(x, y, depth) && c == MiddleAnchors(x, y, depth, s)
    ensures ChainIn(a, b, o.0, o.1, f.0, f.1, c)
    ensures UnmatchedAround(a, b, o.0, o.1, f.0, f.1, c) == Changed(MiddleHunks(x, y, depth))
    decreases MAX_PATIENCE_DEPTH - depth, 0, 0
  {
    if x != [] && y != [] && depth < MAX_PATIENCE_DEPTH && Anchors(x, y).Some? {
      var ch := MiddleIsGaps(x, y, depth, s);
      assert Place(s, (|x|, |y|)) == e;
      GapsChangeExactly(a, b, o, s, e, x, y, ch, |ch|, |ch| + 1, depth + 1, e, f, c);
    } else {
      LeafChanges(a, b, o, s, e, f, x, y, depth, c);
    }
  }

  /** A stripped chunk with anchors is diffed gap by gap. */
  lemma MiddleIsGaps(x: seq<Id>, y: seq<Id>, depth: nat, s: Pair) returns (ch: seq<Pair>)
    requires x != [] && y != [] && depth < MAX_PATIENCE_DEPTH && Anchors(x, y).Some?
    ensures CommonChain(x, y, ch)
    ensures MiddleAnchors(x, y, depth, s) == GapAnchorsTo(x, y, ch, |ch|, depth + 1, s)
    ensures MiddleHunks(x, y, depth) == GapHunksTo(x, y, ch, |ch| + 1, depth + 1)
    ensures MiddleNotCoarse(x, y, depth) <==> GapsNotCoarse(x, y, ch, depth + 1)
  {
    AnchorsAreCommon(x, y);
    ch := Anchors(x, y).value;
  }

  lemma LeafChanges(a: seq<Id>, b: seq<Id>, o: Pair, s: Pair, e: Pair, f: Pair, x: seq<Id>, y: seq<Id>,
                    depth: nat, c: seq<Pair>)
    requires Chunk(a, b, s, e, x, y) && Joined(a, b, o, s) && Joined(a, b, e, f)
    requires depth <= MAX_PATIENCE_DEPTH && Exact(x, y, depth) && c == []
    ensures ChainIn(a, b, o.0, o.1, f.0, f.1, c)
    ensures UnmatchedAround(a, b, o.0, o.1, f.0, f.1, c) == Changed(MiddleHunks(x, y, depth))
  {
    UnmatchedInside(a, b, o, s, e, f, x, y);
    MiddleChanged(x, y, depth);
  }

  /** The gaps up to gap `k`, which ends at `t`. */
  lemma {:induction false} GapsChangeExactly(a: seq<Id>, b: seq<Id>, o: Pair, s: Pair, e: Pair, x: seq<Id>, y: seq<Id>,
                                             ch: seq<Pair>, k: nat, next: nat, depth: nat, t: Pair, f: Pair,
                                             c: seq<Pair>)
    requires CommonChain(x, y, ch) && k <= |ch| && next == k + 1 && depth <= MAX_PATIENCE_DEPTH
    requires Chunk(a, b, s, e, x, y) && Joined(a, b, o, s)
    requires t == Place(s, GapEnd(x, y, ch, k)) && Joined(a, b, t, f)
    requires GapsNotCoarse(x, y, ch, depth) && c == GapAnchorsTo(x, y, ch, k, depth, s)
    ensures ChainIn(a, b, o.0, o.1, f.0, f.1, c)
    ensures UnmatchedAround(a, b, o.0, o.1, f.0, f.1, c) == Changed(GapHunksTo(x, y, ch, next, depth))
    decreases MAX_PATIENCE_DEPTH - depth, 3, k
  {
    if k == 0 {
      GapChangesExactly(a, b, o, s, e, x, y, ch, k, depth, s, t, f, c);
      GapsChangedNext(x, y, ch, k, next, depth);
    } else {
      var m := k - 1;
      var p := Place(s, ch[m]);
      GapsChangeExactly(a, b, o, s, e, x, y, ch, m, k, depth, p, p, GapAnchorsTo(x, y, ch, m, depth, s));
      OneMoreGap(a, b, o, s, e, x, y, ch, m, k, next, depth, p, t, f, GapAnchorsTo(x, y, ch, m, depth, s), c);
    }
  }

  lemma {:induction false} OneMoreGap(a: seq<Id>, b: seq<Id>, o: Pair, s: Pair, e: Pair, x: seq<Id>, y: seq<Id>,
                                      ch: seq<Pair>, m: nat, k: nat, next: nat, depth: nat, p: Pair, t: Pair, f: Pair,
                                      before: seq<Pair>, c: seq<Pair>)
    requires CommonChain(x, y, ch) && k <= |ch| && next == k + 1 && k == m + 1 && depth <= MAX_PATIENCE_DEPTH
    requires Chunk(a, b, s, e, x, y) && p == Place(s, ch[m])
    requires t == Place(s, GapEnd(x, y, ch, k)) && Joined(a, b, t, f)
    requires GapNotCoarse(x, y, ch, k, depth)
    requires before == GapAnchorsTo(x, y, ch, m, depth, s) && c == GapAnchorsTo(x, y, ch, k, depth, s)
    requires ChainIn(a, b, o.0, o.1, p.0, p.1, before)
    requires UnmatchedAround(a, b, o.0, o.1, p.0, p.1, before) == Changed(GapHunksTo(x, y, ch, k, depth))
    ensures ChainIn(a, b, o.0, o.1, f.0, f.1, c)
    ensures UnmatchedAround(a, b, o.0, o.1, f.0, f.1, c) == Changed(GapHunksTo(x, y, ch, next, depth))
    decreases MAX_PATIENCE_DEPTH - depth, 3, 0
  {
    var (q, own) := (Place(s, GapStart(ch, k)), GapAnchors(x, y, ch, k, depth, s));
    GapChangesExactly(a, b, q, s, e, x, y, ch, k, depth, q, t, f, own);
    GapAnchorsNext(x, y, ch, m, k, depth, s, p, q, before, own, c);
    AnchorInTexts(a, b, s, e, x, y, ch[m], p);
    ChainConcat(a, b, o.0, o.1, p, q, f.0, f.1, before, own, c);
    GapsChangedNext(x, y, ch, k, next, depth);
  }

  lemma GapsChangedNext(x: seq<Id>, y: seq<Id>, ch: seq<Pair>, k: nat, next: nat, depth: nat)
    requires CommonChain(x, y, ch) && k <= |ch| && next == k + 1 && depth <= MAX_PATIENCE_DEPTH
    ensures Changed(GapHunksTo(x, y, ch, next, depth))
         == Changed(GapHunksTo(x, y, ch, k, depth)) + Changed(GapHunks(x, y, ch, k, depth))
    ensures k == 0 ==> Changed(GapHunksTo(x, y, ch, k, depth)) == 0
  {
    ChangedConcat(GapHunksTo(x, y, ch, k, depth), GapHunks(x, y, ch, k, depth));
  }

  lemma GapAnchorsNext(x: seq<Id>, y: seq<Id>, ch: seq<Pair>, k: nat, next: nat, depth: nat, s: Pair, p: Pair, q: Pair,
                       before: seq<Pair>, own: seq<Pair>, c: seq<Pair>)
    requires CommonChain(x, y, ch) && k < |ch| && next == k + 1 && depth <= MAX_PATIENCE_DEPTH
    requires p == Place(s, ch[k]) && q == Place(s, GapStart(ch, next))
    requires before == GapAnchorsTo(x, y, ch, k, depth, s) && own == GapAnchors(x, y, ch, next, depth, s)
    requires c == GapAnchorsTo(x, y, ch, next, depth, s)
    ensures c == before + [p] + own && q == (p.0 + 1, p.1 + 1)
  {
  }

  lemma AnchorInTexts<T>(a: seq<T>, b: seq<T>, s: Pair, e: Pair, x: seq<T>, y: seq<T>, p: Pair, p': Pair)
    requires Chunk(a, b, s, e, x, y) && p.0 < |x| && p.1 < |y| && x[p.0] == y[p.1] && p' == Place(s, p)
    ensures p'.0 < |a| && p'.1 < |b| && a[p'.0] == b[p'.1]
  {
  }

  lemma {:induction false} GapChangesExactly(a: seq<Id>, b: seq<Id>, o: Pair, s: Pair, e: Pair, x: seq<Id>, y: seq<Id>,
                                             ch: seq<Pair>, k: nat, depth: nat, r: Pair, t: Pair, f: Pair, c: seq<Pair>)
    requires CommonChain(x, y, ch) && k <= |ch| && depth <= MAX_PATIENCE_DEPTH && Chunk(a, b, s, e, x, y)
    requires r == Place(s, GapStart(ch, k)) && Joined(a, b, o, r)
    requires t == Place(s, GapEnd(x, y, ch, k)) && Joined(a, b, t, f)
    requires GapNotCoarse(x, y, ch, k, depth) && c == GapAnchors(x, y, ch, k, depth, s)
    ensures ChainIn(a, b, o.0, o.1, f.0, f.1, c)
    ensures UnmatchedAround(a, b, o.0, o.1, f.0, f.1, c) == Changed(GapHunks(x, y, ch, k, depth))
    decreases MAX_PATIENCE_DEPTH - depth, 2, 0
  {
    GapInRange(x, y, ch, k);
    var (gs, ge) := (GapStart(ch, k), GapEnd(x, y, ch, k));
    var (gx, gy) := (x[gs.0..ge.0], y[gs.1..ge.1]);
    ChunkOfChunk(a, b, s, e, x, y, gs, ge, r, t);
    DiffChanges(a, b, o, r, t, f, gx, gy, depth, c);
    ChangedShift(DiffHunks(gx, gy, depth), gs.0, gs.1);
  }

  /** No script that matches the anchors of a diff changes fewer lines than the diff. */
  lemma DiffIsMinimalAround(a: seq<Id>, b: seq<Id>, depth: nat, hs: seq<Hunk>)
    requires depth <= MAX_PATIENCE_DEPTH && NoneCoarse(a, b, depth)
    requires IsScript(a, b, hs) && MatchesAll(hs, 0, 0, DiffAnchors(a, b, depth, (0, 0)))
    ensures Changed(DiffHunks(a, b, depth)) <= Changed(hs)
  {
    var (o, e, c) := ((0, 0), (|a|, |b|), DiffAnchors(a, b, depth, (0, 0)));
    SliceWhole(a);
    SliceWhole(b);
    DiffChanges(a, b, o, o, e, e, a, b, depth, c);
    MatchingChangesAtLeast(a, b, 0, 0, |a|, |b|, c, hs, Changed(DiffHunks(a, b, depth)));
  }

  // ----- The diff matches its anchors ---------------------------------------------------------------------

  ghost predicate MatchesWithin(hs: seq<Hunk>, s: Pair, end: nat, c: seq<Pair>) {
    forall k :: 0 <= k < |c| ==> s.0 <= c[k].0 < end && Matches(hs, s.0, s.1, c[k])
  }

  /** Every hunk ends at or before old line `n`. */
  ghost predicate EndBy(hs: seq<Hunk>, n: nat) {
    forall l :: 0 <= l < |hs| ==> hs[l].OldEnd() <= n
  }

  /** A script leaves its end positions opposite each other. */
  lemma {:induction false} ScriptEnds<T>(a: seq<T>, b: seq<T>, i: nat, j: nat, p: Pair, hs: seq<Hunk>)
    requires Script(a, b, i, j, p.0, p.1, hs)
    ensures Matches(hs, i, j, p)
    decreases |hs|
  {
    if hs != [] { ScriptEnds(a, b, hs[0].OldEnd(), hs[0].NewEnd(), p, hs[1..]); }
  }

  lemma {:induction false} MatchesShift(hs: seq<Hunk>, i: nat, j: nat, p: Pair, s: Pair, gs: seq<Hunk>, i': nat,
                                        j': nat, p': Pair)
    requires Matches(hs, i, j, p) && gs == ShiftAll(hs, s.0, s.1)
    requires i' == s.0 + i && j' == s.1 + j && p' == Place(s, p)
    ensures Matches(gs, i', j', p')
    decreases |hs|
  {
    if hs != [] && hs[0].oldStart <= p.0 {
      var (h, g) := (hs[0], gs[0]);
      assert gs[1..] == ShiftAll(hs[1..], s.0, s.1);
      MatchesShift(hs[1..], h.OldEnd(), h.NewEnd(), p, s, gs[1..], g.OldEnd(), g.NewEnd(), p');
    }
  }

  /** Hunks behind a matched pair leave it matched. */
  lemma {:induction false} MatchesMore(gs: seq<Hunk>, ks: seq<Hunk>, hs: seq<Hunk>, i: nat, j: nat, p: Pair)
    requires Matches(gs, i, j, p) && hs == gs + ks && (ks != [] ==> p.0 < ks[0].oldStart)
    ensures Matches(hs, i, j, p)
    decreases |gs|
  {
    if gs == [] {
      assert hs == ks;
    } else if gs[0].oldStart <= p.0 {
      assert hs[1..] == gs[1..] + ks;
      MatchesMore(gs[1..], ks, hs[1..], gs[0].OldEnd(), gs[0].NewEnd(), p);
    }
  }

  /** Hunks in front of `p` leave matched what is matched from behind `p` on. */
  lemma {:induction false} MatchesAfter(gs: seq<Hunk>, ks: seq<Hunk>, hs: seq<Hunk>, i: nat, j: nat, p: Pair,
                                        q: Pair, r: Pair)
    requires Matches(gs, i, j, p) && EndBy(gs, p.0) && hs == gs + ks && q == (p.0 + 1, p.1 + 1)
    requires q.0 <= r.0 && Matches(ks, q.0, q.1, r)
    ensures Matches(hs, i, j, r)
    decreases |gs|
  {
    if gs == [] {
      assert hs == ks;
    } else {
      assert gs[0].OldEnd() <= p.0;
      assert EndBy(gs[1..], p.0);
      assert hs[1..] == gs[1..] + ks;
      MatchesAfter(gs[1..], ks, hs[1..], gs[0].OldEnd(), gs[0].NewEnd(), p, q, r);
    }
  }

  lemma AppendMatches(gs: seq<Hunk>, ks: seq<Hunk>, hs: seq<Hunk>, s: Pair, p: Pair, q: Pair, end: nat,
                      before: seq<Pair>, own: seq<Pair>, c: seq<Pair>)
    requires hs == gs + ks && c == before + [p] + own && q == (p.0 + 1, p.1 + 1) && s.0 <= p.0 < end
    requires Matches(gs, s.0, s.1, p) && EndBy(gs, p.0) && (ks != [] ==> q.0 <= ks[0].oldStart)
    requires MatchesWithin(gs, s, p.0, before) && MatchesWithin(ks, q, end, own)
    ensures MatchesWithin(hs, s, end, c)
  {
    forall k | 0 <= k < |c| ensures s.0 <= c[k].0 < end && Matches(hs, s.0, s.1, c[k]) {
      if k < |before| {
        assert c[k] == before[k];
        MatchesMore(gs, ks, hs, s.0, s.1, before[k]);
      } else if k == |before| {
        MatchesMore(gs, ks, hs, s.0, s.1, p);
      } else {
        var r := own[k - |before| - 1];
        assert c[k] == r;
        MatchesAfter(gs, ks, hs, s.0, s.1, p, q, r);
      }
    }
  }

  lemma {:induction false} ChunkMatches(x: seq<Id>, y: seq<Id>, depth: nat, s: Pair, end: nat, hs: seq<Hunk>,
                                        c: seq<Pair>)
    requires depth <= MAX_PATIENCE_DEPTH && end == s.0 + |x|
    requires hs == ShiftAll(DiffHunks(x, y, depth), s.0, s.1) && c == DiffAnchors(x, y, depth, s)
    ensures MatchesWithin(hs, s, end, c)
    decreases MAX_PATIENCE_DEPTH - depth, 1, 0
  {
    var n, i1, j1, m := EndsAgree(x, y);
    var (xm, ym, s') := (x[n..i1], y[n..j1], (s.0 + n, s.1 + n));
    AnchorsOfMiddle(x, y, depth, s, n, xm, ym, s', MiddleAnchors(xm, ym, depth, s'));
    StripPushed(x, y, n, xm, ym, depth, s.0, s.1);
    MiddleMatches(xm, ym, depth, s', s'.0 + |xm|, hs, c);
    forall k | 0 <= k < |c| ensures s.0 <= c[k].0 < end && Matches(hs, s.0, s.1, c[k]) {
      assert Matches(hs, s'.0, s'.1, c[k]);
    }
  }

  lemma {:induction false} MiddleMatches(x: seq<Id>, y: seq<Id>, depth: nat, s: Pair, end: nat, hs: seq<Hunk>,
                                         c: seq<Pair>)
    requires depth <= MAX_PATIENCE_DEPTH && end == s.0 + |x|
    requires hs == ShiftAll(MiddleHunks(x, y, depth), s.0, s.1) && c == MiddleAnchors(x, y, depth, s)
    ensures MatchesWithin(hs, s, end, c)
    decreases MAX_PATIENCE_DEPTH - depth, 0, 0
  {
    if x != [] && y != [] && depth < MAX_PATIENCE_DEPTH && Anchors(x, y).Some? {
      var ch := MiddleIsGaps(x, y, depth, s);
      GapsMatch(x, y, ch, |ch|, |ch| + 1, depth + 1, s, end, hs, c);
    } else {
      assert c == [];
    }
  }

  lemma {:induction false} GapsMatch(x: seq<Id>, y: seq<Id>, ch: seq<Pair>, k: nat, next: nat, depth: nat,
                                     s: Pair, end: nat, hs: seq<Hunk>, c: seq<Pair>)
    requires CommonChain(x, y, ch) && k <= |ch| && next == k + 1 && depth <= MAX_PATIENCE_DEPTH
    requires end == s.0 + GapEnd(x, y, ch, k).0
    requires hs == ShiftAll(GapHunksTo(x, y, ch, next, depth), s.0, s.1) && c == GapAnchorsTo(x, y, ch, k, depth, s)
    ensures MatchesWithin(hs, s, end, c)
    decreases MAX_PATIENCE_DEPTH - depth, 3, k
  {
    var ks := ShiftAll(GapHunks(x, y, ch, k, depth), s.0, s.1);
    GapsPushedNext(x, y, ch, k, next, depth, s);
    if k == 0 {
      assert hs == ks;
      GapMatches(x, y, ch, k, depth, s, s, end, ks, c);
    } else {
      var m := k - 1;
      var (p, q) := (Place(s, ch[m]), Place(s, GapStart(ch, k)));
      var (gs, before) := (ShiftAll(GapHunksTo(x, y, ch, k, depth), s.0, s.1), GapAnchorsTo(x, y, ch, m, depth, s));
      var own := GapAnchors(x, y, ch, k, depth, s);
      GapsMatch(x, y, ch, m, k, depth, s, p.0, gs, before);
      GapMatches(x, y, ch, k, depth, s, q, end, ks, own);
      GapAnchorsNext(x, y, ch, m, k, depth, s, p, q, before, own, c);
      GapsEndAt(x, y, ch, m, k, depth, s, p, gs);
      GapStartsAt(x, y, ch, k, depth, s, q, end, ks);
      AppendMatches(gs, ks, hs, s, p, q, end, before, own, c);
    }
  }

  lemma GapsPushedNext(x: seq<Id>, y: seq<Id>, ch: seq<Pair>, k: nat, next: nat, depth: nat, s: Pair)
    requires CommonChain(x, y, ch) && k <= |ch| && next == k + 1 && depth <= MAX_PATIENCE_DEPTH
    ensures ShiftAll(GapHunksTo(x, y, ch, next, depth), s.0, s.1)
         == ShiftAll(GapHunksTo(x, y, ch, k, depth), s.0, s.1) + ShiftAll(GapHunks(x, y, ch, k, depth), s.0, s.1)
    ensures k == 0 ==> GapHunksTo(x, y, ch, k, depth) == []
  {
    ShiftConcat(GapHunksTo(x, y, ch, k, depth), GapHunks(x, y, ch, k, depth), s.0, s.1);
  }

  lemma GapsEndAt(x: seq<Id>, y: seq<Id>, ch: seq<Pair>, m: nat, k: nat, depth: nat, s: Pair, p: Pair, gs: seq<Hunk>)
    requires CommonChain(x, y, ch) && m < |ch| && k == m + 1 && depth <= MAX_PATIENCE_DEPTH && p == Place(s, ch[m])
    requires gs == ShiftAll(GapHunksTo(x, y, ch, k, depth), s.0, s.1)
    ensures Matches(gs, s.0, s.1, p) && EndBy(gs, p.0)
  {
    var hs := GapHunksTo(x, y, ch, k, depth);
    GapsAreScript(x, y, ch, k, depth, ch[m], hs);
    ScriptEnds(x, y, 0, 0, ch[m], hs);
    MatchesShift(hs, 0, 0, ch[m], s, gs, s.0, s.1, p);
    forall l | 0 <= l < |gs| ensures gs[l].OldEnd() <= p.0 { ScriptOrdered(x, y, 0, 0, ch[m].0, ch[m].1, hs, l); }
  }

  lemma GapStartsAt(x: seq<Id>, y: seq<Id>, ch: seq<Pair>, k: nat, depth: nat, s: Pair, q: Pair, end: nat,
                    ks: seq<Hunk>)
    requires CommonChain(x, y, ch) && k <= |ch| && depth <= MAX_PATIENCE_DEPTH && q == Place(s, GapStart(ch, k))
    requires end == s.0 + GapEnd(x, y, ch, k).0
    requires ks == ShiftAll(GapHunks(x, y, ch, k, depth), s.0, s.1)
    ensures q.0 <= end && (ks != [] ==> q.0 <= ks[0].oldStart)
  {
    var (gs, ge, hs) := (GapStart(ch, k), GapEnd(x, y, ch, k), GapHunks(x, y, ch, k, depth));
    GapInRange(x, y, ch, k);
    GapIsScript(x, y, ch, k, depth, gs, ge, hs);
    if ks != [] { ScriptOrdered(x, y, gs.0, gs.1, ge.0, ge.1, hs, 0); }
  }

  lemma {:induction false} GapMatches(x: seq<Id>, y: seq<Id>, ch: seq<Pair>, k: nat, depth: nat, s: Pair,
                                      q: Pair, end: nat, ks: seq<Hunk>, c: seq<Pair>)
    requires CommonChain(x, y, ch) && k <= |ch| && depth <= MAX_PATIENCE_DEPTH
    requires q == Place(s, GapStart(ch, k)) && end == s.0 + GapEnd(x, y, ch, k).0
    requires ks == ShiftAll(GapHunks(x, y, ch, k, depth), s.0, s.1) && c == GapAnchors(x, y, ch, k, depth, s)
    ensures MatchesWithin(ks, q, end, c)
    decreases MAX_PATIENCE_DEPTH - depth, 2, 0
  {
    GapInRange(x, y, ch, k);
    var (gs, ge) := (GapStart(ch, k), GapEnd(x, y, ch, k));
    var (gx, gy) := (x[gs.0..ge.0], y[gs.1..ge.1]);
    ShiftTwice(DiffHunks(gx, gy, depth), gs.0, gs.1, s.0, s.1);
    ChunkMatches(gx, gy, depth, q, end, ks, c);
  }

  /** The diff itself matches the anchors of every recursion depth. */
  lemma DiffMatchesAnchors(a: seq<Id>, b: seq<Id>, depth: nat)
    requires depth <= MAX_PATIENCE_DEPTH
    ensures MatchesAll(DiffHunks(a, b, depth), 0, 0, DiffAnchors(a, b, depth, (0, 0)))
  {
    var hs := DiffHunks(a, b, depth);
    assert ShiftAll(hs, 0, 0) == hs;
    ChunkMatches(a, b, depth, (0, 0), |a|, hs, DiffAnchors(a, b, depth, (0, 0)));
  }

  // ----- Two lines that change places ----------------------------------------------------------------------

  /** No hunk changes the number of lines. */
  ghost predicate Balanced(hs: seq<Hunk>) {
    forall k :: 0 <= k < |hs| ==> hs[k].oldCount == hs[k].newCount
  }

  /** Such hunks match lines of equal number only. */
  lemma {:induction false} BalancedMatches<T>(a: seq<T>, b: seq<T>, i: nat, hs: seq<Hunk>, p: Pair)
    requires Script(a, b, i, i, |a|, |b|, hs) && Balanced(hs) && Matches(hs, i, i, p)
    ensures p.0 == p.1
    decreases |hs|
  {
    if hs != [] && hs[0].oldStart <= p.0 {
      assert hs[0].oldCount == hs[0].newCount && Balanced(hs[1..]);
      BalancedMatches(a, b, hs[0].OldEnd(), hs[1..], p);
    }
  }

  lemma {:induction false} AnchorIsThere(x: seq<Id>, y: seq<Id>, ch: seq<Pair>, k: nat, depth: nat, o: Pair)
    requires CommonChain(x, y, ch) && 0 < k <= |ch| && depth <= MAX_PATIENCE_DEPTH
    ensures Place(o, ch[0]) in GapAnchorsTo(x, y, ch, k, depth, o)
    decreases k
  {
    if k > 1 { AnchorIsThere(x, y, ch, k - 1, depth, o); }
  }

  /** Two lines that change places are not matched in place, so that some hunk changes the number of lines. */
  lemma SwapIsNotBalanced(a: seq<Id>, b: seq<Id>)
    requires |a| == 2 && b == [a[1], a[0]] && a[0] != a[1]
    ensures !Balanced(DiffHunks(a, b, 0))
  {
    var all := DiffAnchors(a, b, 0, (0, 0));
    var p := SwapHasAnchor(a, b, 0, (0, 0));
    var k :| 0 <= k < |all| && all[k] == p;
    DiffMatchesAnchors(a, b, 0);
    DiffIsScript(a, b, 0);
    if Balanced(DiffHunks(a, b, 0)) {
      BalancedMatches(a, b, 0, DiffHunks(a, b, 0), p);
    }
  }

  lemma SwapHasAnchor(a: seq<Id>, b: seq<Id>, depth: nat, o: Pair) returns (p: Pair)
    requires |a| == 2 && b == [a[1], a[0]] && a[0] != a[1] && depth < MAX_PATIENCE_DEPTH && o == (0, 0)
    ensures p in DiffAnchors(a, b, depth, o) && p.0 != p.1
  {
    var c := SwapAnchors(a, b);
    p := c[0];
    assert Place(o, p) == p;
    AnchorsAreCommon(a, b);
    AnchorIsThere(a, b, c, |c|, depth + 1, o);
    assert a[0..2] == a && b[0..2] == b;
    AnchorsOfMiddle(a, b, depth, o, 0, a, b, o, MiddleAnchors(a, b, depth, o));
  }

  lemma SwapAnchors(a: seq<Id>, b: seq<Id>) returns (c: seq<Pair>)
    requires |a| == 2 && b == [a[1], a[0]] && a[0] != a[1]
    ensures Anchors(a, b) == Some(c) && c != [] && c[0].0 != c[0].1
  {
    assert a == [a[0], a[1]] && multiset([a[0], a[1]])[a[0]] == 1 && multiset([a[1], a[0]])[a[0]] == 1;
    assert UniqueMatch(a, b, (0, 1));
    AnchorsAreLongest(a, b, [(0, 1)]);
    c := Anchors(a, b).value;
    assert UniqueMatch(a, b, c[0]);
  }
}
