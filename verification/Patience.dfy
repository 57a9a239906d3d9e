/**
  Patience anchors: lines that occur exactly once on each side, chained by a longest
  increasing subsequence.
 */
module Patience {
  import opened Utils

  /** An interned line. */
  type Id = nat

  /** A matched pair of line positions, (old, new). */
  type Pair = (nat, nat)

  /** `x` occurs exactly once in `s`. */
  ghost predicate Once(s: seq<Id>, x: Id) { multiset(s)[x] == 1 }

  /** The pair matches a line that is unique on both sides. */
  ghost predicate UniqueMatch(a: seq<Id>, b: seq<Id>, p: Pair) {
    p.0 < |a| && p.1 < |b| && a[p.0] == b[p.1] && Once(a, a[p.0]) && Once(b, b[p.1])
  }

  ghost predicate Increasing(c: seq<Pair>) {
    forall k, l :: 0 <= k < l < |c| ==> c[k].0 < c[l].0 && c[k].1 < c[l].1
  }

  /** A chain of unique matches, in order on both sides. */
  ghost predicate AnchorChain(a: seq<Id>, b: seq<Id>, c: seq<Pair>) {
    Increasing(c) && forall k :: 0 <= k < |c| ==> UniqueMatch(a, b, c[k])
  }

  lemma Twice(s: seq<Id>, i: nat, j: nat)
    requires i < j < |s| && s[i] == s[j]
    ensures !Once(s, s[i])
  {
    assert s == s[..j] + s[j..];
    assert s[i] in s[..j] && s[j..][0] == s[i];
  }

  /** A unique line sits at one position only. */
  lemma OnceAt(s: seq<Id>, i: nat, j: nat)
    requires i < |s| && j < |s| && s[i] == s[j] && Once(s, s[i])
    ensures i == j
  {
    if i != j { Twice(s, if i < j then i else j, if i < j then j else i); }
  }

  // ----- Candidate pairs ---------------------------------------------------------------

  /** `ps` lists every unique match with new position below `j`, in order of new position. */
  ghost predicate AllPairs(a: seq<Id>, b: seq<Id>, ps: seq<Pair>, j: nat) {
    && (forall k :: 0 <= k < |ps| ==> UniqueMatch(a, b, ps[k]) && ps[k].1 < j)
    && (forall k, l :: 0 <= k < l < |ps| ==> ps[k].1 < ps[l].1)
    && (forall p: Pair :: UniqueMatch(a, b, p) && p.1 < j ==> p in ps)
  }

  datatype Occurrence = Occurrence(oldCount: nat, newCount: nat, oldPos: nat)

  ghost predicate OldCounted(a: seq<Id>, occ: map<Id, Occurrence>, i: nat) {
    i <= |a| && forall x ::
      && (x in occ <==> x in a[..i])
      && (x in occ ==>
            && occ[x].oldCount == multiset(a[..i])[x] && occ[x].newCount == 0
            && occ[x].oldPos < i && a[occ[x].oldPos] == x)
  }

  ghost predicate BothCounted(a: seq<Id>, b: seq<Id>, occ: map<Id, Occurrence>, j: nat) {
    j <= |b| && forall x ::
      && (x in occ <==> x in a)
      && (x in occ ==>
            && occ[x].oldCount == multiset(a)[x] && occ[x].newCount == multiset(b[..j])[x]
            && occ[x].oldPos < |a| && a[occ[x].oldPos] == x)
  }

  lemma CountSnoc(s: seq<Id>, i: nat)
    requires i < |s|
    ensures s[..i + 1] == s[..i] + [s[i]]
    ensures multiset(s[..i + 1]) == multiset(s[..i]) + multiset{s[i]}
  {
    assert s[..i + 1] == s[..i] + [s[i]];
  }

  method CountOld(a: seq<Id>) returns (occ: map<Id, Occurrence>)
    requires |a| < U32_RANGE
    ensures OldCounted(a, occ, |a|)
  {
    occ := map[];
    for i := 0 to |a|
      invariant OldCounted(a, occ, i)
    {
      CountSnoc(a, i);
      var e := if a[i] in occ then occ[a[i]] else Occurrence(0, 0, 0);
      occ := occ[a[i] := e.(oldCount := e.oldCount + 1, oldPos := AsU32(i))];
    }
  }

  method CountNew(a: seq<Id>, b: seq<Id>, occ0: map<Id, Occurrence>) returns (occ: map<Id, Occurrence>)
    requires OldCounted(a, occ0, |a|)
    ensures BothCounted(a, b, occ, |b|)
  {
    occ := occ0;
    assert a[..|a|] == a;
    for j := 0 to |b|
      invariant BothCounted(a, b, occ, j)
    {
      CountSnoc(b, j);
      if b[j] in occ {
        var e := occ[b[j]];
        occ := occ[b[j] := e.(newCount := e.newCount + 1)];
      }
    }
    assert b[..|b|] == b;
  }

  /** The position of a unique line. */
  ghost function Position(a: seq<Id>, x: Id): (i: nat)
    requires x in a
    ensures i < |a| && a[i] == x
  {
    var i :| 0 <= i < |a| && a[i] == x;
    i
  }

  /** The candidate at new position `j`, if its line is unique on both sides. */
  ghost function PairAt(a: seq<Id>, b: seq<Id>, j: nat): (r: seq<Pair>)
    requires j < |b|
  {
    if Once(a, b[j]) && Once(b, b[j]) then [(Position(a, b[j]), j)] else []
  }

  /** The candidate pairs with new position below `j`. */
  ghost function PairsTo(a: seq<Id>, b: seq<Id>, j: nat): (r: seq<Pair>)
    requires j <= |b|
  {
    if j == 0 then [] else PairsTo(a, b, j - 1) + PairAt(a, b, j - 1)
  }

  lemma AllPairsPush(a: seq<Id>, b: seq<Id>, ps: seq<Pair>, j: nat, o: nat)
    requires j < |b| && AllPairs(a, b, ps, j) && UniqueMatch(a, b, (o, j))
    ensures AllPairs(a, b, ps + [(o, j)], j + 1)
  {
    var qs := ps + [(o, j)];
    forall p: Pair | UniqueMatch(a, b, p) && p.1 < j + 1 ensures p in qs {
      if p.1 == j {
        OnceAt(a, p.0, o);
        assert p == qs[|ps|];
      } else {
        assert p in ps;
      }
    }
  }

  lemma AllPairsSkip(a: seq<Id>, b: seq<Id>, ps: seq<Pair>, j: nat)
    requires j < |b| && AllPairs(a, b, ps, j)
    requires !(Once(a, b[j]) && Once(b, b[j]))
    ensures AllPairs(a, b, ps, j + 1)
  {
    forall p: Pair | UniqueMatch(a, b, p) && p.1 < j + 1 ensures p in ps { assert p.1 != j; }
  }

  lemma AllPairsStep(a: seq<Id>, b: seq<Id>, ps: seq<Pair>, j: nat, next: nat)
    requires j < |b| && AllPairs(a, b, ps, j) && next == j + 1
    ensures AllPairs(a, b, ps + PairAt(a, b, j), next)
  {
    if Once(a, b[j]) && Once(b, b[j]) {
      AllPairsPush(a, b, ps, j, Position(a, b[j]));
    } else {
      AllPairsSkip(a, b, ps, j);
      assert ps + [] == ps;
    }
  }

  /** The candidates are exactly the unique matches, sorted by new position. */
  lemma {:induction false} PairsAreAll(a: seq<Id>, b: seq<Id>, j: nat)
    requires j <= |b|
    ensures AllPairs(a, b, PairsTo(a, b, j), j)
  {
    if j > 0 {
      PairsAreAll(a, b, j - 1);
      AllPairsStep(a, b, PairsTo(a, b, j - 1), j - 1, j);
    }
  }

  /** Collect the candidate pairs in order of new position. */
  method CollectPairs(a: seq<Id>, b: seq<Id>) returns (ps: seq<Pair>)
    requires |a| < U32_RANGE && |b| < U32_RANGE
    ensures ps == PairsTo(a, b, |b|)
  {
    var occ := CountOld(a);
    occ := CountNew(a, b, occ);
    assert b[..|b|] == b;
    ps := [];
    for j := 0 to |b|
      invariant ps == PairsTo(a, b, j)
    {
      if b[j] in occ && occ[b[j]].oldCount == 1 && occ[b[j]].newCount == 1 {
        OnceAt(a, occ[b[j]].oldPos, Position(a, b[j]));
        ps := ps + [(occ[b[j]].oldPos, AsU32(j))];
      }
    }
  }

  // ----- Longest increasing chains ------------------------------------------------------

  /** Length of the longest chain of candidates, increasing in old position, ending at `i`. */
  ghost function Len(ps: seq<Pair>, i: nat): (r: nat)
    requires i < |ps|
    decreases i, 1, 0
  {
    1 + LenBelow(ps, i, i)
  }

  /** Longest chain among the first `k` candidates that `i` can extend. */
  ghost function LenBelow(ps: seq<Pair>, i: nat, k: nat): (r: nat)
    requires k <= i < |ps|
    decreases i, 0, k
  {
    if k == 0 then 0
    else
      var r := LenBelow(ps, i, k - 1);
      if ps[k - 1].0 < ps[i].0 && r < Len(ps, k - 1) then Len(ps, k - 1) else r
  }

  lemma {:induction false} LenBelowIsMax(ps: seq<Pair>, i: nat, k: nat)
    requires k <= i < |ps|
    ensures forall h :: 0 <= h < k && ps[h].0 < ps[i].0 ==> Len(ps, h) <= LenBelow(ps, i, k)
    ensures LenBelow(ps, i, k) == 0 || exists h :: 0 <= h < k && ps[h].0 < ps[i].0 && Len(ps, h) == LenBelow(ps, i, k)
    decreases k
  {
    if k > 0 { LenBelowIsMax(ps, i, k - 1); }
  }

  /** The most recent of the first `k` candidates whose longest chain has length `n`. */
  ghost function Latest(ps: seq<Pair>, n: nat, k: nat): (r: Option<nat>)
    requires k <= |ps|
    ensures r.Some? ==> r.value < k && Len(ps, r.value) == n
    ensures forall h :: 0 <= h < k && Len(ps, h) == n ==> r.Some? && h <= r.value
  {
    if k == 0 then None
    else if Len(ps, k - 1) == n then Some(k - 1)
    else Latest(ps, n, k - 1)
  }

  /** Among chains of one length, the most recent ends at the smallest old position. */
  lemma LatestIsLeast(ps: seq<Pair>, n: nat, k: nat, h: nat)
    requires h < k <= |ps| && Len(ps, h) == n
    ensures Latest(ps, n, k).Some? && ps[Latest(ps, n, k).value].0 <= ps[h].0
  {
    var l := Latest(ps, n, k).value;
    LenBelowIsMax(ps, l, l);
  }

  /** What a chain longer than one extends: the most recent chain one shorter. */
  lemma ChainStep(ps: seq<Pair>, i: nat)
    requires i < |ps| && Len(ps, i) > 1
    ensures var l := Latest(ps, Len(ps, i) - 1, i); l.Some? && l.value < i && ps[l.value].0 < ps[i].0
  {
    LenBelowIsMax(ps, i, i);
    var h :| 0 <= h < i && ps[h].0 < ps[i].0 && Len(ps, h) == LenBelow(ps, i, i);
    LatestIsLeast(ps, Len(ps, i) - 1, i, h);
  }

  /** The chain the back pointers spell out, ending at `i`. */
  ghost function Chain(ps: seq<Pair>, i: nat): (r: seq<Pair>)
    requires i < |ps|
    decreases i
  {
    if Len(ps, i) == 1 then [ps[i]]
    else
      ChainStep(ps, i);
      Chain(ps, Latest(ps, Len(ps, i) - 1, i).value) + [ps[i]]
  }

  ghost predicate SortedByNew(ps: seq<Pair>) {
    forall k, l :: 0 <= k < l < |ps| ==> ps[k].1 < ps[l].1
  }

  lemma {:induction false} ChainIsIncreasing(ps: seq<Pair>, i: nat)
    requires i < |ps| && SortedByNew(ps)
    ensures var c := Chain(ps, i);
            && |c| == Len(ps, i) && c[|c| - 1] == ps[i]
            && Increasing(c) && forall k :: 0 <= k < |c| ==> c[k] in ps
    decreases i
  {
    if Len(ps, i) > 1 {
      ChainStep(ps, i);
      ChainIsIncreasing(ps, Latest(ps, Len(ps, i) - 1, i).value);
    }
  }

  /** Longest chain among the first `k` candidates. */
  ghost function Longest(ps: seq<Pair>, k: nat): (r: nat)
    requires k <= |ps|
    ensures forall h :: 0 <= h < k ==> Len(ps, h) <= r
  {
    if k == 0 then 0
    else if Longest(ps, k - 1) < Len(ps, k - 1) then Len(ps, k - 1)
    else Longest(ps, k - 1)
  }

  /** Every length up to the longest is the length of some chain. */
  lemma {:induction false} LengthsAreDense(ps: seq<Pair>, n: nat, k: nat)
    requires k <= |ps| && 1 <= n <= Longest(ps, k)
    ensures Latest(ps, n, k).Some?
    decreases k
  {
    if n <= Longest(ps, k - 1) {
      LengthsAreDense(ps, n, k - 1);
    } else if n < Len(ps, k - 1) {
      ChainStep(ps, k - 1);
    }
  }

  /** The chain the search returns for all the candidates. */
  ghost function LongestChain(ps: seq<Pair>): (r: seq<Pair>)
    requires ps != []
  {
    LengthsAreDense(ps, Longest(ps, |ps|), |ps|);
    Chain(ps, Latest(ps, Longest(ps, |ps|), |ps|).value)
  }

  /** The anchors of a chunk: the longest chain, or nothing when no line is unique on both sides. */
  ghost function Anchors(a: seq<Id>, b: seq<Id>): (r: Option<seq<Pair>>) {
    var ps := PairsTo(a, b, |b|);
    if ps == [] then None else Some(LongestChain(ps))
  }

  /** Along any increasing chain of candidates the longest-chain lengths climb. */
  lemma {:induction false} ChainsAreShort(ps: seq<Pair>, c: seq<Pair>, i: nat)
    requires SortedByNew(ps) && Increasing(c) && c != []
    requires forall k :: 0 <= k < |c| ==> c[k] in ps
    requires i < |ps| && c[|c| - 1] == ps[i]
    ensures |c| <= Len(ps, i)
    decreases |c|
  {
    if |c| > 1 {
      var h :| 0 <= h < |ps| && ps[h] == c[|c| - 2];
      ChainsAreShort(ps, c[..|c| - 1], h);
      LenBelowIsMax(ps, i, i);
    }
  }

  /** The anchors form a chain of unique matches, and no such chain is longer. */
  lemma AnchorsAreLongest(a: seq<Id>, b: seq<Id>, c: seq<Pair>)
    requires AnchorChain(a, b, c)
    ensures Anchors(a, b).None? ==> c == []
    ensures Anchors(a, b).Some? ==>
      && AnchorChain(a, b, Anchors(a, b).value) && Anchors(a, b).value != []
      && |c| <= |Anchors(a, b).value|
  {
    var ps := PairsTo(a, b, |b|);
    PairsAreAll(a, b, |b|);
    assert forall k :: 0 <= k < |c| ==> c[k] in ps;
    if ps != [] {
      LengthsAreDense(ps, Longest(ps, |ps|), |ps|);
      ChainIsIncreasing(ps, Latest(ps, Longest(ps, |ps|), |ps|).value);
      if c != [] {
        var i :| 0 <= i < |ps| && ps[i] == c[|c| - 1];
        ChainsAreShort(ps, c, i);
      }
    }
  }

  /** A chain of candidates as long as any that ends where it does. */
  ghost predicate FullChain(ps: seq<Pair>, i: nat, c: seq<Pair>) {
    && i < |ps| && Increasing(c) && |c| == Len(ps, i) && c[|c| - 1] == ps[i]
    && forall l :: 0 <= l < |c| ==> c[l] in ps
  }

  /** Without its end it is as long as any that ends one before, and that end is no later than the latest. */
  lemma FullChainInit(ps: seq<Pair>, i: nat, c: seq<Pair>, n: nat) returns (h: nat)
    requires SortedByNew(ps) && FullChain(ps, i, c) && n == |c| - 1 && n > 0
    ensures FullChain(ps, h, c[..n])
    ensures Latest(ps, n, i).Some? && h <= Latest(ps, n, i).value
  {
    h :| 0 <= h < |ps| && ps[h] == c[n - 1];
    ChainsAreShort(ps, c[..n], h);
    LenBelowIsMax(ps, i, i);
  }

  lemma {:induction false} ChainIsLatest(ps: seq<Pair>, i: nat, s: seq<Pair>, c: seq<Pair>, k: nat)
    requires SortedByNew(ps) && FullChain(ps, i, c) && s == Chain(ps, i) && |s| == |c|
    requires k < |c| && forall m :: k < m < |c| ==> c[m] == s[m]
    ensures c[k].1 <= s[k].1
    decreases i
  {
    var n := |c| - 1;
    ChainIsIncreasing(ps, i);
    if k < n {
      var h := FullChainInit(ps, i, c, n);
      ChainStep(ps, i);
      var l := Latest(ps, n, i).value;
      ChainIsIncreasing(ps, l);
      var s' := Chain(ps, l);
      assert s == s' + [ps[i]];
      if k < n - 1 {
        SamePlace(ps, h, l);
        ChainIsLatest(ps, l, s', c[..n], k);
      }
    }
  }

  lemma SamePlace(ps: seq<Pair>, h: nat, l: nat)
    requires SortedByNew(ps) && h < |ps| && l < |ps| && ps[h] == ps[l]
    ensures h == l
  {
  }

  /** Which of the longest chains is taken: compared from the back, where another one first differs it has
      the earlier new line. */
  lemma AnchorsAreLatest(a: seq<Id>, b: seq<Id>, s: seq<Pair>, c: seq<Pair>, k: nat)
    requires Anchors(a, b) == Some(s) && AnchorChain(a, b, c) && |c| == |s|
    requires k < |c| && forall m :: k < m < |c| ==> c[m] == s[m]
    ensures c[k].1 <= s[k].1
  {
    var ps := PairsTo(a, b, |b|);
    PairsAreAll(a, b, |b|);
    LongestIsLatest(ps, s, c, k);
  }

  lemma LongestIsLatest(ps: seq<Pair>, s: seq<Pair>, c: seq<Pair>, k: nat)
    requires ps != [] && SortedByNew(ps) && s == LongestChain(ps) && Increasing(c) && |c| == |s|
    requires forall l :: 0 <= l < |c| ==> c[l] in ps
    requires k < |c| && forall m :: k < m < |c| ==> c[m] == s[m]
    ensures c[k].1 <= s[k].1
  {
    LengthsAreDense(ps, Longest(ps, |ps|), |ps|);
    var i := Latest(ps, Longest(ps, |ps|), |ps|).value;
    ChainIsIncreasing(ps, i);
    var h: nat :| h < |ps| && ps[h] == c[|c| - 1];
    ChainsAreShort(ps, c, h);
    if k < |c| - 1 {
      SamePlace(ps, h, i);
      ChainIsLatest(ps, i, s, c, k);
    }
  }

  // ----- The search --------------------------------------------------------------------

  /** `tails` holds, per length, the most recent of the first `k` candidates ending such a chain. */
  ghost predicate TailsOf(ps: seq<Pair>, tails: seq<nat>, k: nat) {
    && k <= |ps| && |tails| == Longest(ps, k)
    && forall n :: 0 <= n < |tails| ==> Latest(ps, n + 1, k) == Some(tails[n])
  }

  lemma TailsRise(ps: seq<Pair>, tails: seq<nat>, k: nat, n: nat)
    requires TailsOf(ps, tails, k) && n + 1 < |tails|
    ensures ps[tails[n]].0 < ps[tails[n + 1]].0
  {
    var t := tails[n + 1];
    assert Latest(ps, n + 2, k) == Some(t) && Latest(ps, n + 1, k) == Some(tails[n]);
    ChainStep(ps, t);
    LatestIsLeast(ps, n + 1, k, Latest(ps, n + 1, t).value);
  }

  lemma {:induction false} TailsSorted(ps: seq<Pair>, tails: seq<nat>, k: nat, m: nat, n: nat)
    requires TailsOf(ps, tails, k) && m <= n < |tails|
    ensures ps[tails[m]].0 <= ps[tails[n]].0
    decreases n - m
  {
    if m < n {
      TailsRise(ps, tails, k, m);
      TailsSorted(ps, tails, k, m + 1, n);
    }
  }

  predicate InRange(tails: seq<nat>, n: nat) {
    forall k :: 0 <= k < |tails| ==> tails[k] < n
  }

  /** How many leading tails end before old position `pos`. */
  function PartitionPoint(ps: seq<Pair>, tails: seq<nat>, pos: nat): (r: nat)
    requires InRange(tails, |ps|)
    ensures r <= |tails|
    ensures forall n :: 0 <= n < r ==> ps[tails[n]].0 < pos
    ensures r < |tails| ==> pos <= ps[tails[r]].0
  {
    if tails == [] || pos <= ps[tails[0]].0 then 0 else 1 + PartitionPoint(ps, tails[1..], pos)
  }

  /** The insertion point is one less than the length of the longest chain ending here. */
  lemma InsertionPoint(ps: seq<Pair>, tails: seq<nat>, k: nat)
    requires k < |ps| && TailsOf(ps, tails, k) && InRange(tails, |ps|)
    ensures Len(ps, k) == PartitionPoint(ps, tails, ps[k].0) + 1
  {
    var r := PartitionPoint(ps, tails, ps[k].0);
    LenBelowIsMax(ps, k, k);
    if r > 0 { assert Latest(ps, r, k) == Some(tails[r - 1]); }
    if LenBelow(ps, k, k) > r {
      var h :| 0 <= h < k && ps[h].0 < ps[k].0 && Len(ps, h) == LenBelow(ps, k, k);
      NoTailAbove(ps, tails, k, r, h);
    }
  }

  /** A chain that ends before `ps[k]` is no longer than the tails that do. */
  lemma NoTailAbove(ps: seq<Pair>, tails: seq<nat>, k: nat, r: nat, h: nat)
    requires k < |ps| && TailsOf(ps, tails, k) && r <= |tails| && InRange(tails, |ps|)
    requires r < |tails| ==> ps[k].0 <= ps[tails[r]].0
    requires h < k && ps[h].0 < ps[k].0
    ensures Len(ps, h) <= r
  {
    if Len(ps, h) > r {
      var n := Len(ps, h) - 1;
      LatestIsLeast(ps, Len(ps, h), k, h);
      assert Latest(ps, n + 1, k) == Some(tails[n]);
      TailsSorted(ps, tails, k, r, n);
    }
  }

  /** The tails once candidate `k` ends the chains of length `r + 1`. */
  function Inserted(tails: seq<nat>, r: nat, k: nat): (s: seq<nat>)
    requires r <= |tails|
  {
    if r == |tails| then tails + [k] else tails[r := k]
  }

  lemma TailsStep(ps: seq<Pair>, tails: seq<nat>, k: nat)
    requires k < |ps| && TailsOf(ps, tails, k) && 1 <= Len(ps, k) <= |tails| + 1
    ensures TailsOf(ps, Inserted(tails, Len(ps, k) - 1, k), k + 1)
  {
  }

  /** What the back pointer of candidate `h` must be. */
  ghost function BackOf(ps: seq<Pair>, h: nat): (r: Option<nat>)
    requires h < |ps|
  {
    if Len(ps, h) == 1 then None else Latest(ps, Len(ps, h) - 1, h)
  }

  /** The back pointers of the first `k` candidates are set. */
  ghost predicate BacksTo(ps: seq<Pair>, back: seq<Option<nat>>, k: nat) {
    && |back| == |ps|
    && (forall h :: 0 <= h < k && h < |ps| ==> back[h] == BackOf(ps, h))
    && (forall h :: k <= h < |ps| ==> back[h] == None)
  }

  lemma BacksNext(ps: seq<Pair>, back: seq<Option<nat>>, k: nat)
    requires k < |ps| && BacksTo(ps, back, k)
    ensures BacksTo(ps, back[k := BackOf(ps, k)], k + 1)
    ensures BackOf(ps, k) == None ==> back[k := BackOf(ps, k)] == back
  {
  }

  /** One step of the search keeps the tails and yields the back pointer. */
  lemma SearchStep(ps: seq<Pair>, tails: seq<nat>, k: nat)
    requires k < |ps| && TailsOf(ps, tails, k) && InRange(tails, |ps|)
    ensures var r := PartitionPoint(ps, tails, ps[k].0);
            && TailsOf(ps, Inserted(tails, r, k), k + 1) && InRange(Inserted(tails, r, k), |ps|)
            && BackOf(ps, k) == if r == 0 then None else Some(tails[r - 1])
  {
    InsertionPoint(ps, tails, k);
    TailsStep(ps, tails, k);
    var r := PartitionPoint(ps, tails, ps[k].0);
    if r > 0 { assert Latest(ps, r, k) == Some(tails[r - 1]); }
  }

  /** Patience sorting: process the candidates left to right, keeping tails and back pointers. */
  method SortTails(ps: seq<Pair>) returns (tails: seq<nat>, back: array<Option<nat>>)
    ensures fresh(back) && back.Length == |ps|
    ensures TailsOf(ps, tails, |ps|)
    ensures forall h :: 0 <= h < |ps| ==> back[h] == BackOf(ps, h)
  {
    tails := [];
    back := new Option<nat>[|ps|](_ => None);
    for idx := 0 to |ps|
      invariant TailsOf(ps, tails, idx) && InRange(tails, |ps|)
      invariant BacksTo(ps, back[..], idx)
    {
      var insertAt := PartitionPoint(ps, tails, ps[idx].0);
      SearchStep(ps, tails, idx);
      BacksNext(ps, back[..], idx);
      if insertAt > 0 {
        back[idx] := Some(tails[insertAt - 1]);
      }
      tails := InsertTail(tails, insertAt, idx);
    }
  }

  method InsertTail(tails: seq<nat>, insertAt: nat, idx: nat) returns (r: seq<nat>)
    requires insertAt <= |tails|
    ensures r == Inserted(tails, insertAt, idx)
  {
    if insertAt == |tails| {
      r := tails + [idx];
    } else {
      r := tails[insertAt := idx];
    }
  }

  /** Follow the back pointers from `last` and put the chain in order. */
  method FollowBack(ps: seq<Pair>, back: array<Option<nat>>, last: nat) returns (chain: seq<Pair>)
    requires last < |ps| == back.Length
    requires forall h :: 0 <= h < |ps| ==> back[h] == BackOf(ps, h)
    ensures chain == Chain(ps, last)
  {
    chain := [];
    var cursor: Option<nat> := Some(last);
    while cursor.Some?
      invariant cursor.Some? ==> cursor.value < |ps|
      invariant Chain(ps, last) == (if cursor.Some? then Chain(ps, cursor.value) else []) + Reversed(chain)
      decreases if cursor.Some? then cursor.value + 1 else 0
    {
      var idx := cursor.value;
      ReversedSnoc(chain, ps[idx]);
      if Len(ps, idx) > 1 {
        ChainStep(ps, idx);
        MoveAcross(Chain(ps, BackOf(ps, idx).value), ps[idx], Reversed(chain));
      }
      chain := chain + [ps[idx]];
      cursor := back[idx];
    }
    chain := Reversed(chain);
  }

  /** Find the anchors of a chunk, or nothing when no line is unique on both sides. */
  method PatienceAnchors(a: seq<Id>, b: seq<Id>) returns (r: Option<seq<Pair>>)
    requires |a| < U32_RANGE && |b| < U32_RANGE
    ensures r == Anchors(a, b)
  {
    var ps := CollectPairs(a, b);
    if ps == [] {
      return None;
    }
    var tails, back := SortTails(ps);
    LengthsAreDense(ps, Longest(ps, |ps|), |ps|);
    var chain := FollowBack(ps, back, tails[|tails| - 1]);
    r := Some(chain);
  }
}
