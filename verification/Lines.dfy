/**
  Line tokens of a text, and the way from edit scripts of lines to edit scripts of bytes.

  A text is a sequence of bytes. A line keeps its `\n`; a final unterminated segment is a
  line too.
 */
module Lines {
  import opened EditScript
  import opened Utils

  type Line = seq<Byte>

  const NEWLINE: Byte := 10

  // ----- Splitting -----------------------------------------------------------------------

  /** Length of the first line of a non-empty text, terminator included. */
  function FirstLen(t: seq<Byte>): (n: nat)
    requires t != []
    ensures 0 < n <= |t|
    ensures forall k :: 0 <= k < n - 1 ==> t[k] != NEWLINE
    ensures n < |t| ==> t[n - 1] == NEWLINE
  {
    if t[0] == NEWLINE || |t| == 1 then 1 else 1 + FirstLen(t[1..])
  }

  /** The lines of a text, each with its terminator. */
  function SplitInclusive(t: seq<Byte>): (r: seq<Line>)
    ensures forall k :: 0 <= k < |r| ==> r[k] != []
    ensures Concat(r) == t
  {
    if t == [] then []
    else
      var n := FirstLen(t);
      var r := [t[..n]] + SplitInclusive(t[n..]);
      assert r[1..] == SplitInclusive(t[n..]) && t == t[..n] + t[n..];
      r
  }

  function Concat(ls: seq<Line>): (r: seq<Byte>) {
    if ls == [] then [] else ls[0] + Concat(ls[1..])
  }

  /** A line: its only `\n`, if it has one, is its last byte. */
  predicate IsLine(l: Line) { l != [] && 10 !in l[..|l| - 1] }

  predicate Terminated(l: Line) { IsLine(l) && l[|l| - 1] == 10 }

  /** Lines of one text: all but the last are terminated. */
  predicate AreLines(ls: seq<Line>) {
    && (forall k :: 0 <= k < |ls| ==> IsLine(ls[k]))
    && (forall k :: 0 <= k < |ls| - 1 ==> Terminated(ls[k]))
  }

  lemma FirstLine(t: seq<Byte>)
    requires t != []
    ensures IsLine(t[..FirstLen(t)]) && (FirstLen(t) < |t| ==> Terminated(t[..FirstLen(t)]))
  {
  }

  /** A text is cut behind every `\n` and nowhere else. */
  lemma {:induction false} SplitIsLines(t: seq<Byte>)
    ensures AreLines(SplitInclusive(t))
    decreases |t|
  {
    if t != [] {
      var n := FirstLen(t);
      FirstLine(t);
      SplitIsLines(t[n..]);
      if n == |t| { assert t[n..] == []; }
    }
  }

  lemma FirstOfLine(l: Line, t: seq<Byte>)
    requires IsLine(l) && l <= t && (Terminated(l) || l == t)
    ensures FirstLen(t) == |l|
  {
    assert forall k :: 0 <= k < |l| - 1 ==> t[k] == l[..|l| - 1][k];
    assert t[|l| - 1] == l[|l| - 1];
  }

  /** Any lines, written one after the other, are cut into just those lines. */
  lemma {:induction false} SplitOfLines(ls: seq<Line>)
    requires AreLines(ls)
    ensures SplitInclusive(Concat(ls)) == ls
    decreases |ls|
  {
    if ls != [] {
      var (l, rest) := (ls[0], Concat(ls[1..]));
      assert |ls| == 1 ==> rest == [];
      FirstOfLine(l, l + rest);
      SplitOfLines(ls[1..]);
      assert (l + rest)[..|l|] == l && (l + rest)[|l|..] == rest;
    }
  }

  /** Byte offset of line `k`; the text's length for `k == |ls|`. */
  function Start(ls: seq<Line>, k: nat): (r: nat)
    requires k <= |ls|
  {
    if k == 0 then 0 else Start(ls, k - 1) + |ls[k - 1]|
  }

  lemma {:induction false} StartOfTail(ls: seq<Line>, k: nat)
    requires 0 < |ls| && k <= |ls| - 1
    ensures Start(ls, k + 1) == |ls[0]| + Start(ls[1..], k)
    decreases k
  {
    if k > 0 { StartOfTail(ls, k - 1); }
  }

  lemma {:induction false} StartsEnd(ls: seq<Line>)
    ensures Start(ls, |ls|) == |Concat(ls)|
    decreases |ls|
  {
    if ls != [] {
      StartsEnd(ls[1..]);
      StartOfTail(ls, |ls| - 1);
    }
  }

  lemma {:induction false} StartsRise(ls: seq<Line>, i: nat, j: nat)
    requires i <= j <= |ls|
    ensures Start(ls, i) <= Start(ls, j)
    decreases j - i
  {
    if i < j { StartsRise(ls, i, j - 1); }
  }

  lemma StartNext(ls: seq<Line>, k: nat)
    requires k < |ls|
    ensures Start(ls, k + 1) == Start(ls, k) + |ls[k]|
  {
  }

  predicate NonEmpty(ls: seq<Line>) {
    forall k :: 0 <= k < |ls| ==> ls[k] != []
  }

  lemma StartsClimb(ls: seq<Line>, i: nat, j: nat)
    requires i < j <= |ls| && NonEmpty(ls)
    ensures Start(ls, i) < Start(ls, j)
  {
    StartNext(ls, i);
    StartsRise(ls, i + 1, j);
  }

  /** The bytes from one line start to the next are the line. */
  lemma {:induction false} LineAt(ls: seq<Line>, k: nat)
    requires k < |ls|
    ensures Start(ls, k) + |ls[k]| == Start(ls, k + 1) <= |Concat(ls)|
    ensures Concat(ls)[Start(ls, k)..Start(ls, k + 1)] == ls[k]
    decreases |ls|
  {
    StartsEnd(ls);
    StartsRise(ls, k + 1, |ls|);
    if k == 0 {
      assert Start(ls, 1) == |ls[0]|;
    } else {
      LineAt(ls[1..], k - 1);
      StartOfTail(ls, k - 1);
      StartOfTail(ls, k);
    }
  }

  lemma {:induction false} ConcatAppend(a: seq<Line>, b: seq<Line>)
    ensures Concat(a + b) == Concat(a) + Concat(b)
    decreases |a|
  {
    if a == [] {
      assert a + b == b;
    } else {
      ConcatAppend(a[1..], b);
      assert (a + b)[1..] == a[1..] + b;
    }
  }

  /** The first `k` lines are the bytes before line `k`. */
  lemma {:induction false} ConcatTake(ls: seq<Line>, k: nat)
    requires k <= |ls|
    ensures Start(ls, k) <= |Concat(ls)| && Concat(ls[..k]) == Concat(ls)[..Start(ls, k)]
  {
    ConcatAppend(ls[..k], ls[k..]);
    assert ls == ls[..k] + ls[k..];
    StartsEnd(ls[..k]);
    StartOfPrefix(ls, ls[..k], k);
  }

  /** Offsets of lines depend only on the lines before them. */
  lemma {:induction false} StartOfPrefix(ls: seq<Line>, ps: seq<Line>, k: nat)
    requires ps <= ls && k <= |ps|
    ensures Start(ls, k) == Start(ps, k)
    decreases k
  {
    if k > 0 { StartOfPrefix(ls, ps, k - 1); }
  }

  // ----- From lines to bytes ----------------------------------------------------------------

  /** Equal lines from (i, j) to (i2, j2) are equal bytes from start to start. */
  lemma {:induction false} RunOfBytes(a: seq<Line>, b: seq<Line>, i: nat, j: nat, i2: nat, j2: nat)
    requires 0 <= i2 - i == j2 - j && SameRun(a, b, i, j, i2 - i)
    ensures Start(a, i) <= Start(a, i2) <= |Concat(a)| && Start(b, j) <= Start(b, j2) <= |Concat(b)|
    ensures Start(a, i2) - Start(a, i) == Start(b, j2) - Start(b, j)
    ensures SameRun(Concat(a), Concat(b), Start(a, i), Start(b, j), Start(a, i2) - Start(a, i))
    decreases i2
  {
    if i2 == i {
      StartsEnd(a); StartsRise(a, i, |a|);
      StartsEnd(b); StartsRise(b, j, |b|);
    } else {
      RunOfBytes(a, b, i, j, i2 - 1, j2 - 1);
      assert a[i2 - 1] == b[j2 - 1];
      RunOfLine(a, b, i2 - 1, j2 - 1, i2, j2);
      RunJoin(Concat(a), Concat(b), Start(a, i), Start(b, j), Start(a, i2 - 1), Start(b, j2 - 1), Start(a, i2));
    }
  }

  lemma RunOfLine(a: seq<Line>, b: seq<Line>, i: nat, j: nat, i2: nat, j2: nat)
    requires i < |a| && j < |b| && a[i] == b[j] && i2 == i + 1 && j2 == j + 1
    ensures Start(a, i) <= Start(a, i2) <= |Concat(a)| && Start(b, j) <= Start(b, j2) <= |Concat(b)|
    ensures Start(a, i2) - Start(a, i) == Start(b, j2) - Start(b, j)
    ensures SameRun(Concat(a), Concat(b), Start(a, i), Start(b, j), Start(a, i2) - Start(a, i))
  {
    LineStretch(a, i, i2);
    LineStretch(b, j, j2);
    SliceRun(Concat(a), Concat(b), Start(a, i), Start(b, j), Start(a, i2), Start(b, j2));
  }

  lemma LineStretch(ls: seq<Line>, k: nat, next: nat)
    requires k < |ls| && next == k + 1
    ensures Start(ls, k) <= Start(ls, next) <= |Concat(ls)| && Concat(ls)[Start(ls, k)..Start(ls, next)] == ls[k]
  {
    LineAt(ls, k);
  }

  /** The byte ranges of a hunk of lines. */
  function ByteHunk(a: seq<Line>, b: seq<Line>, h: Hunk): (r: Hunk)
    requires h.OldEnd() <= |a| && h.NewEnd() <= |b|
    ensures r.oldStart == Start(a, h.oldStart) && r.OldEnd() == Start(a, h.OldEnd()) <= |Concat(a)|
    ensures r.newStart == Start(b, h.newStart) && r.NewEnd() == Start(b, h.NewEnd()) <= |Concat(b)|
  {
    StartsRise(a, h.oldStart, h.OldEnd()); StartsRise(a, h.OldEnd(), |a|); StartsEnd(a);
    StartsRise(b, h.newStart, h.NewEnd()); StartsRise(b, h.NewEnd(), |b|); StartsEnd(b);
    Hunk(Start(a, h.oldStart), Start(a, h.OldEnd()) - Start(a, h.oldStart),
         Start(b, h.newStart), Start(b, h.NewEnd()) - Start(b, h.newStart))
  }

  predicate InLines(a: seq<Line>, b: seq<Line>, hs: seq<Hunk>) {
    forall k :: 0 <= k < |hs| ==> hs[k].OldEnd() <= |a| && hs[k].NewEnd() <= |b|
  }

  predicate AreByteHunks(a: seq<Line>, b: seq<Line>, hs: seq<Hunk>, bs: seq<Hunk>)
    requires InLines(a, b, hs)
  {
    |bs| == |hs| && forall k :: 0 <= k < |hs| ==> bs[k] == ByteHunk(a, b, hs[k])
  }

  function ByteHunks(a: seq<Line>, b: seq<Line>, hs: seq<Hunk>): (r: seq<Hunk>)
    requires InLines(a, b, hs)
    ensures AreByteHunks(a, b, hs, r)
  {
    seq(|hs|, k requires 0 <= k < |hs| => ByteHunk(a, b, hs[k]))
  }

  lemma ScriptInLines<T>(a: seq<T>, b: seq<T>, hs: seq<Hunk>)
    requires IsScript(a, b, hs)
    ensures forall k :: 0 <= k < |hs| ==> hs[k].OldEnd() <= |a| && hs[k].NewEnd() <= |b|
  {
    forall k | 0 <= k < |hs| ensures hs[k].OldEnd() <= |a| && hs[k].NewEnd() <= |b| {
      ScriptOrdered(a, b, 0, 0, |a|, |b|, hs, k);
    }
  }

  lemma ByteHunkLeads(a: seq<Line>, b: seq<Line>, i: nat, j: nat, h: Hunk)
    requires NonEmpty(a) && NonEmpty(b) && h.OldEnd() <= |a| && h.NewEnd() <= |b| && i <= |a| && j <= |b|
    requires Leads(a, b, i, j, h)
    ensures Leads(Concat(a), Concat(b), Start(a, i), Start(b, j), ByteHunk(a, b, h))
  {
    RunOfBytes(a, b, i, j, h.oldStart, h.newStart);
    if h.oldCount > 0 {
      StartsClimb(a, h.oldStart, h.OldEnd());
    } else {
      StartsClimb(b, h.newStart, h.NewEnd());
    }
  }

  lemma ByteHunksApart(a: seq<Line>, b: seq<Line>, h: Hunk, next: Hunk)
    requires NonEmpty(a) && NonEmpty(b) && Apart(h, next) && next.OldEnd() <= |a| && next.NewEnd() <= |b|
    ensures Apart(ByteHunk(a, b, h), ByteHunk(a, b, next))
  {
    StartsClimb(a, h.OldEnd(), next.oldStart);
    StartsClimb(b, h.NewEnd(), next.newStart);
  }

  /** A script of lines is, hunk by hunk, a script of the texts' bytes. */
  lemma {:induction false} ByteScript(a: seq<Line>, b: seq<Line>, i: nat, j: nat, hs: seq<Hunk>, bs: seq<Hunk>)
    requires NonEmpty(a) && NonEmpty(b) && InLines(a, b, hs) && i <= |a| && j <= |b|
    requires Script(a, b, i, j, |a|, |b|, hs) && AreByteHunks(a, b, hs, bs)
    ensures Script(Concat(a), Concat(b), Start(a, i), Start(b, j), |Concat(a)|, |Concat(b)|, bs)
    decreases |hs|
  {
    if hs == [] {
      BytesToEnd(a, b, i, j);
    } else {
      ByteScript(a, b, hs[0].OldEnd(), hs[0].NewEnd(), hs[1..], bs[1..]);
      ByteScriptStep(a, b, i, j, hs, bs);
    }
  }

  lemma BytesToEnd(a: seq<Line>, b: seq<Line>, i: nat, j: nat)
    requires 0 <= |a| - i == |b| - j && SameRun(a, b, i, j, |a| - i)
    ensures Script(Concat(a), Concat(b), Start(a, i), Start(b, j), |Concat(a)|, |Concat(b)|, [])
  {
    StartsEnd(a);
    StartsEnd(b);
    RunOfBytes(a, b, i, j, |a|, |b|);
    RunIsScript(Concat(a), Concat(b), Start(a, i), Start(b, j), Start(a, |a|) - Start(a, i), |Concat(a)|, |Concat(b)|);
  }

  lemma ByteScriptStep(a: seq<Line>, b: seq<Line>, i: nat, j: nat, hs: seq<Hunk>, bs: seq<Hunk>)
    requires NonEmpty(a) && NonEmpty(b) && InLines(a, b, hs) && i <= |a| && j <= |b| && AreByteHunks(a, b, hs, bs)
    requires hs != [] && Leads(a, b, i, j, hs[0]) && (|hs| > 1 ==> Apart(hs[0], hs[1]))
    requires Script(Concat(a), Concat(b), Start(a, hs[0].OldEnd()), Start(b, hs[0].NewEnd()),
                    |Concat(a)|, |Concat(b)|, bs[1..])
    ensures Script(Concat(a), Concat(b), Start(a, i), Start(b, j), |Concat(a)|, |Concat(b)|, bs)
  {
    var h := hs[0];
    ByteHunkLeads(a, b, i, j, h);
    if |hs| > 1 { ByteHunksApart(a, b, h, hs[1]); }
    ScriptStep(Concat(a), Concat(b), Start(a, i), Start(b, j), Start(a, h.OldEnd()), Start(b, h.NewEnd()),
               |Concat(a)|, |Concat(b)|, bs);
  }
}
