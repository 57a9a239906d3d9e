/**
  Interning lines to ids, and the line diff of two texts.
 */
module Interner {
  import opened EditScript
  import opened LineDiff
  import opened Lines
  import opened Patience
  import opened Utils

  type Ids = map<Line, Id>

  /** Distinct lines have distinct ids, numbered in order of arrival. */
  ghost predicate Injective(m: Ids) {
    && (forall x :: x in m ==> m[x] < |m|)
    && (forall x, y :: x in m && y in m && m[x] == m[y] ==> x == y)
  }

  /** The table once `line` has been interned. */
  function InternLine(m: Ids, line: Line): (r: Ids) {
    if line in m then m else m[line := |m|]
  }

  /** The table once all of `lines` have been interned, in order. */
  function InternLines(m: Ids, lines: seq<Line>): (r: Ids) {
    if lines == [] then m else InternLine(InternLines(m, lines[..|lines| - 1]), lines[|lines| - 1])
  }

  ghost predicate Extends(m: Ids, m': Ids) {
    forall x :: x in m ==> x in m' && m'[x] == m[x]
  }

  lemma InternNext(m: Ids, lines: seq<Line>, k: nat)
    requires k < |lines|
    ensures InternLines(m, lines[..k + 1]) == InternLine(InternLines(m, lines[..k]), lines[k])
  {
    assert lines[..k + 1][..k] == lines[..k];
  }

  lemma InternOne(m: Ids, line: Line)
    requires Injective(m)
    ensures var m' := InternLine(m, line);
            Injective(m') && Extends(m, m') && |m'| <= |m| + 1 && line in m'
  {
  }

  /** What interning `lines` makes of the table `m`: injective, every id already given out kept, the
      lines covered. */
  ghost predicate Interned(m: Ids, lines: seq<Line>, m': Ids) {
    && Injective(m') && Extends(m, m') && |m'| <= |m| + |lines|
    && forall k :: 0 <= k < |lines| ==> lines[k] in m'
  }

  lemma InternedPush(m: Ids, lines: seq<Line>, m': Ids, line: Line)
    requires Interned(m, lines, m')
    ensures Interned(m, lines + [line], InternLine(m', line))
  {
    InternOne(m', line);
  }

  lemma {:induction false} InternKeeps(m: Ids, lines: seq<Line>)
    requires Injective(m)
    ensures Interned(m, lines, InternLines(m, lines))
    decreases |lines|
  {
    if lines != [] {
      var (rest, last) := (lines[..|lines| - 1], lines[|lines| - 1]);
      InternKeeps(m, rest);
      InternedPush(m, rest, InternLines(m, rest), last);
      assert lines == rest + [last];
    }
  }

  /** The ids of lines that are in the table. */
  function IdsOf(m: Ids, lines: seq<Line>): (r: seq<Id>)
    requires forall k :: 0 <= k < |lines| ==> lines[k] in m
    ensures |r| == |lines| && forall k :: 0 <= k < |r| ==> r[k] == m[lines[k]]
  {
    seq(|lines|, k requires 0 <= k < |lines| => m[lines[k]])
  }

  /** The first `k` lines are in the table, and `r` holds their ids. */
  ghost predicate NumberedTo(m: Ids, lines: seq<Line>, k: nat, ids: Ids, r: seq<Id>) {
    && k <= |lines| && ids == InternLines(m, lines[..k]) && |r| == k
    && forall l :: 0 <= l < k ==> lines[l] in ids && r[l] == ids[lines[l]]
  }

  lemma NumberedNext(m: Ids, lines: seq<Line>, k: nat, ids: Ids, r: seq<Id>)
    requires Injective(m) && k < |lines| && NumberedTo(m, lines, k, ids, r)
    ensures |ids| <= |m| + k
    ensures var next := InternLine(ids, lines[k]);
            lines[k] in next && NumberedTo(m, lines, k + 1, next, r + [next[lines[k]]])
  {
    InternKeeps(m, lines[..k]);
    InternOne(ids, lines[k]);
    InternNext(m, lines, k);
  }

  /** The interner the program keeps while it reads both sides. */
  class LineInterner {
    var ids: Ids

    constructor ()
      ensures ids == map[]
    {
      ids := map[];
    }

    /** Number `line`, giving it the next id if it is new. */
    method Intern(line: Line) returns (id: Id)
      requires |ids| < U32_RANGE
      modifies this
      ensures ids == InternLine(old(ids), line)
      ensures id == ids[line]
    {
      var next := AsU32(|ids|);
      if line !in ids {
        ids := ids[line := next];
      }
      id := ids[line];
    }

    /** Number the lines of one side. */
    method InternAll(lines: seq<Line>) returns (r: seq<Id>)
      requires Injective(ids) && |ids| + |lines| <= U32_RANGE
      modifies this
      ensures ids == InternLines(old(ids), lines)
      ensures Injective(ids) && Extends(old(ids), ids) && |ids| <= old(|ids|) + |lines|
      ensures |r| == |lines| && forall k :: 0 <= k < |lines| ==> lines[k] in ids && r[k] == ids[lines[k]]
    {
      r := [];
      for k := 0 to |lines|
        invariant NumberedTo(old(ids), lines, k, ids, r)
      {
        NumberedNext(old(ids), lines, k, ids, r);
        var id := Intern(lines[k]);
        r := r + [id];
      }
      SliceWhole(lines);
      InternKeeps(old(ids), lines);
    }
  }

  // ----- The diff of two texts ---------------------------------------------------------------

  /** The table after both texts. */
  function TableOf(oldText: seq<Byte>, newText: seq<Byte>): (m: Ids) {
    InternLines(InternLines(map[], SplitInclusive(oldText)), SplitInclusive(newText))
  }

  lemma TableCovers(oldText: seq<Byte>, newText: seq<Byte>)
    ensures var m := TableOf(oldText, newText);
            && Injective(m)
            && (forall k :: 0 <= k < |SplitInclusive(oldText)| ==> SplitInclusive(oldText)[k] in m)
            && (forall k :: 0 <= k < |SplitInclusive(newText)| ==> SplitInclusive(newText)[k] in m)
  {
    InternKeeps(map[], SplitInclusive(oldText));
    InternKeeps(InternLines(map[], SplitInclusive(oldText)), SplitInclusive(newText));
  }

  /** The line hunks of two texts. */
  ghost function TextHunks(oldText: seq<Byte>, newText: seq<Byte>): (r: seq<Hunk>) {
    TableCovers(oldText, newText);
    var m := TableOf(oldText, newText);
    DiffHunks(IdsOf(m, SplitInclusive(oldText)), IdsOf(m, SplitInclusive(newText)), 0)
  }

  /** Ids from one injective table agree exactly where the lines do. */
  lemma IdsAgree(m: Ids, a: seq<Line>, b: seq<Line>)
    requires Injective(m)
    requires (forall k :: 0 <= k < |a| ==> a[k] in m) && (forall k :: 0 <= k < |b| ==> b[k] in m)
    ensures forall p, q :: 0 <= p < |a| && 0 <= q < |b| ==> (IdsOf(m, a)[p] == IdsOf(m, b)[q] <==> a[p] == b[q])
    ensures IdsOf(m, a) == IdsOf(m, b) <==> a == b
  {
    if IdsOf(m, a) == IdsOf(m, b) {
      forall k | 0 <= k < |a| ensures a[k] == b[k] { assert IdsOf(m, a)[k] == IdsOf(m, b)[k]; }
    }
  }

  /** The hunks of the ids are a script of the lines themselves, and there are none exactly
      when the texts are equal. */
  lemma TextHunksAreScript(oldText: seq<Byte>, newText: seq<Byte>)
    ensures IsScript(SplitInclusive(oldText), SplitInclusive(newText), TextHunks(oldText, newText))
    ensures TextHunks(oldText, newText) == [] <==> oldText == newText
  {
    var (m, a, b) := (TableOf(oldText, newText), SplitInclusive(oldText), SplitInclusive(newText));
    TableCovers(oldText, newText);
    IdsAgree(m, a, b);
    DiffIsScript(IdsOf(m, a), IdsOf(m, b), 0);
    NoHunksIffEqual(IdsOf(m, a), IdsOf(m, b), 0);
    ScriptTransfer(IdsOf(m, a), IdsOf(m, b), a, b, 0, 0, |a|, |b|, TextHunks(oldText, newText));
    assert a == b ==> Concat(a) == Concat(b);
  }

  /** Line-level hunks turning `oldText` into `newText`. */
  method ComputeLineDiff(oldText: seq<Byte>, newText: seq<Byte>) returns (hunks: seq<Hunk>)
    requires |SplitInclusive(oldText)| + |SplitInclusive(newText)| < U32_RANGE
    ensures hunks == TextHunks(oldText, newText)
    ensures IsScript(SplitInclusive(oldText), SplitInclusive(newText), hunks)
    ensures Replayable(hunks, 0, |SplitInclusive(oldText)|, |SplitInclusive(newText)|)
    ensures Concat(Replay(SplitInclusive(oldText), SplitInclusive(newText), hunks, 0)) == newText
    ensures hunks == [] <==> oldText == newText
  {
    var interner := new LineInterner();
    var oldIds := interner.InternAll(SplitInclusive(oldText));
    ghost var m := interner.ids;
    var newIds := interner.InternAll(SplitInclusive(newText));
    assert oldIds == IdsOf(interner.ids, SplitInclusive(oldText));
    assert newIds == IdsOf(interner.ids, SplitInclusive(newText));
    ghost var cells, lines;
    hunks, cells, lines := DiffInternedLines(oldIds, newIds);
    TextHunksAreScript(oldText, newText);
    ScriptReplays(SplitInclusive(oldText), SplitInclusive(newText), 0, 0, hunks);
    assert SplitInclusive(newText)[0..] == SplitInclusive(newText);
  }

  /** The byte ranges of the line hunks of two texts. */
  ghost function TextByteHunks(oldText: seq<Byte>, newText: seq<Byte>): (r: seq<Hunk>)
    ensures |r| == |TextHunks(oldText, newText)|
  {
    var (a, b, hs) := (SplitInclusive(oldText), SplitInclusive(newText), TextHunks(oldText, newText));
    TextHunksAreScript(oldText, newText);
    ScriptInLines(a, b, hs);
    ByteHunks(a, b, hs)
  }

  lemma TextRanges(oldText: seq<Byte>, newText: seq<Byte>)
    ensures var (a, b, hs) := (SplitInclusive(oldText), SplitInclusive(newText), TextHunks(oldText, newText));
            InLines(a, b, hs) && AreByteHunks(a, b, hs, TextByteHunks(oldText, newText))
  {
    TextHunksAreScript(oldText, newText);
    ScriptInLines(SplitInclusive(oldText), SplitInclusive(newText), TextHunks(oldText, newText));
  }

  /** Replaying the byte ranges on the old text rebuilds the new text, byte for byte. */
  lemma TextBytesAreScript(oldText: seq<Byte>, newText: seq<Byte>)
    ensures var bs := TextByteHunks(oldText, newText);
            && IsScript(oldText, newText, bs)
            && Replayable(bs, 0, |oldText|, |newText|) && Replay(oldText, newText, bs, 0) == newText
  {
    var (a, b, hs) := (SplitInclusive(oldText), SplitInclusive(newText), TextHunks(oldText, newText));
    TextHunksAreScript(oldText, newText);
    ScriptInLines(a, b, hs);
    ByteScript(a, b, 0, 0, hs, TextByteHunks(oldText, newText));
    ScriptReplays(oldText, newText, 0, 0, TextByteHunks(oldText, newText));
  }
}
