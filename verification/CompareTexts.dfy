/**
  The byte geometry a side-by-side view paints from: hunk ranges, line ranges, and the
  changed span of each pair of lines.
 */
module CompareTexts {
  import opened AnchoredDiff
  import opened ChangedSpans
  import opened EditScript
  import opened Interner
  import opened Lines
  import opened Utf8
  import opened Utils

  datatype CompareSide = CompareSide(
    start: nat, count: nat, from: nat, to: nat, jump: nat, lines: seq<Range>, spans: seq<Option<Range>>)

  datatype CompareHunk = CompareHunk(left: CompareSide, right: CompareSide, eolOnly: bool)

  // ----- One hunk ------------------------------------------------------------------------------

  /** Where line `k` and its body lie in the text. */
  function LineRange(ls: seq<Line>, k: nat): (r: Range)
    requires k < |ls|
  {
    (Start(ls, k), Start(ls, k) + |LineBody(ls[k])|)
  }

  function LineRanges(ls: seq<Line>, start: nat, n: nat): (r: seq<Range>)
    requires start + n <= |ls|
    ensures |r| == n
  {
    if n == 0 then [] else LineRanges(ls, start, n - 1) + [LineRange(ls, start + n - 1)]
  }

  /** One side of a hunk of `count` lines from `start` on. */
  function SideOf(ls: seq<Line>, start: nat, count: nat, spans: seq<Option<Range>>): (r: CompareSide)
    requires start + count <= |ls|
  {
    CompareSide(
      start, count, Start(ls, start), Start(ls, start + count),
      if count == 0 && start > 0 then Start(ls, start - 1) else Start(ls, start),
      LineRanges(ls, start, count), spans)
  }

  /** The lines without their terminators. */
  function Bodies(ls: seq<Line>): (r: seq<Line>)
    ensures |r| == |ls| && forall k :: 0 <= k < |r| ==> r[k] == LineBody(ls[k])
  {
    seq(|ls|, k requires 0 <= k < |ls| => LineBody(ls[k]))
  }

  function Shifted(r: Range, at: nat): Range { (at + r.0, at + r.1) }

  /** The left and right halves of a span, placed in the text. */
  function LeftOf(s: Option<(Range, Range)>, at: nat): (r: Option<Range>) {
    if s.None? then None else Some(Shifted(s.value.0, at))
  }

  function RightOf(s: Option<(Range, Range)>, at: nat): (r: Option<Range>) {
    if s.None? then None else Some(Shifted(s.value.1, at))
  }

  /** The spans of the first `n` lines paired from (i, j) on, on the left and on the right; `x`
      and `y` are the bodies of the lines of `a` and `b`. */
  function LeftSpans(a: seq<Line>, x: seq<Line>, y: seq<Line>, i: nat, j: nat, n: nat): (r: seq<Option<Range>>)
    requires |x| == |a| && i + n <= |x| && j + n <= |y|
    ensures |r| == n
  {
    if n == 0 then []
    else LeftSpans(a, x, y, i, j, n - 1) + [LeftOf(Span(x[i + n - 1], y[j + n - 1]), Start(a, i + n - 1))]
  }

  function RightSpans(b: seq<Line>, x: seq<Line>, y: seq<Line>, i: nat, j: nat, n: nat): (r: seq<Option<Range>>)
    requires |y| == |b| && i + n <= |x| && j + n <= |y|
    ensures |r| == n
  {
    if n == 0 then []
    else RightSpans(b, x, y, i, j, n - 1) + [RightOf(Span(x[i + n - 1], y[j + n - 1]), Start(b, j + n - 1))]
  }

  /** The first `n` paired lines have no span. */
  predicate NoSpans(x: seq<Line>, y: seq<Line>, i: nat, j: nat, n: nat)
    requires i + n <= |x| && j + n <= |y|
  {
    n == 0 || (NoSpans(x, y, i, j, n - 1) && Span(x[i + n - 1], y[j + n - 1]).None?)
  }

  /** Only line endings differ between the two sides of a hunk. */
  predicate EolOnly(x: seq<Line>, y: seq<Line>, h: Hunk)
    requires h.OldEnd() <= |x| && h.NewEnd() <= |y|
  {
    h.oldCount == h.newCount && NoSpans(x, y, h.oldStart, h.newStart, h.oldCount)
  }

  /** What the view is told about one hunk of lines. */
  function View(a: seq<Line>, b: seq<Line>, h: Hunk): (r: CompareHunk)
    requires h.OldEnd() <= |a| && h.NewEnd() <= |b|
  {
    var (n, x, y) := (Min(h.oldCount, h.newCount), Bodies(a), Bodies(b));
    CompareHunk(
      SideOf(a, h.oldStart, h.oldCount, LeftSpans(a, x, y, h.oldStart, h.newStart, n)),
      SideOf(b, h.newStart, h.newCount, RightSpans(b, x, y, h.oldStart, h.newStart, n)),
      EolOnly(x, y, h))
  }

  lemma SpansNext(a: seq<Line>, b: seq<Line>, x: seq<Line>, y: seq<Line>, i: nat, j: nat, n: nat)
    requires |x| == |a| && |y| == |b| && i + n < |x| && j + n < |y|
    ensures var s := Span(x[i + n], y[j + n]);
            && LeftSpans(a, x, y, i, j, n + 1) == LeftSpans(a, x, y, i, j, n) + [LeftOf(s, Start(a, i + n))]
            && RightSpans(b, x, y, i, j, n + 1) == RightSpans(b, x, y, i, j, n) + [RightOf(s, Start(b, j + n))]
            && (NoSpans(x, y, i, j, n + 1) <==> NoSpans(x, y, i, j, n) && s.None?)
  {
  }

  /** The `k`-th reported spans are those of the `k`-th pair of lines. */
  lemma {:induction false} SpanAt(a: seq<Line>, b: seq<Line>, x: seq<Line>, y: seq<Line>, i: nat, j: nat, n: nat,
                                  k: nat, i': nat, j': nat)
    requires |x| == |a| && |y| == |b| && i + n <= |x| && j + n <= |y| && k < n && i' == i + k && j' == j + k
    ensures LeftSpans(a, x, y, i, j, n)[k] == LeftOf(Span(x[i'], y[j']), Start(a, i'))
    ensures RightSpans(b, x, y, i, j, n)[k] == RightOf(Span(x[i'], y[j']), Start(b, j'))
    decreases n
  {
    if k < n - 1 {
      SpanAt(a, b, x, y, i, j, n - 1, k, i', j');
    } else {
      SpansLast(a, b, x, y, i, j, n, i', j');
    }
  }

  lemma SpansLast(a: seq<Line>, b: seq<Line>, x: seq<Line>, y: seq<Line>, i: nat, j: nat, n: nat, i': nat, j': nat)
    requires |x| == |a| && |y| == |b| && i + n <= |x| && j + n <= |y| && 0 < n && i' == i + n - 1 && j' == j + n - 1
    ensures LeftSpans(a, x, y, i, j, n)[n - 1] == LeftOf(Span(x[i'], y[j']), Start(a, i'))
    ensures RightSpans(b, x, y, i, j, n)[n - 1] == RightOf(Span(x[i'], y[j']), Start(b, j'))
  {
  }

  /** Spans `l` and `r` lie in the line ranges `la` and `lb`, between equal stretches. */
  predicate SpanFits(s: seq<Byte>, t: seq<Byte>, la: Range, lb: Range, l: Range, r: Range) {
    && la.0 <= l.0 <= l.1 <= la.1 <= |s| && lb.0 <= r.0 <= r.1 <= lb.1 <= |t|
    && s[la.0..l.0] == t[lb.0..r.0] && s[l.1..la.1] == t[r.1..lb.1]
  }

  /** Paired lines get a span exactly when their bodies differ; the span lies inside the text
      range of its line, and the text before it is equal on both sides, as is the text behind. */
  lemma SpansInLines(a: seq<Line>, b: seq<Line>, i: nat, j: nat)
    requires i < |a| && j < |b|
    ensures var s := Span(LineBody(a[i]), LineBody(b[j]));
            && (s.None? <==> LineBody(a[i]) == LineBody(b[j]))
            && (s.Some? ==> SpanFits(Concat(a), Concat(b), LineRange(a, i), LineRange(b, j),
                                     LeftOf(s, Start(a, i)).value, RightOf(s, Start(b, j)).value))
  {
    BodyInText(a, i);
    BodyInText(b, j);
    SpanInText(Concat(a), Concat(b), LineRange(a, i), LineRange(b, j), LineBody(a[i]), LineBody(b[j]));
  }

  /** The range `r` of `s` reads `l`. */
  predicate Covers(s: seq<Byte>, r: Range, l: Line) {
    r.1 == r.0 + |l| <= |s| && s[r.0..r.1] == l
  }

  lemma BodyInText(ls: seq<Line>, k: nat)
    requires k < |ls|
    ensures Covers(Concat(ls), LineRange(ls, k), LineBody(ls[k]))
  {
    var (l, p) := (ls[k], LineBody(ls[k]));
    assert p <= l;
    LineAt(ls, k);
    PrefixInText(Concat(ls), Start(ls, k), Start(ls, k + 1), l, p);
  }

  lemma PrefixInText(s: seq<Byte>, i: nat, j: nat, l: Line, p: Line)
    requires i <= j <= |s| && s[i..j] == l && p <= l
    ensures s[i..i + |p|] == p
  {
    assert s[i..j][..|p|] == s[i..i + |p|];
  }

  lemma SpanInText(s: seq<Byte>, t: seq<Byte>, la: Range, lb: Range, x: Line, y: Line)
    requires Covers(s, la, x) && Covers(t, lb, y)
    ensures Span(x, y).Some? ==>
      SpanFits(s, t, la, lb, LeftOf(Span(x, y), la.0).value, RightOf(Span(x, y), lb.0).value)
  {
    SpanEndsAgree(x, y);
    if Span(x, y).Some? { SpanPlaced(s, t, la, lb, x, y, SpanLead(x, y), SpanTail(x, y)); }
  }

  lemma SpanPlaced(s: seq<Byte>, t: seq<Byte>, la: Range, lb: Range, x: Line, y: Line, pre: nat, suf: nat)
    requires Covers(s, la, x) && Covers(t, lb, y) && pre + suf <= |x| && pre + suf <= |y|
    requires SameRun(x, y, 0, 0, pre) && SameRun(x, y, |x| - suf, |y| - suf, suf)
    ensures SpanFits(s, t, la, lb, (la.0 + pre, la.0 + |x| - suf), (lb.0 + pre, lb.0 + |y| - suf))
  {
    EndsInText(s, t, la.0, lb.0, x, y, pre, suf);
  }

  lemma EndsInText(s: seq<Byte>, t: seq<Byte>, i: nat, j: nat, x: Line, y: Line, pre: nat, suf: nat)
    requires i + |x| <= |s| && j + |y| <= |t| && s[i..i + |x|] == x && t[j..j + |y|] == y
    requires pre + suf <= |x| && pre + suf <= |y|
    requires SameRun(x, y, 0, 0, pre) && SameRun(x, y, |x| - suf, |y| - suf, suf)
    ensures s[i..i + pre] == t[j..j + pre]
    ensures s[i + |x| - suf..i + |x|] == t[j + |y| - suf..j + |y|]
  {
    RunSlice(x, y, 0, 0, pre);
    RunSlice(x, y, |x| - suf, |y| - suf, suf);
    SliceOfStretch(s, i, x, 0, pre, i, i + pre);
    SliceOfStretch(t, j, y, 0, pre, j, j + pre);
    SliceOfStretch(s, i, x, |x| - suf, |x|, i + |x| - suf, i + |x|);
    SliceOfStretch(t, j, y, |y| - suf, |y|, j + |y| - suf, j + |y|);
  }

  lemma {:induction false} LineRangeAt(ls: seq<Line>, start: nat, n: nat, k: nat, i: nat)
    requires start + n <= |ls| && k < n && i == start + k
    ensures LineRanges(ls, start, n)[k] == LineRange(ls, i)
    decreases n
  {
    if k < n - 1 { LineRangeAt(ls, start, n - 1, k, i); }
  }

  /** Each reported line range of a side reads the body of that line. */
  lemma SideShowsLines(ls: seq<Line>, start: nat, count: nat, spans: seq<Option<Range>>, k: nat)
    requires start + count <= |ls| && k < count
    ensures Covers(Concat(ls), SideOf(ls, start, count, spans).lines[k], LineBody(ls[start + k]))
  {
    LineRangeAt(ls, start, count, k, start + k);
    BodyInText(ls, start + k);
  }

  /** A jump goes to the hunk, or on an empty side to the line before the gap, if there is one. */
  lemma SideJumps(ls: seq<Line>, start: nat, count: nat, spans: seq<Option<Range>>)
    requires start + count <= |ls|
    ensures var s := SideOf(ls, start, count, spans);
            && s.jump <= s.from <= s.to <= |Concat(ls)|
            && Concat(ls)[s.jump..s.from] == if count == 0 && start > 0 then ls[start - 1] else []
  {
    StartsRise(ls, start, start + count);
    StartsRise(ls, start + count, |ls|);
    StartsEnd(ls);
    if count == 0 && start > 0 { LineAt(ls, start - 1); }
  }

  /** The span `l` and the rest of the line range `la` on both sides of it are valid text. */
  predicate CutsNoCharacter(s: seq<Byte>, la: Range, l: Range)
    requires la.0 <= l.0 <= l.1 <= la.1 <= |s|
  {
    ValidUtf8(s[la.0..l.0]) && ValidUtf8(s[l.0..l.1]) && ValidUtf8(s[l.1..la.1])
  }

  lemma PiecesOfLine(s: seq<Byte>, la: Range, x: Line, i: nat, j: nat)
    requires Covers(s, la, x) && i <= j <= |x| && ThreeValid(x, i, j)
    ensures CutsNoCharacter(s, la, Shifted((i, j), la.0))
  {
    var l := Shifted((i, j), la.0);
    SliceOfStretch(s, la.0, x, 0, i, la.0, l.0);
    SliceOfStretch(s, la.0, x, i, j, l.0, l.1);
    SliceOfStretch(s, la.0, x, j, |x|, l.1, la.1);
    assert x[0..i] == x[..i] && x[j..|x|] == x[j..];
  }

  /** On valid lines the spans, as reported, fall on character boundaries. */
  lemma SpansCutNoCharacter(a: seq<Line>, b: seq<Line>, i: nat, j: nat)
    requires i < |a| && j < |b| && Span(LineBody(a[i]), LineBody(b[j])).Some?
    ensures var (s, la, lb) := (Span(LineBody(a[i]), LineBody(b[j])), LineRange(a, i), LineRange(b, j));
            var (l, r) := (LeftOf(s, la.0).value, RightOf(s, lb.0).value);
            && la.0 <= l.0 <= l.1 <= la.1 <= |Concat(a)| && lb.0 <= r.0 <= r.1 <= lb.1 <= |Concat(b)|
            && (ValidUtf8(a[i]) ==> CutsNoCharacter(Concat(a), la, l))
            && (ValidUtf8(b[j]) ==> CutsNoCharacter(Concat(b), lb, r))
  {
    var (x, y) := (LineBody(a[i]), LineBody(b[j]));
    BodyInText(a, i);
    BodyInText(b, j);
    var (l, r) := Span(x, y).value;
    SpanCutsNoCharacter(x, y, l, r);
    SideCutsNoCharacter(Concat(a), LineRange(a, i), a[i], x, l);
    SideCutsNoCharacter(Concat(b), LineRange(b, j), b[j], y, r);
  }

  lemma SideCutsNoCharacter(s: seq<Byte>, la: Range, line: Line, x: Line, r: Range)
    requires Covers(s, la, x) && x == LineBody(line) && r.0 <= r.1 <= |x|
    requires ValidUtf8(x) ==> ThreeValid(x, r.0, r.1)
    ensures var l := Shifted(r, la.0);
            la.0 <= l.0 <= l.1 <= la.1 <= |s| && (ValidUtf8(line) ==> CutsNoCharacter(s, la, l))
  {
    if ValidUtf8(line) {
      BodyIsValid(line);
      PiecesOfLine(s, la, x, r.0, r.1);
    }
  }

  /** Of each pair of lines in a hunk the view shows either nothing, and then the bodies are equal,
      or spans on both sides between equal stretches of the two lines, on character boundaries
      where the lines are valid text. */
  lemma ViewShowsSpans(a: seq<Line>, b: seq<Line>, h: Hunk, k: nat, i: nat, j: nat)
    requires h.OldEnd() <= |a| && h.NewEnd() <= |b| && k < h.oldCount && k < h.newCount
    requires i == h.oldStart + k && j == h.newStart + k
    ensures var v := View(a, b, h);
            && k < |v.left.spans| && k < |v.right.spans|
            && (v.left.spans[k].None? <==> LineBody(a[i]) == LineBody(b[j]))
            && (v.right.spans[k].None? <==> v.left.spans[k].None?)
            && (v.left.spans[k].Some? ==>
                  SpanFits(Concat(a), Concat(b), v.left.lines[k], v.right.lines[k],
                           v.left.spans[k].value, v.right.spans[k].value))
            && (v.left.spans[k].Some? && ValidUtf8(a[i]) ==>
                  CutsNoCharacter(Concat(a), v.left.lines[k], v.left.spans[k].value))
            && (v.right.spans[k].Some? && ValidUtf8(b[j]) ==>
                  CutsNoCharacter(Concat(b), v.right.lines[k], v.right.spans[k].value))
  {
    ViewAtLines(a, b, h, k, i, j);
    SpansInLines(a, b, i, j);
    if Span(LineBody(a[i]), LineBody(b[j])).Some? { SpansCutNoCharacter(a, b, i, j); }
  }

  /** The spans of a pair of lines are the smallest: nothing equal at either end is left in them but what a
      character boundary keeps there. */
  lemma ViewSpansAreSmallest(a: seq<Line>, b: seq<Line>, h: Hunk, v: CompareHunk, k: nat, x: Line, y: Line)
    requires h.OldEnd() <= |a| && h.NewEnd() <= |b| && k < h.oldCount && k < h.newCount && v == View(a, b, h)
    requires x == LineBody(a[h.oldStart + k]) && y == LineBody(b[h.newStart + k])
    ensures k < |v.left.lines| && k < |v.right.lines| && k < |v.left.spans| && k < |v.right.spans|
    ensures v.left.spans[k].Some? ==> ShowsSmallest(v.left.lines[k], v.left.spans[k].value, x, y)
    ensures v.right.spans[k].Some? ==> ShowsSmallest(v.right.lines[k], v.right.spans[k].value, y, x)
  {
    var (i, j) := (h.oldStart + k, h.newStart + k);
    var (at, to) := (Start(a, i), Start(b, j));
    ViewAtLines(a, b, h, k, i, j);
    LineRangeIs(a, i, x, at);
    LineRangeIs(b, j, y, to);
    if Span(x, y).Some? {
      SmallestPlaced(x, y, at, to, LeftOf(Span(x, y), at).value, RightOf(Span(x, y), to).value);
    }
  }

  lemma LineRangeIs(ls: seq<Line>, k: nat, x: Line, at: nat)
    requires k < |ls| && x == LineBody(ls[k]) && at == Start(ls, k)
    ensures LineRange(ls, k) == (at, at + |x|)
  {
  }

  /** In the line range `la` the span `l` is the smallest that sets `x` apart from `y`. */
  ghost predicate ShowsSmallest(la: Range, l: Range, x: Line, y: Line) {
    la.0 <= l.0 && l.1 <= la.1 && SmallestSpan(x, y, l.0 - la.0, la.1 - l.1)
  }

  lemma SmallestPlaced(x: Line, y: Line, at: nat, to: nat, l: Range, r: Range)
    requires Span(x, y).Some? && l == LeftOf(Span(x, y), at).value && r == RightOf(Span(x, y), to).value
    ensures ShowsSmallest((at, at + |x|), l, x, y) && ShowsSmallest((to, to + |y|), r, y, x)
  {
    var (v, w) := Span(x, y).value;
    SpanIsSmallest(x, y, v, w);
    var (pre, suf) := (v.0, |x| - v.1);
    SmallestBothWays(x, y, pre, suf);
    SmallestAt(x, y, at, pre, suf, l);
    SmallestAt(y, x, to, pre, suf, r);
  }

  lemma SmallestAt(x: Line, y: Line, at: nat, pre: nat, suf: nat, l: Range)
    requires SmallestSpan(x, y, pre, suf) && pre + suf <= |x| && l == (at + pre, at + |x| - suf)
    ensures ShowsSmallest((at, at + |x|), l, x, y)
  {
    assert l.0 - at == pre && at + |x| - l.1 == suf;
  }

  lemma ViewAtLines(a: seq<Line>, b: seq<Line>, h: Hunk, k: nat, i: nat, j: nat)
    requires h.OldEnd() <= |a| && h.NewEnd() <= |b| && k < h.oldCount && k < h.newCount
    requires i == h.oldStart + k && j == h.newStart + k
    ensures var (v, s) := (View(a, b, h), Span(LineBody(a[i]), LineBody(b[j])));
            && k < |v.left.spans| && v.left.spans[k] == LeftOf(s, Start(a, i))
            && k < |v.right.spans| && v.right.spans[k] == RightOf(s, Start(b, j))
            && v.left.lines[k] == LineRange(a, i) && v.right.lines[k] == LineRange(b, j)
  {
    var (x, y, n) := (Bodies(a), Bodies(b), Min(h.oldCount, h.newCount));
    ViewParts(a, b, h, x, y, n);
    SpanAt(a, b, x, y, h.oldStart, h.newStart, n, k, i, j);
    LineRangeAt(a, h.oldStart, h.oldCount, k, i);
    LineRangeAt(b, h.newStart, h.newCount, k, j);
  }

  lemma ViewParts(a: seq<Line>, b: seq<Line>, h: Hunk, x: seq<Line>, y: seq<Line>, n: nat)
    requires h.OldEnd() <= |a| && h.NewEnd() <= |b|
    requires x == Bodies(a) && y == Bodies(b) && n == Min(h.oldCount, h.newCount)
    ensures var v := View(a, b, h);
            && v.left.spans == LeftSpans(a, x, y, h.oldStart, h.newStart, n)
            && v.right.spans == RightSpans(b, x, y, h.oldStart, h.newStart, n)
            && v.left.lines == LineRanges(a, h.oldStart, h.oldCount)
            && v.right.lines == LineRanges(b, h.newStart, h.newCount)
  {
  }

  // ----- Line endings only -----------------------------------------------------------------------

  lemma {:induction false} NoSpansIffSame(x: seq<Line>, y: seq<Line>, i: nat, j: nat, n: nat)
    requires i + n <= |x| && j + n <= |y|
    ensures NoSpans(x, y, i, j, n) <==> SameRun(x, y, i, j, n)
    decreases n
  {
    if n > 0 {
      NoSpansIffSame(x, y, i, j, n - 1);
      assert SameRun(x, y, i, j, n) <==> SameRun(x, y, i, j, n - 1) && x[i + n - 1] == y[j + n - 1];
    }
  }

  /** A hunk is marked as line endings only exactly when its two sides have the same bodies. */
  lemma EolOnlyIffSameBodies(x: seq<Line>, y: seq<Line>, h: Hunk)
    requires h.OldEnd() <= |x| && h.NewEnd() <= |y|
    ensures EolOnly(x, y, h) <==> x[h.oldStart..h.OldEnd()] == y[h.newStart..h.NewEnd()]
  {
    if h.oldCount == h.newCount {
      NoSpansIffSame(x, y, h.oldStart, h.newStart, h.oldCount);
      if SameRun(x, y, h.oldStart, h.newStart, h.oldCount) {
        RunSlice(x, y, h.oldStart, h.newStart, h.oldCount);
      } else if x[h.oldStart..h.OldEnd()] == y[h.newStart..h.NewEnd()] {
        SliceRun(x, y, h.oldStart, h.newStart, h.OldEnd(), h.NewEnd());
      }
    }
  }

  lemma BodiesOfRun(a: seq<Line>, b: seq<Line>, x: seq<Line>, y: seq<Line>, i: nat, j: nat, i2: nat, j2: nat)
    requires |x| == |a| && |y| == |b| && 0 <= i2 - i == j2 - j && SameRun(a, b, i, j, i2 - i)
    requires forall p, q :: 0 <= p < |a| && 0 <= q < |b| && a[p] == b[q] ==> x[p] == y[q]
    ensures x[i..i2] == y[j..j2]
  {
    RunSlice(x, y, i, j, i2 - i);
  }

  lemma {:induction false} EolOnlyFrom(x: seq<Line>, y: seq<Line>, a: seq<Line>, b: seq<Line>, i: nat, j: nat, hs: seq<Hunk>)
    requires |x| == |a| && |y| == |b| && Script(a, b, i, j, |a|, |b|, hs)
    requires forall p, q :: 0 <= p < |a| && 0 <= q < |b| && a[p] == b[q] ==> x[p] == y[q]
    requires forall k :: 0 <= k < |hs| ==>
      hs[k].OldEnd() <= |x| && hs[k].NewEnd() <= |y|
      && x[hs[k].oldStart..hs[k].OldEnd()] == y[hs[k].newStart..hs[k].NewEnd()]
    ensures i <= |x| && j <= |y| && x[i..] == y[j..]
    decreases |hs|
  {
    if hs != [] {
      var h := hs[0];
      EolOnlyFrom(x, y, a, b, h.OldEnd(), h.NewEnd(), hs[1..]);
      BodiesOfRun(a, b, x, y, i, j, h.oldStart, h.newStart);
      SliceThree(x, i, h.oldStart, h.OldEnd());
      SliceThree(y, j, h.newStart, h.NewEnd());
    } else {
      BodiesOfRun(a, b, x, y, i, j, |a|, |b|);
    }
  }

  /** If every hunk is line endings only, the texts have identical line bodies throughout. */
  lemma AllEolOnly(a: seq<Line>, b: seq<Line>, hs: seq<Hunk>)
    requires IsScript(a, b, hs) && InLines(a, b, hs)
    requires forall k :: 0 <= k < |hs| ==> EolOnly(Bodies(a), Bodies(b), hs[k])
    ensures Bodies(a) == Bodies(b)
  {
    var (x, y) := (Bodies(a), Bodies(b));
    forall k | 0 <= k < |hs| ensures x[hs[k].oldStart..hs[k].OldEnd()] == y[hs[k].newStart..hs[k].NewEnd()] {
      EolOnlyIffSameBodies(x, y, hs[k]);
    }
    EolOnlyFrom(x, y, a, b, 0, 0, hs);
    assert x[0..] == x && y[0..] == y;
  }

  /** Hunks that change no number of lines name the same lines on both sides. */
  lemma {:induction false} BalancedInPlace<T>(a: seq<T>, b: seq<T>, i: nat, hs: seq<Hunk>, k: nat)
    requires Script(a, b, i, i, |a|, |b|, hs) && Balanced(hs) && k < |hs|
    ensures hs[k].oldStart == hs[k].newStart
    decreases |hs|
  {
    if k > 0 {
      assert hs[0].oldCount == hs[0].newCount && Balanced(hs[1..]);
      BalancedInPlace(a, b, hs[0].OldEnd(), hs[1..], k - 1);
    }
  }

  /** Every hunk is line endings only exactly when the texts have identical line bodies and no hunk
      changes the number of lines. */
  lemma AllEolOnlyIff(a: seq<Line>, b: seq<Line>, hs: seq<Hunk>)
    requires IsScript(a, b, hs) && InLines(a, b, hs)
    ensures (forall k :: 0 <= k < |hs| ==> EolOnly(Bodies(a), Bodies(b), hs[k]))
            <==> Bodies(a) == Bodies(b) && Balanced(hs)
  {
    if forall k :: 0 <= k < |hs| ==> EolOnly(Bodies(a), Bodies(b), hs[k]) {
      AllEolOnly(a, b, hs);
      assert forall k :: 0 <= k < |hs| && EolOnly(Bodies(a), Bodies(b), hs[k]) ==> hs[k].oldCount == hs[k].newCount;
    } else if Bodies(a) == Bodies(b) && Balanced(hs) {
      forall k | 0 <= k < |hs| ensures EolOnly(Bodies(a), Bodies(b), hs[k]) {
        BalancedInPlace(a, b, 0, hs, k);
        EolOnlyIffSameBodies(Bodies(a), Bodies(b), hs[k]);
      }
    }
  }

  /** That is so, in particular, when no line of one text occurs at another place of the other. */
  lemma {:induction false} InPlaceIsBalanced<T>(a: seq<T>, b: seq<T>, i: nat, hs: seq<Hunk>)
    requires |a| == |b| && Script(a, b, i, i, |a|, |b|, hs)
    requires forall p, q :: 0 <= p < |a| && 0 <= q < |b| && a[p] == b[q] ==> p == q
    ensures Balanced(hs)
    decreases |hs|
  {
    if hs != [] {
      var h := hs[0];
      if |hs| > 1 { assert a[h.OldEnd()] == b[h.NewEnd()]; }
      assert h.OldEnd() == h.NewEnd();
      InPlaceIsBalanced(a, b, h.OldEnd(), hs[1..]);
      forall k | 0 <= k < |hs| ensures hs[k].oldCount == hs[k].newCount {
        if k > 0 { assert hs[k] == hs[1..][k - 1]; }
      }
    }
  }

  lemma SplitTwo(x: Line, y: Line)
    requires Terminated(x) && Terminated(y)
    ensures SplitInclusive(x + y) == [x, y]
  {
    ConcatTwo(x, y);
    SplitOfLines([x, y]);
  }

  lemma ConcatTwo(x: Line, y: Line)
    ensures Concat([x, y]) == x + y
  {
    assert [x, y] == [x] + [y];
    ConcatAppend([x], [y]);
    ConcatOne(x);
    ConcatOne(y);
  }

  lemma ConcatOne(x: Line)
    ensures Concat([x]) == x
  {
    assert [x][1..] == [];
  }

  /** But not always: when two lines that differ in their endings only change places, some hunk is
      not marked. */
  lemma SwappedEndingsAreNotMarked(x: Line, y: Line)
    requires Terminated(x) && Terminated(y) && x != y && LineBody(x) == LineBody(y)
    ensures var (a, b, hs) := (SplitInclusive(x + y), SplitInclusive(y + x), TextHunks(x + y, y + x));
            && Bodies(a) == Bodies(b) && InLines(a, b, hs)
            && exists k :: 0 <= k < |hs| && !EolOnly(Bodies(a), Bodies(b), hs[k])
  {
    var (s, t) := (x + y, y + x);
    SplitTwo(x, y);
    SplitTwo(y, x);
    SwappedLines(s, t, x, y);
    TextRanges(s, t);
    TextHunksAreScript(s, t);
    SameBodies(x, y);
    SomeUnmarked(SplitInclusive(s), SplitInclusive(t), TextHunks(s, t));
  }

  lemma SameBodies(x: Line, y: Line)
    requires LineBody(x) == LineBody(y)
    ensures Bodies([x, y]) == Bodies([y, x])
  {
  }

  lemma SomeUnmarked(a: seq<Line>, b: seq<Line>, hs: seq<Hunk>)
    requires IsScript(a, b, hs) && InLines(a, b, hs) && !Balanced(hs)
    ensures exists k :: 0 <= k < |hs| && !EolOnly(Bodies(a), Bodies(b), hs[k])
  {
    AllEolOnlyIff(a, b, hs);
  }

  lemma SwappedLines(s: seq<Byte>, t: seq<Byte>, x: Line, y: Line)
    requires SplitInclusive(s) == [x, y] && SplitInclusive(t) == [y, x] && x != y
    ensures !Balanced(TextHunks(s, t))
  {
    var (a, b, m) := (SplitInclusive(s), SplitInclusive(t), TableOf(s, t));
    TableCovers(s, t);
    var (u, v) := (IdsOf(m, a), IdsOf(m, b));
    SwappedIds(m, a, b, u, v);
    SwapIsNotBalanced(u, v);
  }

  lemma SwappedIds(m: Ids, a: seq<Line>, b: seq<Line>, u: seq<nat>, v: seq<nat>)
    requires |a| == 2 && b == [a[1], a[0]] && a[0] != a[1] && Injective(m)
    requires (forall k :: 0 <= k < |a| ==> a[k] in m) && (forall k :: 0 <= k < |b| ==> b[k] in m)
    requires u == IdsOf(m, a) && v == IdsOf(m, b)
    ensures |u| == 2 && v == [u[1], u[0]] && u[0] != u[1]
  {
    assert a[0] in m && a[1] in m && v[0] == m[b[0]] && v[1] == m[b[1]];
  }

  /** As with an `x` ended by a line feed, and one by a carriage return and a line feed. */
  lemma SwappedCrLf(x: Line, y: Line)
    requires x == [120, 10] && y == [120, 13, 10]
    ensures var (a, b, hs) := (SplitInclusive(x + y), SplitInclusive(y + x), TextHunks(x + y, y + x));
            && Bodies(a) == Bodies(b) && InLines(a, b, hs)
            && exists k :: 0 <= k < |hs| && !EolOnly(Bodies(a), Bodies(b), hs[k])
  {
    LfAndCrLf(x, y);
    SwappedEndingsAreNotMarked(x, y);
  }

  lemma LfAndCrLf(x: Line, y: Line)
    requires x == [120, 10] && y == [120, 13, 10]
    ensures Terminated(x) && Terminated(y) && x != y && LineBody(x) == LineBody(y)
  {
    assert x[..1] == [120] && y[..2] == [120, 13] && [120, 13][..1] == [120];
  }

  // ----- The program -----------------------------------------------------------------------------

  /** The byte offsets of the lines, with the text's length at the end. */
  ghost predicate StartsOf(starts: seq<nat>, ls: seq<Line>) {
    |starts| == |ls| + 1 && forall k :: 0 <= k < |starts| ==> starts[k] == Start(ls, k)
  }

  ghost predicate StartsTo(starts: seq<nat>, ls: seq<Line>, k: nat) {
    k <= |ls| && |starts| == k + 1 && forall l :: 0 <= l < |starts| ==> starts[l] == Start(ls, l)
  }

  lemma StartsPush(starts: seq<nat>, ls: seq<Line>, k: nat)
    requires k < |ls| && StartsTo(starts, ls, k)
    ensures StartsTo(starts + [starts[k] + |ls[k]|], ls, k + 1)
  {
    StartNext(ls, k);
  }

  method ByteLineStarts(ls: seq<Line>) returns (starts: seq<nat>)
    ensures StartsOf(starts, ls)
  {
    var pos := 0;
    starts := [0];
    for k := 0 to |ls|
      invariant StartsTo(starts, ls, k) && pos == starts[k]
    {
      StartsPush(starts, ls, k);
      pos := pos + |ls[k]|;
      starts := starts + [pos];
    }
  }

  method MeasureSide(starts: seq<nat>, ls: seq<Line>, start: nat, count: nat) returns (r: CompareSide)
    requires start + count <= |ls| && StartsOf(starts, ls)
    ensures r == SideOf(ls, start, count, [])
  {
    var lines: seq<Range> := [];
    for k := 0 to count
      invariant lines == LineRanges(ls, start, k)
    {
      lines := lines + [(starts[start + k], starts[start + k] + |LineBody(ls[start + k])|)];
    }
    var last := |starts| - 1;
    r := CompareSide(
      start, count, starts[Min(start, last)], starts[Min(start + count, last)],
      if count == 0 && start > 0 then starts[Min(start - 1, last)] else starts[Min(start, last)],
      lines, []);
  }

  /** The spans of `n` lines paired from (i, j) on; `eolOnly` stays `sameCount` while none is found. */
  method MeasureSpans(oldStarts: seq<nat>, newStarts: seq<nat>, a: seq<Line>, b: seq<Line>,
                      i: nat, j: nat, n: nat, sameCount: bool)
    returns (left: seq<Option<Range>>, right: seq<Option<Range>>, eolOnly: bool)
    requires i + n <= |a| && j + n <= |b| && StartsOf(oldStarts, a) && StartsOf(newStarts, b)
    ensures left == LeftSpans(a, Bodies(a), Bodies(b), i, j, n)
    ensures right == RightSpans(b, Bodies(a), Bodies(b), i, j, n)
    ensures eolOnly <==> sameCount && NoSpans(Bodies(a), Bodies(b), i, j, n)
  {
    ghost var x, y := Bodies(a), Bodies(b);
    eolOnly := sameCount;
    left, right := [], [];
    for k := 0 to n
      invariant left == LeftSpans(a, x, y, i, j, k)
      invariant right == RightSpans(b, x, y, i, j, k)
      invariant eolOnly <==> sameCount && NoSpans(x, y, i, j, k)
    {
      var span := ChangedSpan(LineBody(a[i + k]), LineBody(b[j + k]));
      SpansNext(a, b, x, y, i, j, k);
      assert span == Span(x[i + k], y[j + k]);
      if span.Some? {
        eolOnly := false;
      }
      left := left + [LeftOf(span, oldStarts[i + k])];
      right := right + [RightOf(span, newStarts[j + k])];
    }
  }

  method ViewHunk(oldStarts: seq<nat>, newStarts: seq<nat>, a: seq<Line>, b: seq<Line>, h: Hunk) returns (r: CompareHunk)
    requires h.OldEnd() <= |a| && h.NewEnd() <= |b| && StartsOf(oldStarts, a) && StartsOf(newStarts, b)
    ensures r == View(a, b, h)
  {
    var paired := Min(h.oldCount, h.newCount);
    var left := MeasureSide(oldStarts, a, h.oldStart, h.oldCount);
    var right := MeasureSide(newStarts, b, h.newStart, h.newCount);
    var leftSpans, rightSpans, eolOnly :=
      MeasureSpans(oldStarts, newStarts, a, b, h.oldStart, h.newStart, paired, h.oldCount == h.newCount);
    r := CompareHunk(left.(spans := leftSpans), right.(spans := rightSpans), eolOnly);
  }

  /** `vs` shows the first hunks, in order. */
  ghost predicate AreViews(a: seq<Line>, b: seq<Line>, hs: seq<Hunk>, vs: seq<CompareHunk>) {
    && |vs| <= |hs| && InLines(a, b, hs)
    && forall k :: 0 <= k < |vs| ==> vs[k] == View(a, b, hs[k])
  }

  /** The byte ranges a view names on the two sides. */
  predicate NamesBytes(v: CompareHunk, h: Hunk) {
    && v.left.from == h.oldStart && v.left.to == h.OldEnd()
    && v.right.from == h.newStart && v.right.to == h.NewEnd()
  }

  /** The lines a view names on the two sides: the hunk's, each with its range, and a span or none for
      each pair of them. */
  predicate NamesLines(v: CompareHunk, h: Hunk) {
    && v.left.start == h.oldStart && |v.left.lines| == v.left.count == h.oldCount
    && v.right.start == h.newStart && |v.right.lines| == v.right.count == h.newCount
    && |v.left.spans| == |v.right.spans| == Min(h.oldCount, h.newCount)
  }

  /** The ranges of a view are the bytes of its hunk of lines. */
  lemma ViewNamesBytes(a: seq<Line>, b: seq<Line>, h: Hunk, v: CompareHunk, r: Hunk)
    requires h.OldEnd() <= |a| && h.NewEnd() <= |b| && v == View(a, b, h) && r == ByteHunk(a, b, h)
    ensures NamesBytes(v, r)
  {
    SideBounds(a, h.oldStart, h.oldCount, v.left.spans, h.OldEnd());
    SideBounds(b, h.newStart, h.newCount, v.right.spans, h.NewEnd());
  }

  lemma SideBounds(ls: seq<Line>, start: nat, count: nat, spans: seq<Option<Range>>, end: nat)
    requires end == start + count <= |ls|
    ensures var s := SideOf(ls, start, count, spans); s.from == Start(ls, start) && s.to == Start(ls, end)
  {
  }

  lemma ViewsPush(a: seq<Line>, b: seq<Line>, hs: seq<Hunk>, vs: seq<CompareHunk>, k: nat, v: CompareHunk)
    requires AreViews(a, b, hs, vs) && k == |vs| < |hs| && v == View(a, b, hs[k])
    ensures AreViews(a, b, hs, vs + [v])
  {
  }

  method ViewHunks(a: seq<Line>, b: seq<Line>, hs: seq<Hunk>) returns (r: seq<CompareHunk>)
    requires InLines(a, b, hs)
    ensures |r| == |hs| && AreViews(a, b, hs, r)
  {
    var oldStarts := ByteLineStarts(a);
    var newStarts := ByteLineStarts(b);
    r := [];
    for k := 0 to |hs|
      invariant |r| == k && AreViews(a, b, hs, r)
    {
      var v := ViewHunk(oldStarts, newStarts, a, b, hs[k]);
      ViewsPush(a, b, hs, r, k, v);
      r := r + [v];
    }
  }

  /** Compare two texts in their own bytes. The reported ranges turn one text into the other: outside
      them the texts agree byte for byte. */
  method Compare(oldText: seq<Byte>, newText: seq<Byte>) returns (r: seq<CompareHunk>)
    requires |SplitInclusive(oldText)| + |SplitInclusive(newText)| < U32_RANGE
    ensures |r| == |TextHunks(oldText, newText)|
    ensures AreViews(SplitInclusive(oldText), SplitInclusive(newText), TextHunks(oldText, newText), r)
    ensures var bs := TextByteHunks(oldText, newText);
            IsScript(oldText, newText, bs) && |r| == |bs| && forall k :: 0 <= k < |r| ==> NamesBytes(r[k], bs[k])
    ensures forall k :: 0 <= k < |r| ==> NamesLines(r[k], TextHunks(oldText, newText)[k])
    ensures r == [] <==> oldText == newText
    ensures (forall k :: 0 <= k < |r| ==> r[k].eolOnly)
            <==> && Bodies(SplitInclusive(oldText)) == Bodies(SplitInclusive(newText))
                 && (forall k :: 0 <= k < |r| ==> r[k].left.count == r[k].right.count)
  {
    var a, b := SplitInclusive(oldText), SplitInclusive(newText);
    var hunks := ComputeLineDiff(oldText, newText);
    TextRanges(oldText, newText);
    r := ViewHunks(a, b, hunks);
    TextBytesAreScript(oldText, newText);
    ViewsNameBytes(a, b, hunks, r, TextByteHunks(oldText, newText));
    ViewsEolOnlyIff(a, b, hunks, r);
  }

  lemma ViewsNameBytes(a: seq<Line>, b: seq<Line>, hs: seq<Hunk>, vs: seq<CompareHunk>, bs: seq<Hunk>)
    requires AreViews(a, b, hs, vs) && AreByteHunks(a, b, hs, bs)
    ensures forall k :: 0 <= k < |vs| ==> NamesBytes(vs[k], bs[k])
  {
    forall k | 0 <= k < |vs| ensures NamesBytes(vs[k], bs[k]) { ViewNamesBytes(a, b, hs[k], vs[k], bs[k]); }
  }

  lemma ViewsEolOnlyIff(a: seq<Line>, b: seq<Line>, hs: seq<Hunk>, vs: seq<CompareHunk>)
    requires IsScript(a, b, hs) && AreViews(a, b, hs, vs) && |vs| == |hs|
    ensures (forall k :: 0 <= k < |vs| ==> vs[k].eolOnly)
            <==> Bodies(a) == Bodies(b) && forall k :: 0 <= k < |vs| ==> vs[k].left.count == vs[k].right.count
  {
    AllEolOnlyIff(a, b, hs);
    forall k | 0 <= k < |vs|
      ensures vs[k].eolOnly == EolOnly(Bodies(a), Bodies(b), hs[k])
      ensures vs[k].left.count == hs[k].oldCount && vs[k].right.count == hs[k].newCount
    {
      ViewMarks(a, b, hs[k], vs[k]);
    }
  }

  lemma ViewMarks(a: seq<Line>, b: seq<Line>, h: Hunk, v: CompareHunk)
    requires h.OldEnd() <= |a| && h.NewEnd() <= |b| && v == View(a, b, h)
    ensures v.eolOnly == EolOnly(Bodies(a), Bodies(b), h)
    ensures v.left.count == h.oldCount && v.right.count == h.newCount
  {
  }
}
