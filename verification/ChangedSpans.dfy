/**
  The part of a changed line that differs from its counterpart.
 */
module ChangedSpans {
  import opened EditScript
  import opened Lines
  import opened Utf8
  import opened Utils

  type Range = (nat, nat)

  const CARRIAGE_RETURN: Byte := 13

  /** Bytes of a line before its terminator, `\n` or `\r\n`; a lone `\r` at the end goes too. */
  function BodyLen(line: Line): (r: nat)
    ensures r <= |line|
  {
    var n := if line != [] && line[|line| - 1] == NEWLINE then |line| - 1 else |line|;
    if n > 0 && line[n - 1] == CARRIAGE_RETURN then n - 1 else n
  }

  /** A line without its terminator. */
  function LineBody(line: Line): (r: Line) {
    line[..BodyLen(line)]
  }

  /** What ends a line: nothing, `\n`, `\r\n`, or a `\r` that no `\n` follows. */
  predicate IsTerminator(t: seq<Byte>) { t == [] || t == [10] || t == [13, 10] || t == [13] }

  /** `t` is all of the line's terminator: it has the `\n` the line ends in, and the `\r` before it. */
  predicate EndsLine(body: seq<Byte>, t: seq<Byte>) {
    && IsTerminator(t)
    && (t == [] || t == [10] ==> body == [] || body[|body| - 1] != 13)
    && (t == [] ==> body == [] || body[|body| - 1] != 10)
  }

  /** Every line is its body and a terminator. */
  lemma BodyAndTerminator(line: Line)
    ensures var t := line[|LineBody(line)|..]; line == LineBody(line) + t && EndsLine(LineBody(line), t)
  {
    var (n, t) := (BodyLen(line), line[BodyLen(line)..]);
    assert line == line[..n] + t;
    assert |t| <= 2 && (t == [] || t == [t[0]] || t == [t[0], t[1]]);
  }

  /** And in one way only: a body that is put before its terminator comes back. */
  lemma BodyIs(body: seq<Byte>, t: seq<Byte>)
    requires EndsLine(body, t)
    ensures LineBody(body + t) == body
  {
    assert (body + t)[..|body|] == body;
  }

  /** Taking the terminator off a valid line leaves a valid body. */
  lemma BodyIsValid(line: Line)
    requires ValidUtf8(line)
    ensures ValidUtf8(LineBody(line))
  {
    ValidSplit(line, BodyLen(line));
  }

  // ----- The changed span of one line -------------------------------------------------------

  /** Byte `i`, if the line has one, continues a character. */
  predicate ContinuesAt(s: seq<Byte>, i: nat) {
    i < |s| && IsContinuation(s[i])
  }

  /** Cutting both lines after `p` bytes cuts no character. */
  predicate CleanLead(a: seq<Byte>, b: seq<Byte>, p: nat) {
    !ContinuesAt(a, p) && !ContinuesAt(b, p)
  }

  /** Cutting both lines before their last `q` bytes cuts no character. */
  predicate CleanTail(a: seq<Byte>, b: seq<Byte>, q: nat)
    requires q <= |a| && q <= |b|
  {
    !ContinuesAt(a, |a| - q) && !ContinuesAt(b, |b| - q)
  }

  /** The longest clean lead of at most `p` bytes. */
  function BackOffLead(a: seq<Byte>, b: seq<Byte>, p: nat): (r: nat)
    ensures r <= p && (r == 0 || CleanLead(a, b, r))
  {
    if p > 0 && !CleanLead(a, b, p) then BackOffLead(a, b, p - 1) else p
  }

  /** The longest clean tail of at most `q` bytes. */
  function BackOffTail(a: seq<Byte>, b: seq<Byte>, q: nat): (r: nat)
    requires q <= |a| && q <= |b|
    ensures r <= q && (r == 0 || CleanTail(a, b, r))
  {
    if q > 0 && !CleanTail(a, b, q) then BackOffTail(a, b, q - 1) else q
  }

  /** Lengths of the lead and tail two different lines share. */
  function SpanLead(a: seq<Byte>, b: seq<Byte>): (r: nat)
    ensures r <= |a| && r <= |b|
  {
    BackOffLead(a, b, CommonPrefix(a, b))
  }

  function SpanTail(a: seq<Byte>, b: seq<Byte>): (r: nat)
    ensures SpanLead(a, b) + r <= |a| && SpanLead(a, b) + r <= |b|
  {
    BackOffTail(a, b, CommonSuffix(a, b, SpanLead(a, b), |a|, |b|))
  }

  /** The parts of two lines that differ, or nothing when the lines are equal. */
  function Span(a: seq<Byte>, b: seq<Byte>): (r: Option<(Range, Range)>) {
    if a == b then None
    else
      var (pre, suf) := (SpanLead(a, b), SpanTail(a, b));
      Some(((pre, |a| - suf), (pre, |b| - suf)))
  }

  lemma RunsCover(a: seq<Byte>, b: seq<Byte>, pre: nat, suf: nat)
    requires SameRun(a, b, 0, 0, pre) && SameRun(a, b, pre, pre, suf) && pre + suf == |a| == |b|
    ensures a == b
  {
    RunGrow(a, b, 0, 0, pre, suf);
  }

  /** A span leaves equal, non-overlapping ends, and something on at least one side. */
  lemma SpanEndsAgree(a: seq<Byte>, b: seq<Byte>)
    ensures var (pre, suf) := (SpanLead(a, b), SpanTail(a, b));
            && SameRun(a, b, 0, 0, pre) && SameRun(a, b, |a| - suf, |b| - suf, suf)
            && (pre + suf == |a| == |b| ==> a == b)
  {
    var (pre, suf) := (SpanLead(a, b), SpanTail(a, b));
    PrefixRun(a, b, 0, 0);
    SuffixRun(a, b, pre, |a|, |b|, 0);
    if pre + suf == |a| == |b| { RunsCover(a, b, pre, suf); }
  }

  /** A span is cut on character boundaries: it and both ends of a valid line are valid. */
  lemma SpanCutsNoCharacter(a: seq<Byte>, b: seq<Byte>, l: Range, r: Range)
    requires Span(a, b) == Some((l, r))
    ensures l.0 <= l.1 <= |a| && r.0 <= r.1 <= |b|
    ensures ValidUtf8(a) ==> ThreeValid(a, l.0, l.1)
    ensures ValidUtf8(b) ==> ThreeValid(b, r.0, r.1)
  {
    SpanOnBoundaries(a, b, l, r);
    CutTwice(a, l.0, l.1);
    CutTwice(b, r.0, r.1);
  }

  lemma SpanOnBoundaries(a: seq<Byte>, b: seq<Byte>, l: Range, r: Range)
    requires Span(a, b) == Some((l, r))
    ensures l.0 <= l.1 <= |a| && r.0 <= r.1 <= |b|
    ensures IsBoundary(a, l.0) && IsBoundary(b, r.0) && IsBoundary(a, l.1) && IsBoundary(b, r.1)
  {
  }

  /** The line falls into three valid texts at `i` and `j`. */
  predicate ThreeValid(s: seq<Byte>, i: nat, j: nat)
    requires i <= j <= |s|
  {
    ValidUtf8(s[..i]) && ValidUtf8(s[i..j]) && ValidUtf8(s[j..])
  }

  lemma CutTwice(s: seq<Byte>, i: nat, j: nat)
    requires i <= j && IsBoundary(s, i) && IsBoundary(s, j)
    ensures ValidUtf8(s) ==> ThreeValid(s, i, j)
  {
    if ValidUtf8(s) {
      ValidSplit(s, j);
      ValidSplit(s[..j], i);
      assert s[..j][..i] == s[..i] && s[..j][i..] == s[i..j];
    }
  }

  /** The span is as small as boundaries allow: no equal lead that ends on a boundary of both
      lines is longer than the one left out ... */
  lemma SpanLeadIsLongest(a: seq<Byte>, b: seq<Byte>, p: nat)
    requires ValidUtf8(a) && ValidUtf8(b)
    requires SameRun(a, b, 0, 0, p) && IsBoundary(a, p) && IsBoundary(b, p)
    ensures p <= SpanLead(a, b)
  {
    PrefixRun(a, b, 0, p);
    BoundaryIsClean(a, p);
    BoundaryIsClean(b, p);
    BackOffLeadLongest(a, b, CommonPrefix(a, b), p);
  }

  lemma BoundariesAreClean(a: seq<Byte>, b: seq<Byte>, q: nat)
    requires ValidUtf8(a) && ValidUtf8(b) && q <= |a| && q <= |b|
    requires IsBoundary(a, |a| - q) && IsBoundary(b, |b| - q)
    ensures CleanTail(a, b, q)
  {
    BoundaryIsClean(a, |a| - q);
    BoundaryIsClean(b, |b| - q);
  }

  lemma BoundaryIsClean(s: seq<Byte>, i: nat)
    requires ValidUtf8(s) && IsBoundary(s, i)
    ensures !ContinuesAt(s, i)
  {
    if i < |s| { BoundaryByte(s, i); }
  }

  /** ... and no equal tail behind it that starts on one is longer either. */
  lemma SpanTailIsLongest(a: seq<Byte>, b: seq<Byte>, q: nat)
    requires ValidUtf8(a) && ValidUtf8(b)
    requires SpanLead(a, b) + q <= |a| && SpanLead(a, b) + q <= |b| && SameRun(a, b, |a| - q, |b| - q, q)
    requires IsBoundary(a, |a| - q) && IsBoundary(b, |b| - q)
    ensures q <= SpanTail(a, b)
  {
    SuffixRun(a, b, SpanLead(a, b), |a|, |b|, q);
    BoundariesAreClean(a, b, q);
    BackOffTailLongest(a, b, CommonSuffix(a, b, SpanLead(a, b), |a|, |b|), q);
  }

  lemma {:induction false} BackOffLeadLongest(a: seq<Byte>, b: seq<Byte>, p: nat, k: nat)
    requires k <= p && CleanLead(a, b, k)
    ensures k <= BackOffLead(a, b, p)
    decreases p
  {
    if p > 0 && !CleanLead(a, b, p) { BackOffLeadLongest(a, b, p - 1, k); }
  }

  lemma {:induction false} BackOffTailLongest(a: seq<Byte>, b: seq<Byte>, q: nat, k: nat)
    requires q <= |a| && q <= |b| && k <= q && CleanTail(a, b, k)
    ensures k <= BackOffTail(a, b, q)
    decreases q
  {
    if q > 0 && !CleanTail(a, b, q) { BackOffTailLongest(a, b, q - 1, k); }
  }

  /** The lines differ between their first `pre` and last `suf` bytes, and these are as many as they
      can be without cutting a character: the lead first, then the tail behind it. */
  ghost predicate SmallestSpan(a: seq<Byte>, b: seq<Byte>, pre: nat, suf: nat) {
    && LongestLead(a, b, pre)
    && pre + suf <= |a| && pre + suf <= |b| && SameRun(a, b, |a| - suf, |b| - suf, suf)
    && (suf == 0 || CleanTail(a, b, suf))
    && forall q: nat :: pre + q <= |a| && pre + q <= |b| && SameRun(a, b, |a| - q, |b| - q, q) && CleanTail(a, b, q) ==>
         q <= suf
  }

  lemma SmallestBothWays(a: seq<Byte>, b: seq<Byte>, pre: nat, suf: nat)
    requires SmallestSpan(a, b, pre, suf)
    ensures SmallestSpan(b, a, pre, suf)
  {
    forall n: nat | CommonLead(b, a, n) ensures n <= pre { assert CommonLead(a, b, n); }
    forall q: nat | pre + q <= |b| && pre + q <= |a| && SameRun(b, a, |b| - q, |a| - q, q) && CleanTail(b, a, q)
      ensures q <= suf
    {
      assert SameRun(a, b, |a| - q, |b| - q, q) && CleanTail(a, b, q);
    }
  }

  lemma LeadIsLongest(a: seq<Byte>, b: seq<Byte>)
    ensures LongestLead(a, b, SpanLead(a, b))
  {
    PrefixRun(a, b, 0, 0);
    forall n: nat | CommonLead(a, b, n) ensures n <= SpanLead(a, b) {
      PrefixRun(a, b, 0, n);
      if n > 0 { BackOffLeadLongest(a, b, CommonPrefix(a, b), n); }
    }
  }

  /** For all bytes, text or not: the two ranges of a span leave the same lengths on both sides, and are the
      smallest. */
  lemma SpanIsSmallest(a: seq<Byte>, b: seq<Byte>, l: Range, r: Range)
    requires Span(a, b) == Some((l, r))
    ensures a != b && l.0 == r.0 && l.0 <= l.1 <= |a| && r.0 <= r.1 <= |b| && |a| - l.1 == |b| - r.1
    ensures SmallestSpan(a, b, l.0, |a| - l.1)
  {
    var (pre, suf) := (SpanLead(a, b), SpanTail(a, b));
    LeadIsLongest(a, b);
    SpanEndsAgree(a, b);
    forall q: nat | pre + q <= |a| && pre + q <= |b| && SameRun(a, b, |a| - q, |b| - q, q) && CleanTail(a, b, q)
      ensures q <= suf
    {
      SuffixRun(a, b, pre, |a|, |b|, q);
      BackOffTailLongest(a, b, CommonSuffix(a, b, pre, |a|, |b|), q);
    }
  }

  /** The differing parts of two line bodies. */
  method ChangedSpan(a: seq<Byte>, b: seq<Byte>) returns (r: Option<(Range, Range)>)
    ensures r == Span(a, b) && (r.None? <==> a == b)
    ensures r.Some? ==>
      var (x, y) := r.value;
      && x.0 == y.0 && x.0 <= x.1 <= |a| && y.0 <= y.1 <= |b| && |a| - x.1 == |b| - y.1
      && SmallestSpan(a, b, x.0, |a| - x.1)
  {
    if a == b {
      return None;
    }
    SpanIsSmallest(a, b, Span(a, b).value.0, Span(a, b).value.1);
    var pre := MeasureLead(a, b);
    var suf := MeasureTail(a, b, pre);
    return Some(((pre, |a| - suf), (pre, |b| - suf)));
  }

  method MeasureLead(a: seq<Byte>, b: seq<Byte>) returns (pre: nat)
    ensures pre == SpanLead(a, b)
  {
    pre := 0;
    while pre < |a| && pre < |b| && a[pre] == b[pre]
      invariant pre <= |a| && pre <= |b| && PrefixFrom(a, b, 0) == PrefixFrom(a, b, pre)
    {
      pre := pre + 1;
    }
    while pre > 0 && (ContinuesAt(a, pre) || ContinuesAt(b, pre))
      invariant BackOffLead(a, b, pre) == SpanLead(a, b)
    {
      pre := pre - 1;
    }
  }

  method MeasureTail(a: seq<Byte>, b: seq<Byte>, pre: nat) returns (suf: nat)
    requires pre == SpanLead(a, b)
    ensures suf == SpanTail(a, b)
  {
    suf := 0;
    var most := Min(|a|, |b|) - pre;
    while suf < most && a[|a| - 1 - suf] == b[|b| - 1 - suf]
      invariant suf <= most
      invariant CommonSuffix(a, b, pre, |a|, |b|) == suf + CommonSuffix(a, b, pre, |a| - suf, |b| - suf)
    {
      suf := suf + 1;
    }
    while suf > 0 && (ContinuesAt(a, |a| - suf) || ContinuesAt(b, |b| - suf))
      invariant suf <= most && BackOffTail(a, b, suf) == SpanTail(a, b)
    {
      suf := suf - 1;
    }
  }
}
