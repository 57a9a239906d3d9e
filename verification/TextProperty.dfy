/**
  Resolving a row of styled text: concatenate its segments, truncate, pad, and turn
  character offsets into byte offsets.
 */
module TextProperty {
  import opened Json
  import opened Lines
  import opened Utf8
  import opened Utils

  datatype Unit = ByteUnit | CharUnit

  /** Styling options are opaque here. */
  type Style = string

  datatype Overlay = Overlay(start: nat, end: nat, style: Style, properties: map<string, Json>, unit: Unit)

  datatype Segment = Segment(text: seq<Byte>, style: Option<Style>, overlays: seq<Overlay>)

  /** The fields of an entry that resolving reads or writes. */
  datatype Entry = Entry(
    text: seq<Byte>, overlays: seq<Overlay>, segments: seq<Segment>, pad: Option<nat>, truncate: Option<nat>)

  const SPACE: Line := [32]
  const DOT: Line := [46]
  const DOTS: seq<Line> := [DOT, DOT, DOT]

  predicate ValidEntry(e: Entry) {
    ValidUtf8(e.text) && ValidSegments(e.segments)
  }

  predicate ValidSegments(segs: seq<Segment>) {
    forall k :: 0 <= k < |segs| ==> ValidUtf8(segs[k].text)
  }

  // ----- The text, as a list of characters ----------------------------------------------------------

  /** Cut to at most `t` characters, the last three of them dots when `t` is more than three. */
  function Truncated(cs: seq<Line>, t: Option<nat>): (r: seq<Line>) {
    if t.None? || |cs| <= t.value then cs
    else if t.value <= 3 then cs[..t.value]
    else cs[..t.value - 3] + DOTS
  }

  function Spaces(n: nat): (r: seq<Line>)
    ensures |r| == n && forall k :: 0 <= k < n ==> r[k] == SPACE
  {
    seq(n, _ => SPACE)
  }

  function Padded(cs: seq<Line>, p: Option<nat>): (r: seq<Line>) {
    if p.Some? && |cs| < p.value then cs + Spaces(p.value - |cs|) else cs
  }

  function Fitted(cs: seq<Line>, t: Option<nat>, p: Option<nat>): (r: seq<Line>) {
    Padded(Truncated(cs, t), p)
  }

  /** The characters of the first `n` segments, and where segment `n` starts in characters and bytes. */
  function SegmentChars(segs: seq<Segment>, n: nat): (r: seq<Line>)
    requires ValidSegments(segs) && n <= |segs|
  {
    if n == 0 then [] else SegmentChars(segs, n - 1) + Chars(segs[n - 1].text)
  }

  function CharCursor(segs: seq<Segment>, n: nat): (r: nat)
    requires ValidSegments(segs) && n <= |segs|
  {
    if n == 0 then 0 else CharCursor(segs, n - 1) + |Chars(segs[n - 1].text)|
  }

  function ByteCursor(segs: seq<Segment>, n: nat): (r: nat)
    requires n <= |segs|
  {
    if n == 0 then 0 else ByteCursor(segs, n - 1) + |segs[n - 1].text|
  }

  /** The characters before fitting: the segments', or the entry's own. */
  function SourceChars(e: Entry): (r: seq<Line>)
    requires ValidEntry(e)
  {
    if e.segments == [] then Chars(e.text) else SegmentChars(e.segments, |e.segments|)
  }

  /** How many characters a list of `n` is fitted to. */
  function FittedLength(n: nat, t: Option<nat>, p: Option<nat>): (r: nat) {
    var cut := if t.Some? then Min(t.value, n) else n;
    if p.Some? then Max(p.value, cut) else cut
  }

  /** Source characters that truncation keeps. */
  function KeptChars(n: nat, t: Option<nat>): (r: nat)
    ensures r <= n
  {
    if t.None? || n <= t.value then n else if t.value <= 3 then t.value else t.value - 3
  }

  /** Dots and spaces, one byte each. */
  ghost predicate AllFiller(cs: seq<Line>) {
    forall k :: 0 <= k < |cs| ==> cs[k] == DOT || cs[k] == SPACE
  }

  lemma FittedParts(cs: seq<Line>, t: Option<nat>, p: Option<nat>) returns (filler: seq<Line>)
    ensures AllFiller(filler) && Fitted(cs, t, p) == cs[..KeptChars(|cs|, t)] + filler
    ensures |filler| == FittedLength(|cs|, t, p) - KeptChars(|cs|, t)
  {
    var k := KeptChars(|cs|, t);
    filler := Fitted(cs, t, p)[k..];
    assert cs[..|cs|] == cs;
    assert Fitted(cs, t, p)[..k] == cs[..k];
  }

  /** Truncation would cut a text that padding has just filled up: the text fits, the pad exceeds
      the cut, and the cut is wide enough for dots that are not already there. */
  predicate Unstable(cs: seq<Line>, t: Option<nat>, p: Option<nat>) {
    && t.Some? && p.Some? && 3 < t.value < p.value && |cs| <= t.value
    && !(|cs| == t.value && cs[t.value - 3..] == DOTS)
  }

  /** Fitting twice is fitting once, exactly outside that case. */
  lemma FittedTwiceIff(cs: seq<Line>, t: Option<nat>, p: Option<nat>)
    ensures Fitted(Fitted(cs, t, p), t, p) == Fitted(cs, t, p) <==> !Unstable(cs, t, p)
  {
    if t.Some? && p.Some? && t.value < p.value {
      var once := Fitted(cs, t, p);
      if t.value <= 3 {
        assert once[..t.value] + Spaces(p.value - t.value) == once;
      } else {
        var twice := once[..t.value - 3] + DOTS + Spaces(p.value - t.value);
        assert Fitted(once, t, p) == twice;
        if |cs| > t.value {
          assert twice == once;
        } else if |cs| < t.value {
          assert once[t.value - 1] == SPACE && twice[t.value - 1] == DOT;
        } else {
          assert once[t.value - 3..t.value] == cs[t.value - 3..] && twice[t.value - 3..t.value] == DOTS;
          if cs[t.value - 3..] == DOTS { assert cs == cs[..t.value - 3] + DOTS && twice == once; }
        }
      }
    }
  }

  // ----- The overlays --------------------------------------------------------------------------------

  /** A nested overlay, moved to its segment's position in its own unit. */
  function Moved(o: Overlay, c: nat, b: nat): (r: Overlay) {
    match o.unit
    case CharUnit => o.(start := o.start + c, end := o.end + c)
    case ByteUnit => o.(start := o.start + b, end := o.end + b)
  }

  function MovedAll(os: seq<Overlay>, c: nat, b: nat): (r: seq<Overlay>)
    ensures |r| == |os|
  {
    if os == [] then [] else MovedAll(os[..|os| - 1], c, b) + [Moved(os[|os| - 1], c, b)]
  }

  /** The overlays of one segment starting at character `c`, byte `b`. */
  function SegmentOverlays(seg: Segment, c: nat, b: nat): (r: seq<Overlay>)
    requires ValidUtf8(seg.text)
  {
    StyleOverlay(seg, c) + MovedAll(seg.overlays, c, b)
  }

  /** The overlay of a segment's own style, if it has one. */
  function StyleOverlay(seg: Segment, c: nat): (r: seq<Overlay>)
    requires ValidUtf8(seg.text)
  {
    if seg.style.Some? then [Overlay(c, c + |Chars(seg.text)|, seg.style.value, map[], CharUnit)] else []
  }

  /** The overlays of the first `n` segments. */
  function AllOverlays(segs: seq<Segment>, n: nat): (r: seq<Overlay>)
    requires ValidSegments(segs) && n <= |segs|
  {
    if n == 0 then []
    else AllOverlays(segs, n - 1) + SegmentOverlays(segs[n - 1], CharCursor(segs, n - 1), ByteCursor(segs, n - 1))
  }

  /** Character offsets become byte offsets of the text spelled by `cs`, clamped to its end. */
  function Converted(o: Overlay, cs: seq<Line>): (r: Overlay) {
    if o.unit.ByteUnit? then o
    else o.(start := Start(cs, Min(o.start, |cs|)), end := Start(cs, Min(o.end, |cs|)), unit := ByteUnit)
  }

  function ConvertedAll(os: seq<Overlay>, cs: seq<Line>): (r: seq<Overlay>)
    ensures |r| == |os|
  {
    if os == [] then [] else ConvertedAll(os[..|os| - 1], cs) + [Converted(os[|os| - 1], cs)]
  }

  /** The overlays before conversion: the entry's own, then every segment's. */
  function SourceOverlays(e: Entry): (r: seq<Overlay>)
    requires ValidEntry(e)
  {
    e.overlays + AllOverlays(e.segments, |e.segments|)
  }

  /** The whole resolution of an entry. */
  function Normalized(e: Entry): (r: Entry)
    requires ValidEntry(e)
  {
    var cs := Fitted(SourceChars(e), e.truncate, e.pad);
    Entry(Concat(cs), ConvertedAll(SourceOverlays(e), cs), [], e.pad, e.truncate)
  }

  lemma {:induction false} ConvertedAt(os: seq<Overlay>, cs: seq<Line>, k: nat)
    requires k < |os|
    ensures |ConvertedAll(os, cs)| == |os| && ConvertedAll(os, cs)[k] == Converted(os[k], cs)
    decreases |os|
  {
    var n := |os| - 1;
    if n > 0 { ConvertedAt(os[..n], cs, if k < n then k else 0); }
  }

  /** Character offsets inside a stretch of the text count from where the stretch starts. */
  lemma {:induction false} StartInside(cs: seq<Line>, c: nat, ks: seq<Line>, x: nat)
    requires c + |ks| <= |cs| && cs[c..c + |ks|] == ks && x <= |ks|
    ensures Start(cs, c + x) == Start(cs, c) + Start(ks, x)
    decreases x
  {
    if x > 0 {
      StartInside(cs, c, ks, x - 1);
      assert cs[c + x - 1] == cs[c..c + |ks|][x - 1];
    }
  }

  // ----- Segments keep their styling ------------------------------------------------------------------

  /** Byte offset of `x`, counted in unit `u`, inside a segment's own text. */
  function ByteOf(u: Unit, text: seq<Byte>, x: nat): (r: nat)
    requires ValidUtf8(text) && (u.CharUnit? ==> x <= |Chars(text)|)
  {
    if u.CharUnit? then Start(Chars(text), x) else x
  }

  predicate InRange(o: Overlay, text: seq<Byte>)
    requires ValidUtf8(text)
  {
    o.unit.CharUnit? ==> o.start <= |Chars(text)| && o.end <= |Chars(text)|
  }

  /** A nested overlay where it belongs: the bytes it named in its segment, `b` bytes further on. */
  function Placed(o: Overlay, text: seq<Byte>, b: nat): (r: Overlay)
    requires ValidUtf8(text) && InRange(o, text)
  {
    o.(start := b + ByteOf(o.unit, text, o.start), end := b + ByteOf(o.unit, text, o.end), unit := ByteUnit)
  }

  /** The characters of `text` stand at character `c`, byte `b` of the text spelled by `cs`. */
  ghost predicate StandsAt(cs: seq<Line>, c: nat, b: nat, text: seq<Byte>) {
    ValidUtf8(text) && c + |Chars(text)| <= |cs| && cs[c..c + |Chars(text)|] == Chars(text) && Start(cs, c) == b
  }

  lemma OnePlaced(o: Overlay, cs: seq<Line>, c: nat, b: nat, text: seq<Byte>)
    requires StandsAt(cs, c, b, text) && InRange(o, text)
    ensures Converted(Moved(o, c, b), cs) == Placed(o, text, b)
  {
    if o.unit.CharUnit? {
      StartInside(cs, c, Chars(text), o.start);
      StartInside(cs, c, Chars(text), o.end);
    }
  }

  lemma EndOfStretch(cs: seq<Line>, c: nat, b: nat, text: seq<Byte>)
    requires StandsAt(cs, c, b, text)
    ensures Start(cs, c + |Chars(text)|) == b + |text|
  {
    StartInside(cs, c, Chars(text), |Chars(text)|);
    CharsSpell(text);
    StartsEnd(Chars(text));
  }

  lemma StylePlaced(seg: Segment, cs: seq<Line>, c: nat, b: nat)
    requires StandsAt(cs, c, b, seg.text) && seg.style.Some?
    ensures Converted(SegmentOverlays(seg, c, b)[0], cs)
         == Overlay(b, b + |seg.text|, seg.style.value, map[], ByteUnit)
  {
    EndOfStretch(cs, c, b, seg.text);
  }

  lemma NestedPlaced(seg: Segment, l: nat, i: nat, cs: seq<Line>, c: nat, b: nat)
    requires StandsAt(cs, c, b, seg.text) && l < |seg.overlays| && InRange(seg.overlays[l], seg.text)
    requires i == StyleCount(seg) + l
    ensures i < |SegmentOverlays(seg, c, b)|
    ensures Converted(SegmentOverlays(seg, c, b)[i], cs) == Placed(seg.overlays[l], seg.text, b)
  {
    MovedAt(seg.overlays, c, b, l);
    OnePlaced(seg.overlays[l], cs, c, b, seg.text);
  }

  lemma {:induction false} CursorsCount(segs: seq<Segment>, n: nat)
    requires ValidSegments(segs) && n <= |segs|
    ensures |SegmentChars(segs, n)| == CharCursor(segs, n)
    ensures |Concat(SegmentChars(segs, n))| == ByteCursor(segs, n)
    decreases n
  {
    if n > 0 {
      CursorsCount(segs, n - 1);
      ConcatAppend(SegmentChars(segs, n - 1), Chars(segs[n - 1].text));
      CharsSpell(segs[n - 1].text);
    }
  }

  lemma {:induction false} SegmentCharsGrow(segs: seq<Segment>, m: nat, n: nat)
    requires ValidSegments(segs) && m < n <= |segs|
    ensures SegmentChars(segs, m) + Chars(segs[m].text) <= SegmentChars(segs, n)
    decreases n
  {
    if m < n - 1 { SegmentCharsGrow(segs, m, n - 1); }
  }

  lemma StandsBehind(cs: seq<Line>, pre: seq<Line>, text: seq<Byte>, c: nat, b: nat)
    requires ValidUtf8(text) && pre + Chars(text) <= cs && |pre| == c && |Concat(pre)| == b
    ensures StandsAt(cs, c, b, text)
  {
    var ks := Chars(text);
    StartsEnd(pre);
    StartOfPrefix(cs, pre, c);
    assert cs[..|pre + ks|] == pre + ks;
    assert cs[c..c + |ks|] == cs[..|pre + ks|][c..];
  }

  lemma StretchFound(cs: seq<Line>, c: nat, b: nat, text: seq<Byte>)
    requires StandsAt(cs, c, b, text)
    ensures b + |text| <= |Concat(cs)| && Concat(cs)[b..b + |text|] == text
  {
    var (ks, j) := (Chars(text), c + |Chars(text)|);
    EndOfStretch(cs, c, b, text);
    CharsSpell(text);
    var pre := cs[..c];
    ConcatTake(cs, j);
    assert cs[..j] == pre + ks;
    ConcatAppend(pre, ks);
    ConcatTake(cs, c);
    StretchBehind(Concat(cs), Concat(pre), text, b);
  }

  lemma StretchBehind(s: seq<Byte>, p: seq<Byte>, text: seq<Byte>, b: nat)
    requires p + text <= s && |p| == b
    ensures b + |text| <= |s| && s[b..b + |text|] == text
  {
    SliceBehind(s, p, text);
  }

  /** Truncation leaves the whole of segment `k`. */
  predicate Whole(e: Entry, k: nat)
    requires ValidEntry(e) && k < |e.segments|
  {
    CharCursor(e.segments, k + 1) <= KeptChars(|SourceChars(e)|, e.truncate)
  }

  /** In the fitted text, each segment that is left whole stands at its cursors. */
  lemma SegmentStands(e: Entry, k: nat)
    requires ValidEntry(e) && k < |e.segments| && Whole(e, k)
    ensures var (c, b) := (CharCursor(e.segments, k), ByteCursor(e.segments, k));
            StandsAt(Fitted(SourceChars(e), e.truncate, e.pad), c, b, e.segments[k].text)
  {
    var (segs, cs) := (e.segments, SourceChars(e));
    var pre := SegmentChars(segs, k);
    SegmentCharsGrow(segs, k, |segs|);
    CursorsCount(segs, k);
    var filler := FittedParts(cs, e.truncate, e.pad);
    assert pre + Chars(segs[k].text) <= cs[..KeptChars(|cs|, e.truncate)];
    StandsBehind(Fitted(cs, e.truncate, e.pad), pre, segs[k].text, CharCursor(segs, k), ByteCursor(segs, k));
  }

  /** How many overlays the first `n` segments carry: their styles and their nested overlays. */
  function OverlayCount(segs: seq<Segment>, n: nat): (r: nat)
    requires n <= |segs|
  {
    if n == 0 then 0 else OverlayCount(segs, n - 1) + StyleCount(segs[n - 1]) + |segs[n - 1].overlays|
  }

  function StyleCount(seg: Segment): (r: nat) {
    if seg.style.Some? then 1 else 0
  }

  lemma {:induction false} OverlaysAreCounted(segs: seq<Segment>, n: nat)
    requires ValidSegments(segs) && n <= |segs|
    ensures |AllOverlays(segs, n)| == OverlayCount(segs, n)
    decreases n
  {
    if n > 0 { OverlaysAreCounted(segs, n - 1); }
  }

  lemma AllOverlaysNext(segs: seq<Segment>, k: nat, next: nat)
    requires ValidSegments(segs) && k < |segs| && next == k + 1
    ensures AllOverlays(segs, next)
         == AllOverlays(segs, k) + SegmentOverlays(segs[k], CharCursor(segs, k), ByteCursor(segs, k))
  {
  }

  lemma {:induction false} AllOverlaysGrow(segs: seq<Segment>, m: nat, n: nat)
    requires ValidSegments(segs) && m < n <= |segs|
    ensures AllOverlays(segs, m) + SegmentOverlays(segs[m], CharCursor(segs, m), ByteCursor(segs, m))
         <= AllOverlays(segs, n)
    decreases n
  {
    var last := n - 1;
    AllOverlaysNext(segs, last, n);
    if m < last { AllOverlaysGrow(segs, m, last); }
  }

  lemma {:induction false} MovedAt(os: seq<Overlay>, c: nat, b: nat, l: nat)
    requires l < |os|
    ensures MovedAll(os, c, b)[l] == Moved(os[l], c, b)
    decreases |os|
  {
    var n := |os| - 1;
    if l < n { MovedAt(os[..n], c, b, l); }
  }

  /** Where the overlays of segment `k` start among the entry's: behind its own and the earlier segments'. */
  function SegmentIndex(e: Entry, k: nat): (r: nat)
    requires k <= |e.segments|
  {
    |e.overlays| + OverlayCount(e.segments, k)
  }

  /** Where nested overlay `l` of segment `k` is: behind the segment's style. */
  function NestedIndex(e: Entry, k: nat, l: nat): (r: nat)
    requires k < |e.segments|
  {
    SegmentIndex(e, k) + StyleCount(e.segments[k]) + l
  }

  lemma SourceOverlayOfSegment(e: Entry, k: nat, os: seq<Overlay>, i: nat, j: nat)
    requires ValidEntry(e) && k < |e.segments|
    requires os == SegmentOverlays(e.segments[k], CharCursor(e.segments, k), ByteCursor(e.segments, k))
    requires i < |os| && j == SegmentIndex(e, k) + i
    ensures j < |SourceOverlays(e)| && SourceOverlays(e)[j] == os[i]
  {
    AllOverlaysGrow(e.segments, k, |e.segments|);
    OverlaysAreCounted(e.segments, k);
  }

  /** Before conversion a nested overlay, in range or not, has moved by the characters or by the bytes of
      the segments before it, whichever it counts in. */
  lemma NestedOverlayMoves(e: Entry, k: nat, l: nat)
    requires ValidEntry(e) && k < |e.segments| && l < |e.segments[k].overlays|
    ensures var (o, before) := (e.segments[k].overlays[l], SegmentChars(e.segments, k));
            var d := if o.unit.CharUnit? then |before| else |Concat(before)|;
            && NestedIndex(e, k, l) < |SourceOverlays(e)|
            && SourceOverlays(e)[NestedIndex(e, k, l)] == o.(start := o.start + d, end := o.end + d)
  {
    var (seg, i) := (e.segments[k], StyleCount(e.segments[k]) + l);
    var (c, b) := (CharCursor(e.segments, k), ByteCursor(e.segments, k));
    CursorsCount(e.segments, k);
    NestedAt(seg, l, i, c, b);
    SourceOverlayOfSegment(e, k, SegmentOverlays(seg, c, b), i, NestedIndex(e, k, l));
  }

  lemma NestedAt(seg: Segment, l: nat, i: nat, c: nat, b: nat)
    requires ValidUtf8(seg.text) && l < |seg.overlays| && i == StyleCount(seg) + l
    ensures i < |SegmentOverlays(seg, c, b)| && SegmentOverlays(seg, c, b)[i] == Moved(seg.overlays[l], c, b)
  {
    MovedAt(seg.overlays, c, b, l);
  }

  lemma ResolvedOverlay(e: Entry, j: nat, cs: seq<Line>)
    requires ValidEntry(e) && j < |SourceOverlays(e)| && cs == Fitted(SourceChars(e), e.truncate, e.pad)
    ensures j < |Normalized(e).overlays| && Normalized(e).overlays[j] == Converted(SourceOverlays(e)[j], cs)
  {
    ConvertedAt(SourceOverlays(e), cs, j);
  }

  /** An entry resolves to its own overlays and one for every style and nested overlay of a segment. */
  lemma OverlaysAreKept(e: Entry)
    requires ValidEntry(e)
    ensures |Normalized(e).overlays| == SegmentIndex(e, |e.segments|)
  {
    OverlaysAreCounted(e.segments, |e.segments|);
  }

  /** The style of a segment that is left whole covers exactly the segment's bytes. */
  lemma SegmentsKeepStyles(e: Entry, k: nat)
    requires ValidEntry(e) && k < |e.segments| && Whole(e, k) && e.segments[k].style.Some?
    ensures SegmentIndex(e, k) < |Normalized(e).overlays|
    ensures var (seg, b) := (e.segments[k], ByteCursor(e.segments, k));
            Normalized(e).overlays[SegmentIndex(e, k)]
            == Overlay(b, b + |seg.text|, seg.style.value, map[], ByteUnit)
  {
    var (cs, seg) := (Fitted(SourceChars(e), e.truncate, e.pad), e.segments[k]);
    var (c, b) := (CharCursor(e.segments, k), ByteCursor(e.segments, k));
    SegmentStands(e, k);
    StylePlaced(seg, cs, c, b);
    SourceOverlayOfSegment(e, k, SegmentOverlays(seg, c, b), 0, SegmentIndex(e, k));
    ResolvedOverlay(e, SegmentIndex(e, k), cs);
  }

  /** Each nested overlay of such a segment that lies in the segment's text covers exactly the bytes it
      named there. */
  lemma SegmentsKeepOverlays(e: Entry, k: nat, l: nat)
    requires ValidEntry(e) && k < |e.segments| && Whole(e, k)
    requires l < |e.segments[k].overlays| && InRange(e.segments[k].overlays[l], e.segments[k].text)
    ensures var (seg, j) := (e.segments[k], NestedIndex(e, k, l));
            && j < |Normalized(e).overlays|
            && Normalized(e).overlays[j] == Placed(seg.overlays[l], seg.text, ByteCursor(e.segments, k))
  {
    var (cs, seg) := (Fitted(SourceChars(e), e.truncate, e.pad), e.segments[k]);
    var (c, b) := (CharCursor(e.segments, k), ByteCursor(e.segments, k));
    var (i, j) := (StyleCount(seg) + l, NestedIndex(e, k, l));
    SegmentStands(e, k);
    NestedPlaced(seg, l, i, cs, c, b);
    SourceOverlayOfSegment(e, k, SegmentOverlays(seg, c, b), i, j);
    ResolvedOverlay(e, j, cs);
  }

  /** ... and the text of the segment is found at its place. */
  lemma SegmentsKeepText(e: Entry, k: nat)
    requires ValidEntry(e) && k < |e.segments| && Whole(e, k)
    ensures var (text, at) := (Normalized(e).text, ByteCursor(e.segments, k));
            at + |e.segments[k].text| <= |text| && text[at..at + |e.segments[k].text|] == e.segments[k].text
  {
    var cs := Fitted(SourceChars(e), e.truncate, e.pad);
    SegmentStands(e, k);
    StretchFound(cs, CharCursor(e.segments, k), ByteCursor(e.segments, k), e.segments[k].text);
  }

  /** Every segment is left whole when nothing is cut off. */
  lemma WholeWhenNothingCut(e: Entry, k: nat)
    requires ValidEntry(e) && k < |e.segments|
    requires e.truncate.Some? ==> |SourceChars(e)| <= e.truncate.value
    ensures Whole(e, k)
  {
    CursorsCount(e.segments, k + 1);
    SegmentCharsGrow(e.segments, k, |e.segments|);
  }

  // ----- The resolved entry -----------------------------------------------------------------------------

  ghost predicate AllWellFormed(cs: seq<Line>) {
    forall k :: 0 <= k < |cs| ==> WellFormed(cs[k])
  }

  lemma CharsAllWellFormed(s: seq<Byte>)
    requires ValidUtf8(s)
    ensures AllWellFormed(Chars(s))
  {
    forall k | 0 <= k < |Chars(s)| ensures WellFormed(Chars(s)[k]) { CharsWellFormed(s, k); }
  }

  lemma {:induction false} SegmentCharsWellFormed(segs: seq<Segment>, n: nat)
    requires ValidSegments(segs) && n <= |segs|
    ensures AllWellFormed(SegmentChars(segs, n))
    decreases n
  {
    if n > 0 {
      SegmentCharsWellFormed(segs, n - 1);
      CharsAllWellFormed(segs[n - 1].text);
    }
  }

  lemma FittedWellFormed(cs: seq<Line>, t: Option<nat>, p: Option<nat>)
    requires AllWellFormed(cs)
    ensures AllWellFormed(Fitted(cs, t, p))
  {
    assert WellFormed(SPACE) && WellFormed(DOT);
    assert AllWellFormed(Truncated(cs, t));
  }

  /** The resolved text is valid and its characters are the fitted ones. */
  lemma NormalizedChars(e: Entry)
    requires ValidEntry(e)
    ensures ValidEntry(Normalized(e)) && Chars(Normalized(e).text) == Fitted(SourceChars(e), e.truncate, e.pad)
  {
    if e.segments == [] { CharsAllWellFormed(e.text); } else { SegmentCharsWellFormed(e.segments, |e.segments|); }
    FittedWellFormed(SourceChars(e), e.truncate, e.pad);
    CharsOfConcat(Fitted(SourceChars(e), e.truncate, e.pad));
  }

  /** The resolved text has exactly max(pad, min(truncate, n)) characters, absent hints ignored. */
  lemma NormalizedLength(e: Entry)
    requires ValidEntry(e)
    ensures ValidUtf8(Normalized(e).text)
    ensures |Chars(Normalized(e).text)| == FittedLength(|SourceChars(e)|, e.truncate, e.pad)
  {
    NormalizedChars(e);
  }

  /** Whatever was cut off, each character overlay of the resolved entry is ordered, inside the text
      and on character boundaries: it covers the characters it named, as far as the text goes. */
  lemma CharOverlayLands(e: Entry, k: nat)
    requires ValidEntry(e) && k < |SourceOverlays(e)|
    requires SourceOverlays(e)[k].unit.CharUnit?
    ensures var (o, text, os) := (SourceOverlays(e)[k], Normalized(e).text, Normalized(e).overlays);
            && ValidUtf8(text) && k < |os| && os[k].unit.ByteUnit?
            && (o.start <= o.end ==> os[k].start <= os[k].end) && os[k].start <= |text| && os[k].end <= |text|
            && IsBoundary(text, os[k].start) && IsBoundary(text, os[k].end)
            && os[k].start == Start(Chars(text), Min(o.start, |Chars(text)|))
            && os[k].end == Start(Chars(text), Min(o.end, |Chars(text)|))
            && os[k].style == o.style && os[k].properties == o.properties
  {
    NormalizedChars(e);
    ConvertedAt(SourceOverlays(e), Chars(Normalized(e).text), k);
    ConvertedLands(SourceOverlays(e)[k], Normalized(e).text);
  }

  /** The entry's own overlays come first, in their order. */
  lemma OwnOverlaysLead(e: Entry, k: nat)
    requires ValidEntry(e) && k < |e.overlays|
    ensures k < |SourceOverlays(e)| && SourceOverlays(e)[k] == e.overlays[k]
    ensures k < |Normalized(e).overlays|
    ensures e.overlays[k].unit.ByteUnit? ==> Normalized(e).overlays[k] == e.overlays[k]
  {
    ConvertedAt(SourceOverlays(e), Fitted(SourceChars(e), e.truncate, e.pad), k);
  }

  /** The resolved text, character by character: the source's characters, then - where it was cut to more
      than three - three dots, and spaces up to the pad. */
  lemma NormalizedAt(e: Entry, k: nat)
    requires ValidEntry(e) && ValidUtf8(Normalized(e).text) && k < |Chars(Normalized(e).text)|
    ensures var (cs, t) := (SourceChars(e), e.truncate);
            var cut := t.Some? && t.value < |cs|;
            Chars(Normalized(e).text)[k]
            == if k < |cs| && (cut ==> k < t.value && (t.value > 3 ==> k < t.value - 3)) then cs[k]
               else if cut && k < t.value then [46]
               else [32]
  {
    NormalizedChars(e);
  }

  lemma ConvertedLands(o: Overlay, text: seq<Byte>)
    requires ValidUtf8(text) && o.unit.CharUnit?
    ensures var r := Converted(o, Chars(text));
            && r.unit.ByteUnit? && (o.start <= o.end ==> r.start <= r.end) && r.start <= |text| && r.end <= |text|
            && IsBoundary(text, r.start) && IsBoundary(text, r.end)
  {
    var cs := Chars(text);
    var (s, e) := (Min(o.start, |cs|), Min(o.end, |cs|));
    if o.start <= o.end { StartsRise(cs, s, e); }
    CharStart(text, s);
    CharStart(text, e);
  }

  // ----- Byte overlays ------------------------------------------------------------------------------------

  /** Their bytes. */
  function KeptBytes(e: Entry): (r: nat)
    requires ValidEntry(e)
  {
    Start(SourceChars(e), KeptChars(|SourceChars(e)|, e.truncate))
  }

  lemma {:induction false} FillerBytes(cs: seq<Line>)
    requires AllFiller(cs)
    ensures |Concat(cs)| == |cs| && forall x :: 0 <= x < |cs| ==> !IsContinuation(Concat(cs)[x])
    decreases |cs|
  {
    if cs != [] { FillerBytes(cs[1..]); }
  }

  /** Kept source bytes followed by filler: offsets below the cut are boundaries as they were, the
      others always are. */
  lemma BoundaryIff(source: seq<Byte>, kept: nat, filler: seq<Byte>, x: nat)
    requires kept <= |source| && forall y :: 0 <= y < |filler| ==> !IsContinuation(filler[y])
    ensures IsBoundary(source[..kept] + filler, x)
            <==> x <= kept + |filler| && (x < kept ==> IsBoundary(source, x))
  {
  }

  /** The length of the resolved text, and its character boundaries, from the entry as it was. */
  lemma ByteOffsetLandsIff(e: Entry, x: nat)
    requires ValidEntry(e)
    ensures var (n, k) := (FittedLength(|SourceChars(e)|, e.truncate, e.pad), KeptChars(|SourceChars(e)|, e.truncate));
            && |Normalized(e).text| == KeptBytes(e) + n - k
            && (IsBoundary(Normalized(e).text, x)
                <==> x <= KeptBytes(e) + n - k && (x < KeptBytes(e) ==> IsBoundary(Concat(SourceChars(e)), x)))
  {
    var cs := SourceChars(e);
    var k := KeptChars(|cs|, e.truncate);
    var filler := FittedParts(cs, e.truncate, e.pad);
    FillerBytes(filler);
    ConcatAppend(cs[..k], filler);
    ConcatTake(cs, k);
    BoundaryIff(Concat(cs), KeptBytes(e), Concat(filler), x);
  }

  /** Byte overlays are not adjusted to the cut: each keeps its offsets, so that it lies in the text and
      on character boundaries exactly when its end and its start pass `ByteOffsetLandsIff`. */
  lemma ByteOverlayLandsIff(e: Entry, k: nat)
    requires ValidEntry(e) && k < |SourceOverlays(e)|
    requires SourceOverlays(e)[k].unit.ByteUnit?
    ensures k < |Normalized(e).overlays| && Normalized(e).overlays[k] == SourceOverlays(e)[k]
    ensures var (o, text, source) := (SourceOverlays(e)[k], Normalized(e).text, Concat(SourceChars(e)));
            var filler := FittedLength(|SourceChars(e)|, e.truncate, e.pad) - KeptChars(|SourceChars(e)|, e.truncate);
            IsBoundary(text, o.start) && IsBoundary(text, o.end)
            <==> && o.start <= KeptBytes(e) + filler && o.end <= KeptBytes(e) + filler
                 && (o.start < KeptBytes(e) ==> IsBoundary(source, o.start))
                 && (o.end < KeptBytes(e) ==> IsBoundary(source, o.end))
  {
    ConvertedAt(SourceOverlays(e), Fitted(SourceChars(e), e.truncate, e.pad), k);
    ByteOffsetLandsIff(e, SourceOverlays(e)[k].start);
    ByteOffsetLandsIff(e, SourceOverlays(e)[k].end);
  }

  /** A Byte overlay over two letters reaches past a text that is cut to one. */
  lemma ByteOverlayLeftBehind(o: Overlay)
    requires o.unit.ByteUnit? && o.start == 0 && o.end == 2
    ensures var e := Entry([97, 97], [o], [], None, Some(1));
            ValidEntry(e) && Normalized(e).overlays == [o] && |Normalized(e).text| == 1
  {
    var e := Entry([97, 97], [o], [], None, Some(1));
    assert [97, 97][..1] == [97] && [97, 97][1..] == [97] && [97][..1] == [97] && [97][1..] == [];
    assert Chars([97]) == [[97]] && Chars([97, 97]) == [[97], [97]];
    assert SourceOverlays(e) == [o];
    StartNext(SourceChars(e), 0);
    ByteOffsetLandsIff(e, 0);
    ConvertedAt([o], Fitted(SourceChars(e), e.truncate, e.pad), 0);
  }

  lemma {:induction false} ConvertedAreBytes(os: seq<Overlay>, cs: seq<Line>, ds: seq<Line>)
    ensures ConvertedAll(ConvertedAll(os, cs), ds) == ConvertedAll(os, cs)
    decreases |os|
  {
    if os != [] {
      ConvertedAreBytes(os[..|os| - 1], cs, ds);
      var r := ConvertedAll(os, cs);
      assert r[..|r| - 1] == ConvertedAll(os[..|os| - 1], cs);
    }
  }

  /** Resolving twice is resolving once, exactly where fitting the text twice is fitting it once. */
  lemma NormalizedTwiceIff(e: Entry)
    requires ValidEntry(e)
    ensures ValidEntry(Normalized(e))
    ensures Normalized(Normalized(e)) == Normalized(e) <==> !Unstable(SourceChars(e), e.truncate, e.pad)
  {
    var (r, once) := (Normalized(e), Fitted(SourceChars(e), e.truncate, e.pad));
    var twice := Fitted(once, e.truncate, e.pad);
    NormalizedChars(e);
    NormalizedChars(r);
    FittedTwiceIff(SourceChars(e), e.truncate, e.pad);
    ConvertedAreBytes(SourceOverlays(e), once, twice);
    assert r.overlays + AllOverlays([], 0) == r.overlays;
    assert Normalized(r) == Entry(Concat(twice), r.overlays, [], e.pad, e.truncate);
  }

  /** In particular when a hint is absent or the pad does not exceed the cut. */
  lemma NormalizedOnceIsEnough(e: Entry)
    requires ValidEntry(e) && (e.truncate.None? || e.pad.None? || e.pad.value <= e.truncate.value)
    ensures ValidEntry(Normalized(e)) && Normalized(Normalized(e)) == Normalized(e)
  {
    NormalizedTwiceIff(e);
  }

  /** But not always: one letter, cut to four characters and padded to five. */
  lemma NormalizedOnceIsNotEnough()
    ensures var e := Entry([97], [], [], Some(5), Some(4));
            ValidEntry(e) && ValidEntry(Normalized(e)) && Normalized(Normalized(e)) != Normalized(e)
  {
    var e := Entry([97], [], [], Some(5), Some(4));
    assert [97][..1] == [97] && [97][1..] == [];
    assert Chars([97]) == [[97]];
    NormalizedTwiceIff(e);
  }

  /** The parts of a resolved entry. */
  lemma NormalizedIs(e: Entry, text: seq<Byte>, os: seq<Overlay>)
    requires ValidEntry(e) && ValidUtf8(text) && Concat(Chars(text)) == text
    requires Chars(text) == Fitted(SourceChars(e), e.truncate, e.pad)
    requires os == ConvertedAll(SourceOverlays(e), Chars(text))
    ensures Normalized(e) == Entry(text, os, [], e.pad, e.truncate)
  {
  }

  // ----- The program ------------------------------------------------------------------------------------

  class TextPropertyEntry {
    var text: seq<Byte>
    var inlineOverlays: seq<Overlay>
    var segments: seq<Segment>
    var padToChars: Option<nat>
    var truncateToChars: Option<nat>

    constructor (e: Entry)
      ensures Contents() == e
    {
      text, inlineOverlays, segments := e.text, e.overlays, e.segments;
      padToChars, truncateToChars := e.pad, e.truncate;
    }

    ghost function Contents(): (e: Entry)
      reads this
    {
      Entry(text, inlineOverlays, segments, padToChars, truncateToChars)
    }

    /** Resolve segments, truncate, pad, and convert character offsets. */
    method NormalizeWidths()
      requires ValidEntry(Contents())
      modifies this
      ensures Contents() == Normalized(old(Contents()))
    {
      ghost var e := Contents();
      ResolveText();
      CharsSpell(text);
      ConvertOverlays();
      NormalizedIs(e, text, inlineOverlays);
    }

    /** The text in full: segments joined, cut and padded. */
    method ResolveText()
      requires ValidEntry(Contents())
      modifies `text, `inlineOverlays, `segments
      ensures ValidUtf8(text) && Chars(text) == Fitted(SourceChars(old(Contents())), truncateToChars, padToChars)
      ensures inlineOverlays == SourceOverlays(old(Contents())) && segments == []
    {
      ghost var e := Contents();
      TakeSource();
      SourceIsText(e, text);
      Truncate();
      Pad();
    }

    /** The segments, where there are any, replace the text. */
    method TakeSource()
      requires ValidEntry(Contents())
      modifies `text, `inlineOverlays, `segments
      ensures text == Concat(SourceChars(old(Contents()))) && segments == []
      ensures inlineOverlays == SourceOverlays(old(Contents()))
    {
      if segments != [] {
        ResolveSegments();
      } else {
        CharsSpell(text);
        assert inlineOverlays + AllOverlays([], 0) == inlineOverlays;
      }
    }

    /** Replace the text by the segments' and collect their overlays. */
    method ResolveSegments()
      requires ValidEntry(Contents())
      modifies `text, `inlineOverlays, `segments
      ensures text == Concat(SegmentChars(old(segments), |old(segments)|)) && segments == []
      ensures inlineOverlays == old(inlineOverlays) + AllOverlays(old(segments), |old(segments)|)
    {
      var segs := segments;
      segments := [];
      var joined, overlays := JoinSegments(segs);
      text := joined;
      inlineOverlays := inlineOverlays + overlays;
    }

    /** Walk the segments with a character and a byte cursor. */
    static method JoinSegments(segs: seq<Segment>) returns (joined: seq<Byte>, overlays: seq<Overlay>)
      requires ValidSegments(segs)
      ensures joined == Concat(SegmentChars(segs, |segs|)) && overlays == AllOverlays(segs, |segs|)
    {
      joined, overlays := [], [];
      var charCursor, byteCursor := 0, 0;
      for k := 0 to |segs|
        invariant charCursor == CharCursor(segs, k) && byteCursor == ByteCursor(segs, k)
        invariant joined == Concat(SegmentChars(segs, k)) && overlays == AllOverlays(segs, k)
      {
        SegmentsNext(segs, k);
        var own := OverlaysOf(segs[k], charCursor, byteCursor);
        overlays := overlays + own;
        joined := joined + segs[k].text;
        charCursor, byteCursor := charCursor + |Chars(segs[k].text)|, byteCursor + |segs[k].text|;
      }
    }

    /** The overlays a segment contributes: its style, then its nested overlays. */
    static method OverlaysOf(seg: Segment, c: nat, b: nat) returns (r: seq<Overlay>)
      requires ValidUtf8(seg.text)
      ensures r == SegmentOverlays(seg, c, b)
    {
      r := [];
      if seg.style.Some? {
        r := r + [Overlay(c, c + |Chars(seg.text)|, seg.style.value, map[], CharUnit)];
      }
      var nested := MoveOverlays(seg.overlays, c, b);
      r := r + nested;
    }

    static method MoveOverlays(os: seq<Overlay>, c: nat, b: nat) returns (r: seq<Overlay>)
      ensures r == MovedAll(os, c, b)
    {
      r := [];
      for k := 0 to |os|
        invariant r == MovedAll(os[..k], c, b)
      {
        var o := os[k];
        match o.unit {
          case CharUnit => o := o.(start := o.start + c, end := o.end + c);
          case ByteUnit => o := o.(start := o.start + b, end := o.end + b);
        }
        assert os[..k + 1][..k] == os[..k];
        r := r + [o];
      }
      assert os[..|os|] == os;
    }

    /** Cut the text on a character boundary. */
    method Truncate()
      requires ValidUtf8(text)
      modifies `text
      ensures ValidUtf8(text) && Chars(text) == Truncated(Chars(old(text)), truncateToChars)
    {
      if truncateToChars.Some? {
        var max, cs := truncateToChars.value, Chars(text);
        if |cs| > max {
          ghost var was := text;
          CharsAllWellFormed(text);
          CharsSpell(text);
          if max <= 3 {
            CutChars(text, max);
            text := text[..Start(cs, max)];
          } else {
            CutChars(text, max - 3);
            CutWithDots(text, max - 3);
            text := text[..Start(cs, max - 3)] + Concat(DOTS);
          }
        }
      }
    }

    /** Fill the text up with spaces. */
    method Pad()
      requires ValidUtf8(text)
      modifies `text
      ensures ValidUtf8(text) && Chars(text) == Padded(Chars(old(text)), padToChars)
    {
      if padToChars.Some? {
        var cur, target := |Chars(text)|, padToChars.value;
        if target > cur {
          ghost var cs := Chars(text);
          assert cs + Spaces(0) == cs;
          for k := 0 to target - cur
            invariant ValidUtf8(text) && Chars(text) == cs + Spaces(k)
          {
            PushSpace(text);
            assert cs + Spaces(k) + [SPACE] == cs + Spaces(k + 1);
            text := text + SPACE;
          }
        }
      }
    }

    /** Turn character offsets into byte offsets of the text. */
    method ConvertOverlays()
      requires ValidUtf8(text)
      modifies `inlineOverlays
      ensures inlineOverlays == ConvertedAll(old(inlineOverlays), Chars(text))
    {
      var cs := Chars(text);
      var charToByte := ByteTable(text);
      var os := inlineOverlays;
      var done: seq<Overlay> := [];
      for k := 0 to |os|
        invariant done == ConvertedAll(os[..k], cs)
      {
        var o := os[k];
        if o.unit.CharUnit? {
          var s, e := Min(o.start, |charToByte| - 1), Min(o.end, |charToByte| - 1);
          o := o.(start := charToByte[s], end := charToByte[e], unit := ByteUnit);
        }
        assert os[..k + 1][..k] == os[..k];
        done := done + [o];
      }
      assert os[..|os|] == os;
      inlineOverlays := done;
    }

    /** The byte offset of every character, with the text's length at the end. */
    static method ByteTable(text: seq<Byte>) returns (table: seq<nat>)
      requires ValidUtf8(text)
      ensures |table| == |Chars(text)| + 1 && forall k :: 0 <= k < |table| ==> table[k] == Start(Chars(text), k)
    {
      var cs := Chars(text);
      table := [];
      var at := 0;
      for k := 0 to |cs|
        invariant |table| == k && at == Start(cs, k)
        invariant forall l :: 0 <= l < k ==> table[l] == Start(cs, l)
      {
        table := table + [at];
        at := at + |cs[k]|;
      }
      CharsSpell(text);
      StartsEnd(cs);
      table := table + [|text|];
    }
  }

  lemma SegmentsNext(segs: seq<Segment>, k: nat)
    requires ValidSegments(segs) && k < |segs|
    ensures CharCursor(segs, k + 1) == CharCursor(segs, k) + |Chars(segs[k].text)|
    ensures ByteCursor(segs, k + 1) == ByteCursor(segs, k) + |segs[k].text|
    ensures Concat(SegmentChars(segs, k + 1)) == Concat(SegmentChars(segs, k)) + segs[k].text
    ensures AllOverlays(segs, k + 1)
         == AllOverlays(segs, k) + SegmentOverlays(segs[k], CharCursor(segs, k), ByteCursor(segs, k))
  {
    ConcatAppend(SegmentChars(segs, k), Chars(segs[k].text));
    CharsSpell(segs[k].text);
  }

  /** The first `k` characters of a valid text are a valid text. */
  lemma CutChars(text: seq<Byte>, k: nat)
    requires ValidUtf8(text) && k <= |Chars(text)|
    ensures Start(Chars(text), k) <= |text|
    ensures var r := text[..Start(Chars(text), k)]; ValidUtf8(r) && Chars(r) == Chars(text)[..k]
  {
    CharsSpell(text);
    CharsAllWellFormed(text);
    ConcatTake(Chars(text), k);
    CharsOfConcat(Chars(text)[..k]);
  }

  lemma CutWithDots(text: seq<Byte>, k: nat)
    requires ValidUtf8(text) && k <= |Chars(text)|
    ensures Start(Chars(text), k) <= |text|
    ensures var r := text[..Start(Chars(text), k)] + Concat(DOTS);
            ValidUtf8(r) && Chars(r) == Chars(text)[..k] + DOTS
  {
    var cs := Chars(text);
    CharsSpell(text);
    CharsAllWellFormed(text);
    ConcatTake(cs, k);
    assert WellFormed(DOT);
    CharsOfConcat(cs[..k] + DOTS);
    ConcatAppend(cs[..k], DOTS);
  }

  lemma PushSpace(text: seq<Byte>)
    requires ValidUtf8(text)
    ensures ValidUtf8(text + SPACE) && Chars(text + SPACE) == Chars(text) + [SPACE]
  {
    CharsSpell(text);
    CharsAllWellFormed(text);
    assert WellFormed(SPACE);
    CharsOfConcat(Chars(text) + [SPACE]);
    ConcatAppend(Chars(text), [SPACE]);
    assert Concat([SPACE]) == SPACE;
  }

  /** The text before fitting spells the source characters. */
  lemma SourceIsText(e: Entry, text: seq<Byte>)
    requires ValidEntry(e) && text == Concat(SourceChars(e))
    ensures ValidUtf8(text) && Chars(text) == SourceChars(e)
  {
    if e.segments == [] { CharsAllWellFormed(e.text); } else { SegmentCharsWellFormed(e.segments, |e.segments|); }
    CharsOfConcat(SourceChars(e));
  }
}
