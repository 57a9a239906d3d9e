/**
  Carrying a byte offset through a rewrite of the text.
 */
module OffsetMap {
  import opened EditScript
  import opened Interner
  import opened Lines
  import opened Utf8
  import opened Utils

  // ----- Inside one replacement -----------------------------------------------------------

  /** Bytes of the common leading characters. */
  function LeadingBytes(oc: seq<Line>, nc: seq<Line>): (r: nat) {
    Start(oc, CommonPrefix(oc, nc))
  }

  /** Bytes of the common trailing characters behind them. */
  function TrailingBytes(oc: seq<Line>, nc: seq<Line>): (r: nat) {
    var n := CommonSuffix(oc, nc, CommonPrefix(oc, nc), |oc|, |nc|);
    StartsRise(oc, |oc| - n, |oc|);
    Start(oc, |oc|) - Start(oc, |oc| - n)
  }

  function PrefixBytes(before: seq<Byte>, after: seq<Byte>): (r: nat)
    requires ValidUtf8(before) && ValidUtf8(after)
  {
    LeadingBytes(Chars(before), Chars(after))
  }

  function SuffixBytes(before: seq<Byte>, after: seq<Byte>): (r: nat)
    requires ValidUtf8(before) && ValidUtf8(after)
  {
    TrailingBytes(Chars(before), Chars(after))
  }

  lemma PrefixOfChunks(a: seq<Line>, b: seq<Line>, p: nat)
    requires SameRun(a, b, 0, 0, p)
    ensures Start(a, p) == Start(b, p) && Start(a, p) <= |Concat(a)| && Start(b, p) <= |Concat(b)|
    ensures SameRun(Concat(a), Concat(b), 0, 0, Start(a, p))
  {
    RunOfBytes(a, b, 0, 0, p, p);
  }

  lemma SuffixOfChunks(a: seq<Line>, b: seq<Line>, p: nat, i: nat, j: nat)
    requires p <= i && p <= j && 0 <= |a| - i == |b| - j && SameRun(a, b, i, j, |a| - i)
    ensures Start(a, p) <= Start(a, i) <= Start(a, |a|) == |Concat(a)|
    ensures Start(b, p) <= Start(b, j) <= Start(b, |b|) == |Concat(b)|
    ensures Start(a, |a|) - Start(a, i) == Start(b, |b|) - Start(b, j)
    ensures SameRun(Concat(a), Concat(b), Start(a, i), Start(b, j), Start(a, |a|) - Start(a, i))
  {
    StartsEnd(a); StartsRise(a, p, i);
    StartsEnd(b); StartsRise(b, p, j);
    RunOfBytes(a, b, i, j, |a|, |b|);
  }

  lemma TrailingChars(oc: seq<Line>, nc: seq<Line>, p: nat, n: nat)
    requires p + n <= |oc| && p + n <= |nc| && SameRun(oc, nc, |oc| - n, |nc| - n, n)
    ensures var q := Start(oc, |oc|) - Start(oc, |oc| - n);
            && 0 <= q && Start(oc, p) + q <= |Concat(oc)| && Start(nc, p) + q <= |Concat(nc)|
            && SameRun(Concat(oc), Concat(nc), |Concat(oc)| - q, |Concat(nc)| - q, q)
  {
    SuffixOfChunks(oc, nc, p, |oc| - n, |nc| - n);
  }

  lemma EndsOfChars(oc: seq<Line>, nc: seq<Line>)
    ensures var (p, q) := (LeadingBytes(oc, nc), TrailingBytes(oc, nc));
            && p == Start(nc, CommonPrefix(oc, nc))
            && p + q <= |Concat(oc)| && p + q <= |Concat(nc)|
            && SameRun(Concat(oc), Concat(nc), 0, 0, p)
            && SameRun(Concat(oc), Concat(nc), |Concat(oc)| - q, |Concat(nc)| - q, q)
  {
    LeadOfChars(oc, nc);
    TailOfChars(oc, nc);
  }

  lemma LeadOfChars(oc: seq<Line>, nc: seq<Line>)
    ensures LeadingBytes(oc, nc) == Start(nc, CommonPrefix(oc, nc))
    ensures SameRun(Concat(oc), Concat(nc), 0, 0, LeadingBytes(oc, nc))
  {
    PrefixRun(oc, nc, 0, 0);
    PrefixOfChunks(oc, nc, CommonPrefix(oc, nc));
  }

  lemma TailOfChars(oc: seq<Line>, nc: seq<Line>)
    ensures var (k, q) := (CommonPrefix(oc, nc), TrailingBytes(oc, nc));
            && Start(oc, k) + q <= |Concat(oc)| && Start(nc, k) + q <= |Concat(nc)|
            && SameRun(Concat(oc), Concat(nc), |Concat(oc)| - q, |Concat(nc)| - q, q)
  {
    var p := CommonPrefix(oc, nc);
    SuffixRun(oc, nc, p, |oc|, |nc|, 0);
    TrailingChars(oc, nc, p, CommonSuffix(oc, nc, p, |oc|, |nc|));
  }

  /** The two stretches are equal byte for byte and do not overlap on either side. */
  lemma EndsOfReplacement(before: seq<Byte>, after: seq<Byte>)
    requires ValidUtf8(before) && ValidUtf8(after)
    ensures var (p, q) := (PrefixBytes(before, after), SuffixBytes(before, after));
            && p + q <= |before| && p + q <= |after|
            && SameRun(before, after, 0, 0, p)
            && SameRun(before, after, |before| - q, |after| - q, q)
            && IsBoundary(after, p)
  {
    var (oc, nc) := (Chars(before), Chars(after));
    CharsSpell(before);
    CharsSpell(after);
    EndsSpelled(oc, nc, before, after);
    CharStart(after, CommonPrefix(oc, nc));
  }

  lemma EndsSpelled(oc: seq<Line>, nc: seq<Line>, before: seq<Byte>, after: seq<Byte>)
    requires Concat(oc) == before && Concat(nc) == after
    ensures var (p, q) := (LeadingBytes(oc, nc), TrailingBytes(oc, nc));
            && p == Start(nc, CommonPrefix(oc, nc))
            && p + q <= |before| && p + q <= |after|
            && SameRun(before, after, 0, 0, p)
            && SameRun(before, after, |before| - q, |after| - q, q)
  {
    EndsOfChars(oc, nc);
  }

  /** Where offset `rel` of a replaced text goes in its replacement. */
  function Within(before: seq<Byte>, after: seq<Byte>, rel: nat): (r: int)
    requires ValidUtf8(before) && ValidUtf8(after)
  {
    var (p, q) := (PrefixBytes(before, after), SuffixBytes(before, after));
    if rel <= p then rel
    else if |before| - rel <= q then |after| - (|before| - rel)
    else p
  }

  /** The offset stays inside the replacement and keeps its order. */
  lemma WithinKeepsOrder(before: seq<Byte>, after: seq<Byte>, x: nat, y: nat)
    requires ValidUtf8(before) && ValidUtf8(after) && x <= y < |before|
    ensures 0 <= Within(before, after, x) <= Within(before, after, y) <= |after|
  {
    EndsOfReplacement(before, after);
  }

  /** In the common ends the offset stays on the byte it pointed at. */
  lemma WithinKeepsByte(before: seq<Byte>, after: seq<Byte>, x: nat)
    requires ValidUtf8(before) && ValidUtf8(after) && x < |before|
    requires var (p, q) := (PrefixBytes(before, after), SuffixBytes(before, after));
             x < p || (p < x && |before| - x <= q)
    ensures var r := Within(before, after, x); 0 <= r < |after| && after[r] == before[x]
  {
    EndsOfReplacement(before, after);
  }

  /** Character `c` starts at offset `x`. */
  ghost predicate CharAt(cs: seq<Line>, x: int, c: Line) {
    exists k :: 0 <= k < |cs| && Start(cs, k) == x && cs[k] == c
  }

  lemma CharIsAt(cs: seq<Line>, k: nat, x: int)
    requires k < |cs| && Start(cs, k) == x
    ensures CharAt(cs, x, cs[k])
  {
  }

  /** No two characters start at one offset. */
  lemma CharAtIsOne(cs: seq<Line>, x: int, c: Line, k: nat)
    requires NonEmpty(cs) && CharAt(cs, x, c) && k <= |cs| && Start(cs, k) == x
    ensures k < |cs| && cs[k] == c
  {
    var l: nat :| l < |cs| && Start(cs, l) == x && cs[l] == c;
    StartsDiffer(cs, k, l);
  }

  lemma StartsDiffer(cs: seq<Line>, k: nat, l: nat)
    requires NonEmpty(cs) && k <= |cs| && l <= |cs| && Start(cs, k) == Start(cs, l)
    ensures k == l
  {
    if l < k { StartsClimb(cs, l, k); }
    if k < l { StartsClimb(cs, k, l); }
  }

  lemma CharsNonEmpty(s: seq<Byte>)
    requires ValidUtf8(s)
    ensures NonEmpty(Chars(s))
  {
    forall k | 0 <= k < |Chars(s)| ensures Chars(s)[k] != [] { CharsWellFormed(s, k); }
  }

  lemma LeadingCharKept(oc: seq<Line>, nc: seq<Line>, i: nat)
    requires i < CommonPrefix(oc, nc)
    ensures i < |oc| && CharAt(nc, Start(oc, i), oc[i])
  {
    PrefixRun(oc, nc, 0, 0);
    PrefixOfChunks(oc, nc, i);
    CharIsAt(nc, i, Start(oc, i));
  }

  lemma TrailingCharKept(oc: seq<Line>, nc: seq<Line>, i: nat)
    requires |oc| - CommonSuffix(oc, nc, CommonPrefix(oc, nc), |oc|, |nc|) <= i < |oc|
    ensures CharAt(nc, |Concat(nc)| - (|Concat(oc)| - Start(oc, i)), oc[i])
  {
    var (p, j) := (CommonPrefix(oc, nc), |nc| - (|oc| - i));
    SuffixRun(oc, nc, p, |oc|, |nc|, 0);
    SuffixOfChunks(oc, nc, p, i, j);
    CharIsAt(nc, j, |Concat(nc)| - (|Concat(oc)| - Start(oc, i)));
  }

  /** The characters behind the common prefix differ, or one side has none. */
  lemma CharBehindPrefixDiffers(oc: seq<Line>, nc: seq<Line>)
    requires NonEmpty(nc) && CommonPrefix(oc, nc) < |oc|
    ensures !CharAt(nc, LeadingBytes(oc, nc), oc[CommonPrefix(oc, nc)])
  {
    var k := CommonPrefix(oc, nc);
    LeadOfChars(oc, nc);
    if CharAt(nc, LeadingBytes(oc, nc), oc[k]) {
      CharAtIsOne(nc, LeadingBytes(oc, nc), oc[k], k);
      PrefixRun(oc, nc, 0, 0);
      PrefixRun(oc, nc, 0, k + 1);
    }
  }

  /** An offset in the common ends stays at the character it pointed at, except at the end of the
      prefix: that offset is kept as it is, also where the suffix starts there. */
  lemma WithinKeepsCharIff(before: seq<Byte>, after: seq<Byte>, i: nat, x: nat)
    requires ValidUtf8(before) && ValidUtf8(after) && i < |Chars(before)| && x == Start(Chars(before), i)
    requires x <= PrefixBytes(before, after) || |before| - x <= SuffixBytes(before, after)
    ensures CharAt(Chars(after), Within(before, after, x), Chars(before)[i]) <==> x != PrefixBytes(before, after)
  {
    var (oc, nc) := (Chars(before), Chars(after));
    CharsSpell(before);
    CharsSpell(after);
    CharsNonEmpty(before);
    CharsNonEmpty(after);
    var k := CommonPrefix(oc, nc);
    PrefixRun(oc, nc, 0, 0);
    if i < k {
      StartsClimb(oc, i, k);
      LeadingCharKept(oc, nc, i);
    } else if i == k {
      CharBehindPrefixDiffers(oc, nc);
    } else {
      StartsClimb(oc, k, i);
      InSuffix(oc, nc, i);
      TrailingCharKept(oc, nc, i);
    }
  }

  lemma InSuffix(oc: seq<Line>, nc: seq<Line>, i: nat)
    requires NonEmpty(oc) && i < |oc| && |Concat(oc)| - Start(oc, i) <= TrailingBytes(oc, nc)
    ensures |oc| - CommonSuffix(oc, nc, CommonPrefix(oc, nc), |oc|, |nc|) <= i
  {
    var n := CommonSuffix(oc, nc, CommonPrefix(oc, nc), |oc|, |nc|);
    StartsEnd(oc);
    if i < |oc| - n { StartsClimb(oc, i, |oc| - n); }
  }

  /** In `ab`, rewritten to `aXb`, the offset of `b` lands on `X`. */
  lemma WithinLeavesChar()
    ensures ValidUtf8([97, 98]) && ValidUtf8([97, 88, 98]) && Within([97, 98], [97, 88, 98], 1) == 1
  {
    var oc: seq<Line>, nc: seq<Line> := [[97], [98]], [[97], [88], [98]];
    assert oc[1..] == [[98]] && nc[1..] == [[88], [98]] && nc[1..][1..] == [[98]];
    assert Concat([[98]]) == [98] && Concat(oc) == [97, 98];
    assert Concat(nc[1..]) == [88, 98] && Concat(nc) == [97, 88, 98];
    CharsOfConcat(oc);
    CharsOfConcat(nc);
    assert CommonPrefix(oc, nc) == 1;
    StartNext(oc, 0);
  }

  /** A boundary splits the characters of a text. */
  lemma CharsSplit(s: seq<Byte>, n: nat)
    requires ValidUtf8(s) && IsBoundary(s, n)
    ensures ValidUtf8(s[..n]) && ValidUtf8(s[n..]) && Chars(s) == Chars(s[..n]) + Chars(s[n..])
    ensures Start(Chars(s), |Chars(s[..n])|) == n
  {
    ValidSplit(s, n);
    assert s == s[..n] + s[n..];
    CharsJoin(s[..n], s[n..]);
  }

  lemma CharsJoin(s: seq<Byte>, t: seq<Byte>)
    requires ValidUtf8(s) && ValidUtf8(t)
    ensures ValidUtf8(s + t) && Chars(s + t) == Chars(s) + Chars(t) && Start(Chars(s + t), |Chars(s)|) == |s|
  {
    var (x, y) := (Chars(s), Chars(t));
    CharsSpell(s);
    CharsSpell(t);
    ConcatAppend(x, y);
    forall k | 0 <= k < |x + y| ensures WellFormed((x + y)[k]) {
      if k < |x| { CharsWellFormed(s, k); } else { CharsWellFormed(t, k - |x|); }
    }
    CharsOfConcat(x + y);
    StartOfPrefix(x + y, x, |x|);
    StartsEnd(x);
  }

  lemma LeadOfLists(oc: seq<Line>, nc: seq<Line>, u: seq<Line>)
    requires u <= oc && u <= nc
    ensures |u| <= |oc| && Start(oc, |u|) <= LeadingBytes(oc, nc)
  {
    PrefixRun(oc, nc, 0, |u|);
    StartsRise(oc, |u|, CommonPrefix(oc, nc));
  }

  lemma LeadSlices(u: seq<Byte>, v: seq<Byte>, n: nat)
    requires CommonLead(u, v, n)
    ensures u[..n] == v[..n]
  {
    RunSlice(u, v, 0, 0, n);
    assert u[..n] == u[0..n] && v[..n] == v[0..n];
  }

  lemma LeadBounded(before: seq<Byte>, after: seq<Byte>, n: nat)
    requires ValidUtf8(before) && ValidUtf8(after) && CommonLead(before, after, n)
    ensures n <= PrefixBytes(before, after)
  {
    LeadSlices(before, after, n);
    CharsSplit(before, n);
    CharsSplit(after, n);
    LeadOfLists(Chars(before), Chars(after), Chars(before[..n]));
  }

  /** The leading characters that the program counts are the longest common lead. */
  lemma PrefixIsLongestLead(before: seq<Byte>, after: seq<Byte>)
    requires ValidUtf8(before) && ValidUtf8(after)
    ensures LongestLead(before, after, PrefixBytes(before, after))
  {
    EndsOfReplacement(before, after);
    CharStart(before, CommonPrefix(Chars(before), Chars(after)));
    forall n: nat | CommonLead(before, after, n) ensures n <= PrefixBytes(before, after) {
      LeadBounded(before, after, n);
    }
  }

  lemma CharsBefore(cs: seq<Line>, k: nat, m: nat)
    requires NonEmpty(cs) && k <= |cs| && m <= |cs| && Start(cs, k) <= Start(cs, m)
    ensures k <= m
  {
    if m < k { StartsClimb(cs, m, k); }
  }

  lemma TailOfLists(oc: seq<Line>, nc: seq<Line>, x: seq<Line>, y: seq<Line>, w: seq<Line>, p: nat)
    requires oc == x + w && nc == y + w && NonEmpty(oc) && NonEmpty(nc) && p == LeadingBytes(oc, nc)
    requires p <= Start(oc, |x|) && p <= Start(nc, |y|)
    ensures Start(oc, |oc|) - Start(oc, |x|) <= TrailingBytes(oc, nc)
  {
    var k := CommonPrefix(oc, nc);
    LeadOfChars(oc, nc);
    CharsBefore(oc, k, |x|);
    CharsBefore(nc, k, |y|);
    var n := CommonSuffix(oc, nc, k, |oc|, |nc|);
    TailChars(oc, nc, x, y, w, k, n);
    var m := |oc| - n;
    TrailingIs(oc, nc, k, n, m);
    StartsRise(oc, m, |x|);
  }

  lemma TrailingIs(oc: seq<Line>, nc: seq<Line>, k: nat, n: nat, m: nat)
    requires k == CommonPrefix(oc, nc) && n == CommonSuffix(oc, nc, k, |oc|, |nc|) && m == |oc| - n
    ensures TrailingBytes(oc, nc) == Start(oc, |oc|) - Start(oc, m)
  {
  }

  lemma TailChars(oc: seq<Line>, nc: seq<Line>, x: seq<Line>, y: seq<Line>, w: seq<Line>, k: nat, n: nat)
    requires oc == x + w && nc == y + w && k <= |x| && k <= |y| && n == CommonSuffix(oc, nc, k, |oc|, |nc|)
    ensures |w| <= n
  {
    SuffixRun(oc, nc, k, |oc|, |nc|, |w|);
  }

  lemma TailBounded(before: seq<Byte>, after: seq<Byte>, n: nat)
    requires ValidUtf8(before) && ValidUtf8(after) && CommonTail(before, after, PrefixBytes(before, after), n)
    ensures n <= SuffixBytes(before, after)
  {
    var (i, j) := (|before| - n, |after| - n);
    RunSlice(before, after, i, j, n);
    assert before[i..] == before[i..i + n] && after[j..] == after[j..j + n];
    CharsSplit(before, i);
    CharsSplit(after, j);
    CharsNonEmpty(before);
    CharsNonEmpty(after);
    var (oc, nc) := (Chars(before), Chars(after));
    CharsSpell(before);
    StartsEnd(oc);
    TailOfLists(oc, nc, Chars(before[..i]), Chars(after[..j]), Chars(before[i..]), PrefixBytes(before, after));
  }

  /** ... and the trailing ones the longest common tail behind it. */
  lemma SuffixIsLongestTail(before: seq<Byte>, after: seq<Byte>)
    requires ValidUtf8(before) && ValidUtf8(after)
    ensures LongestTail(before, after, PrefixBytes(before, after), SuffixBytes(before, after))
  {
    EndsOfReplacement(before, after);
    SuffixOnBoundaries(before, after, SuffixBytes(before, after));
    forall n: nat | CommonTail(before, after, PrefixBytes(before, after), n) ensures n <= SuffixBytes(before, after) {
      TailBounded(before, after, n);
    }
  }

  lemma TrailingStarts(oc: seq<Line>, nc: seq<Line>, k: nat, n: nat, i: nat, j: nat, q: nat)
    requires k == CommonPrefix(oc, nc) && n == CommonSuffix(oc, nc, k, |oc|, |nc|) && i == |oc| - n && j == |nc| - n
    requires q == TrailingBytes(oc, nc)
    ensures Start(oc, i) == |Concat(oc)| - q && Start(nc, j) == |Concat(nc)| - q
  {
    SuffixRun(oc, nc, k, |oc|, |nc|, 0);
    TrailingIs(oc, nc, k, n, i);
    SuffixOfChunks(oc, nc, k, i, j);
  }

  lemma SuffixOnBoundaries(before: seq<Byte>, after: seq<Byte>, q: nat)
    requires ValidUtf8(before) && ValidUtf8(after) && q == SuffixBytes(before, after)
    ensures q <= |before| && q <= |after| && IsBoundary(before, |before| - q) && IsBoundary(after, |after| - q)
  {
    var i, j := SuffixChars(before, after, q);
    CharStart(before, i);
    CharStart(after, j);
  }

  /** The characters the common tail starts with. */
  lemma SuffixChars(before: seq<Byte>, after: seq<Byte>, q: nat) returns (i: nat, j: nat)
    requires ValidUtf8(before) && ValidUtf8(after) && q == SuffixBytes(before, after)
    ensures i <= |Chars(before)| && Start(Chars(before), i) == |before| - q
    ensures j <= |Chars(after)| && Start(Chars(after), j) == |after| - q
  {
    CharsSpell(before);
    CharsSpell(after);
    var (oc, nc) := (Chars(before), Chars(after));
    var k := CommonPrefix(oc, nc);
    var n := CommonSuffix(oc, nc, k, |oc|, |nc|);
    i, j := |oc| - n, |nc| - n;
    TailStarts(oc, nc, before, after, k, n, i, j, q);
  }

  lemma TailStarts(oc: seq<Line>, nc: seq<Line>, before: seq<Byte>, after: seq<Byte>,
                   k: nat, n: nat, i: nat, j: nat, q: nat)
    requires k == CommonPrefix(oc, nc) && n == CommonSuffix(oc, nc, k, |oc|, |nc|) && i == |oc| - n && j == |nc| - n
    requires q == TrailingBytes(oc, nc) && Concat(oc) == before && Concat(nc) == after
    ensures Start(oc, i) == |before| - q && Start(nc, j) == |after| - q
  {
    TrailingStarts(oc, nc, k, n, i, j, q);
  }

  /** What becomes of an offset, from the texts alone: in the longest common lead it stays, in the
      longest common tail behind that it keeps its distance from the end, and anywhere else it goes to
      the end of the lead. */
  lemma WithinIs(before: seq<Byte>, after: seq<Byte>, p: nat, q: nat, x: nat)
    requires ValidUtf8(before) && ValidUtf8(after)
    requires LongestLead(before, after, p) && LongestTail(before, after, p, q)
    ensures Within(before, after, x)
         == if x <= p then x else if |before| - x <= q then |after| - (|before| - x) else p
  {
    PrefixIsLongestLead(before, after);
    assert p == PrefixBytes(before, after);
    SuffixIsLongestTail(before, after);
    assert q == SuffixBytes(before, after);
  }

  /** Boundaries map to boundaries. */
  lemma WithinKeepsBoundary(before: seq<Byte>, after: seq<Byte>, x: nat)
    requires ValidUtf8(before) && ValidUtf8(after) && x < |before| && IsBoundary(before, x)
    ensures 0 <= Within(before, after, x) && IsBoundary(after, Within(before, after, x))
  {
    EndsOfReplacement(before, after);
  }

  /** Map one offset of a replaced text: keep it in the common prefix, mirror it from the end
      in the common suffix, else snap to the end of the prefix. */
  method MapOffsetWithinReplacement(before: seq<Byte>, after: seq<Byte>, rel: nat) returns (r: int)
    requires ValidUtf8(before) && ValidUtf8(after)
    ensures r == Within(before, after, rel)
    ensures forall p, q | LongestLead(before, after, p) && LongestTail(before, after, p, q) ::
              r == if rel <= p then rel else if |before| - rel <= q then |after| - (|before| - rel) else p
  {
    forall p, q | LongestLead(before, after, p) && LongestTail(before, after, p, q)
      ensures Within(before, after, rel)
           == if rel <= p then rel else if |before| - rel <= q then |after| - (|before| - rel) else p
    {
      WithinIs(before, after, p, q, rel);
    }
    var oc, nc := Chars(before), Chars(after);
    var k, prefix := MeasurePrefix(oc, nc);
    if rel <= prefix {
      return rel;
    }
    var suffix := MeasureSuffix(oc, nc, k);
    if |before| - rel <= suffix {
      return |after| - (|before| - rel);
    }
    return prefix;
  }

  /** Count the common leading characters and their bytes. */
  method MeasurePrefix(oc: seq<Line>, nc: seq<Line>) returns (k: nat, prefix: nat)
    ensures k == CommonPrefix(oc, nc) && prefix == LeadingBytes(oc, nc)
  {
    prefix, k := 0, 0;
    while k < |oc| && k < |nc| && oc[k] == nc[k]
      invariant k <= |oc| && k <= |nc| && prefix == Start(oc, k)
      invariant PrefixFrom(oc, nc, 0) == PrefixFrom(oc, nc, k)
    {
      prefix, k := prefix + |oc[k]|, k + 1;
    }
  }

  /** Count the bytes of the common trailing characters, from the end back to character `k`. */
  method MeasureSuffix(oc: seq<Line>, nc: seq<Line>, k: nat) returns (suffix: nat)
    requires k == CommonPrefix(oc, nc)
    ensures suffix == TrailingBytes(oc, nc)
  {
    suffix := 0;
    var i, j := |oc|, |nc|;
    while i > k && j > k && oc[i - 1] == nc[j - 1]
      invariant k <= i <= |oc| && k <= j <= |nc| && |oc| - i == |nc| - j
      invariant suffix == Start(oc, |oc|) - Start(oc, i)
      invariant CommonSuffix(oc, nc, k, |oc|, |nc|) == |oc| - i + CommonSuffix(oc, nc, k, i, j)
    {
      suffix, i, j := suffix + |oc[i - 1]|, i - 1, j - 1;
    }
  }

  // ----- Through the whole diff ---------------------------------------------------------------

  /** The hunks replace whole stretches of valid text, up to a character boundary. */
  ghost predicate OnBoundaries(a: seq<Byte>, b: seq<Byte>, hs: seq<Hunk>) {
    forall k :: 0 <= k < |hs| ==>
      && hs[k].OldEnd() <= |a| && hs[k].NewEnd() <= |b|
      && ValidUtf8(a[hs[k].oldStart..hs[k].OldEnd()])
      && ValidUtf8(b[hs[k].newStart..hs[k].NewEnd()])
      && IsBoundary(b, hs[k].NewEnd())
  }

  /** Where offset `x` goes when the hunks from aligned positions (i, j) on are applied: along
      with its gap, or into the replacement of the hunk it is in. */
  ghost function Mapped(a: seq<Byte>, b: seq<Byte>, i: nat, j: nat, hs: seq<Hunk>, x: nat): (r: int)
    requires OnBoundaries(a, b, hs)
    decreases |hs|
  {
    if hs == [] || x < hs[0].oldStart then j + (x - i)
    else if x < hs[0].OldEnd() then
      hs[0].newStart + Within(a[hs[0].oldStart..hs[0].OldEnd()], b[hs[0].newStart..hs[0].NewEnd()], x - hs[0].oldStart)
    else Mapped(a, b, hs[0].OldEnd(), hs[0].NewEnd(), hs[1..], x)
  }

  /** The mapped offset lies in the new text, past everything already aligned. */
  lemma {:induction false} MappedInRange(a: seq<Byte>, b: seq<Byte>, i: nat, j: nat, hs: seq<Hunk>, x: nat)
    requires Script(a, b, i, j, |a|, |b|, hs) && OnBoundaries(a, b, hs) && i <= x <= |a|
    ensures j <= Mapped(a, b, i, j, hs, x) <= |b|
    decreases |hs|
  {
    if hs != [] && hs[0].oldStart <= x {
      var h := hs[0];
      if x < h.OldEnd() {
        WithinKeepsOrder(a[h.oldStart..h.OldEnd()], b[h.newStart..h.NewEnd()], x - h.oldStart, x - h.oldStart);
      } else {
        MappedInRange(a, b, h.OldEnd(), h.NewEnd(), hs[1..], x);
      }
    }
  }

  /** The mapping is monotone. */
  lemma {:induction false} MappedKeepsOrder(a: seq<Byte>, b: seq<Byte>, i: nat, j: nat, hs: seq<Hunk>, x: nat, y: nat)
    requires Script(a, b, i, j, |a|, |b|, hs) && OnBoundaries(a, b, hs) && i <= x <= y <= |a|
    ensures Mapped(a, b, i, j, hs, x) <= Mapped(a, b, i, j, hs, y)
    decreases |hs|
  {
    if hs != [] && hs[0].oldStart <= y {
      var h := hs[0];
      if y < h.OldEnd() {
        if h.oldStart <= x {
          WithinKeepsOrder(a[h.oldStart..h.OldEnd()], b[h.newStart..h.NewEnd()], x - h.oldStart, y - h.oldStart);
        } else {
          WithinKeepsOrder(a[h.oldStart..h.OldEnd()], b[h.newStart..h.NewEnd()], y - h.oldStart, y - h.oldStart);
        }
      } else {
        MappedInRange(a, b, h.OldEnd(), h.NewEnd(), hs[1..], y);
        if h.OldEnd() <= x {
          MappedKeepsOrder(a, b, h.OldEnd(), h.NewEnd(), hs[1..], x, y);
        } else if h.oldStart <= x {
          WithinKeepsOrder(a[h.oldStart..h.OldEnd()], b[h.newStart..h.NewEnd()], x - h.oldStart, x - h.oldStart);
        }
      }
    }
  }

  /** The end of the old text goes to the end of the new one. */
  lemma {:induction false} MappedEnd(a: seq<Byte>, b: seq<Byte>, i: nat, j: nat, hs: seq<Hunk>)
    requires Script(a, b, i, j, |a|, |b|, hs) && OnBoundaries(a, b, hs)
    ensures Mapped(a, b, i, j, hs, |a|) == |b|
    decreases |hs|
  {
    if hs != [] { MappedEnd(a, b, hs[0].OldEnd(), hs[0].NewEnd(), hs[1..]); }
  }

  /** No hunk reaches past `x` and starts by `y`: the offsets lie in one gap between hunks. */
  ghost predicate SameGap(hs: seq<Hunk>, x: nat, y: nat) {
    forall k :: 0 <= k < |hs| ==> y < hs[k].oldStart || hs[k].OldEnd() <= x
  }

  /** An untouched byte goes to an equal byte. */
  lemma {:induction false} MappedAnchored(a: seq<Byte>, b: seq<Byte>, i: nat, j: nat, hs: seq<Hunk>, x: nat)
    requires Script(a, b, i, j, |a|, |b|, hs) && OnBoundaries(a, b, hs) && i <= x < |a|
    requires SameGap(hs, x, x)
    ensures 0 <= Mapped(a, b, i, j, hs, x) < |b| && b[Mapped(a, b, i, j, hs, x)] == a[x]
    decreases |hs|
  {
    if hs != [] && hs[0].oldStart <= x {
      assert SameGap(hs[1..], x, x);
      MappedAnchored(a, b, hs[0].OldEnd(), hs[0].NewEnd(), hs[1..], x);
    }
  }

  /** On each gap the mapping is a translation. */
  lemma {:induction false} MappedTranslates(a: seq<Byte>, b: seq<Byte>, i: nat, j: nat, hs: seq<Hunk>, x: nat, y: nat)
    requires Script(a, b, i, j, |a|, |b|, hs) && OnBoundaries(a, b, hs) && i <= x <= y <= |a|
    requires SameGap(hs, x, y)
    ensures Mapped(a, b, i, j, hs, y) - Mapped(a, b, i, j, hs, x) == y - x
    decreases |hs|
  {
    if hs != [] && hs[0].oldStart <= x {
      assert SameGap(hs[1..], x, y);
      MappedTranslates(a, b, hs[0].OldEnd(), hs[0].NewEnd(), hs[1..], x, y);
    }
  }

  lemma BoundaryIn(b: seq<Byte>, i: nat, j: nat, x: nat)
    requires i <= j <= |b| && ValidUtf8(b[i..j]) && IsBoundary(b, j) && IsBoundary(b[i..j], x)
    ensures IsBoundary(b, i + x)
  {
    if x < j - i { BoundaryByte(b[i..j], x); }
  }

  lemma HunkKeepsBoundary(a: seq<Byte>, b: seq<Byte>, h: Hunk, x: nat)
    requires h.oldStart <= x < h.OldEnd() <= |a| && h.NewEnd() <= |b| && !IsContinuation(a[x])
    requires ValidUtf8(a[h.oldStart..h.OldEnd()]) && ValidUtf8(b[h.newStart..h.NewEnd()]) && IsBoundary(b, h.NewEnd())
    ensures var w := Within(a[h.oldStart..h.OldEnd()], b[h.newStart..h.NewEnd()], x - h.oldStart);
            0 <= h.newStart + w && IsBoundary(b, h.newStart + w)
  {
    var (u, v, y) := (a[h.oldStart..h.OldEnd()], b[h.newStart..h.NewEnd()], x - h.oldStart);
    assert u[y] == a[x];
    var w := Within(u, v, y);
    WithinKeepsBoundary(u, v, y);
    BoundaryIn(b, h.newStart, h.NewEnd(), w);
  }

  /** Character boundaries map to character boundaries, inside rewritten regions too. */
  lemma {:induction false} MappedKeepsBoundary(a: seq<Byte>, b: seq<Byte>, i: nat, j: nat, hs: seq<Hunk>, x: nat)
    requires Script(a, b, i, j, |a|, |b|, hs) && OnBoundaries(a, b, hs) && i <= x <= |a|
    requires ValidUtf8(a) && IsBoundary(a, x)
    ensures 0 <= Mapped(a, b, i, j, hs, x) && IsBoundary(b, Mapped(a, b, i, j, hs, x))
    decreases |hs|
  {
    if x == |a| {
      MappedEnd(a, b, i, j, hs);
    } else {
      BoundaryByte(a, x);
      if hs != [] && hs[0].oldStart <= x {
        var h := hs[0];
        if x < h.OldEnd() {
          HunkKeepsBoundary(a, b, h, x);
        } else {
          MappedKeepsBoundary(a, b, h.OldEnd(), h.NewEnd(), hs[1..], x);
        }
      }
    }
  }

  // ----- Two texts ---------------------------------------------------------------------------

  lemma LineStartBoundary(ls: seq<Line>, k: nat)
    requires k <= |ls| && NonEmpty(ls) && forall l :: 0 <= l < |ls| ==> ValidUtf8(ls[l])
    ensures IsBoundary(Concat(ls), Start(ls, k))
  {
    StartsEnd(ls);
    if k < |ls| {
      LineAt(ls, k);
      assert Concat(ls)[Start(ls, k)] == ls[k][0];
    }
  }

  lemma TextOnBoundaries(oldText: seq<Byte>, newText: seq<Byte>)
    requires ValidUtf8(oldText) && ValidUtf8(newText)
    ensures OnBoundaries(oldText, newText, TextByteHunks(oldText, newText))
  {
    var (a, b, hs) := (SplitInclusive(oldText), SplitInclusive(newText), TextHunks(oldText, newText));
    TextHunksAreScript(oldText, newText);
    ScriptInLines(a, b, hs);
    ValidLines(oldText);
    ValidLines(newText);
    forall k | 0 <= k < |hs|
      ensures var h := ByteHunk(a, b, hs[k]);
              && ValidUtf8(oldText[h.oldStart..h.OldEnd()]) && ValidUtf8(newText[h.newStart..h.NewEnd()])
              && IsBoundary(newText, h.NewEnd())
    {
      ValidStretch(a, hs[k].oldStart, hs[k].OldEnd());
      ValidStretch(b, hs[k].newStart, hs[k].NewEnd());
      LineStartBoundary(b, hs[k].NewEnd());
    }
  }

  lemma TextReady(oldText: seq<Byte>, newText: seq<Byte>) returns (bs: seq<Hunk>)
    requires ValidUtf8(oldText) && ValidUtf8(newText)
    ensures bs == TextByteHunks(oldText, newText)
    ensures IsScript(oldText, newText, bs) && OnBoundaries(oldText, newText, bs)
  {
    bs := TextByteHunks(oldText, newText);
    TextBytesAreScript(oldText, newText);
    TextOnBoundaries(oldText, newText);
  }

  /** Where byte `offset` of the old text goes in the new text. */
  ghost function TextOffset(oldText: seq<Byte>, newText: seq<Byte>, offset: nat): (r: int)
    requires ValidUtf8(oldText) && ValidUtf8(newText)
  {
    TextOnBoundaries(oldText, newText);
    Mapped(oldText, newText, 0, 0, TextByteHunks(oldText, newText), Min(offset, |oldText|))
  }

  lemma TextOffsetIs(oldText: seq<Byte>, newText: seq<Byte>, bs: seq<Hunk>, x: nat)
    requires ValidUtf8(oldText) && ValidUtf8(newText) && x <= |oldText|
    requires bs == TextByteHunks(oldText, newText) && OnBoundaries(oldText, newText, bs)
    ensures TextOffset(oldText, newText, x) == Mapped(oldText, newText, 0, 0, bs, x)
  {
  }

  /** The cursor stays in the new text and keeps its order; the end goes to the end. */
  lemma TextOffsetKeepsOrder(oldText: seq<Byte>, newText: seq<Byte>, x: nat, y: nat)
    requires ValidUtf8(oldText) && ValidUtf8(newText) && x <= y
    ensures 0 <= TextOffset(oldText, newText, x) <= TextOffset(oldText, newText, y) <= |newText|
    ensures |oldText| <= y ==> TextOffset(oldText, newText, y) == |newText|
  {
    var bs := TextReady(oldText, newText);
    var (x', y') := (Min(x, |oldText|), Min(y, |oldText|));
    MappedInRange(oldText, newText, 0, 0, bs, x');
    MappedInRange(oldText, newText, 0, 0, bs, y');
    MappedKeepsOrder(oldText, newText, 0, 0, bs, x', y');
    MappedEnd(oldText, newText, 0, 0, bs);
  }

  /** A byte in no hunk goes to an equal byte. */
  lemma TextOffsetAnchored(oldText: seq<Byte>, newText: seq<Byte>, x: nat)
    requires ValidUtf8(oldText) && ValidUtf8(newText) && x < |oldText|
    requires SameGap(TextByteHunks(oldText, newText), x, x)
    ensures 0 <= TextOffset(oldText, newText, x) < |newText|
    ensures newText[TextOffset(oldText, newText, x)] == oldText[x]
  {
    var bs := TextReady(oldText, newText);
    MappedAnchored(oldText, newText, 0, 0, bs, x);
  }

  /** Each gap between hunks moves as a block. */
  lemma TextOffsetTranslates(oldText: seq<Byte>, newText: seq<Byte>, x: nat, y: nat)
    requires ValidUtf8(oldText) && ValidUtf8(newText) && x <= y <= |oldText|
    requires SameGap(TextByteHunks(oldText, newText), x, y)
    ensures TextOffset(oldText, newText, y) - TextOffset(oldText, newText, x) == y - x
  {
    var bs := TextReady(oldText, newText);
    TextOffsetIs(oldText, newText, bs, x);
    TextOffsetIs(oldText, newText, bs, y);
    MappedTranslates(oldText, newText, 0, 0, bs, x, y);
  }

  /** Character boundaries go to character boundaries. */
  lemma TextOffsetKeepsBoundary(oldText: seq<Byte>, newText: seq<Byte>, x: nat)
    requires ValidUtf8(oldText) && ValidUtf8(newText) && IsBoundary(oldText, x)
    ensures 0 <= TextOffset(oldText, newText, x) && IsBoundary(newText, TextOffset(oldText, newText, x))
  {
    var bs := TextReady(oldText, newText);
    MappedKeepsBoundary(oldText, newText, 0, 0, bs, x);
  }

  /** An offset in rewritten lines stays in their longest common lead, keeps its distance from the end in
      their longest common tail, and goes to the end of the lead anywhere else. */
  lemma TextOffsetInHunk(oldText: seq<Byte>, newText: seq<Byte>, bs: seq<Hunk>, k: nat, x: nat, p: nat, q: nat)
    requires ValidUtf8(oldText) && ValidUtf8(newText) && bs == TextByteHunks(oldText, newText) && k < |bs|
    requires bs[k].oldStart <= x < bs[k].OldEnd() <= |oldText| && bs[k].NewEnd() <= |newText|
    requires LongestLead(oldText[bs[k].oldStart..bs[k].OldEnd()], newText[bs[k].newStart..bs[k].NewEnd()], p)
    requires LongestTail(oldText[bs[k].oldStart..bs[k].OldEnd()], newText[bs[k].newStart..bs[k].NewEnd()], p, q)
    ensures TextOffset(oldText, newText, x)
         == if x <= bs[k].oldStart + p then bs[k].newStart + (x - bs[k].oldStart)
            else if bs[k].OldEnd() - x <= q then bs[k].NewEnd() - (bs[k].OldEnd() - x)
            else bs[k].newStart + p
  {
    var ready := TextReady(oldText, newText);
    TextOffsetIs(oldText, newText, bs, x);
    MappedInHunk(oldText, newText, bs, k, x, p, q);
  }

  lemma MappedInHunk(a: seq<Byte>, b: seq<Byte>, bs: seq<Hunk>, k: nat, x: nat, p: nat, q: nat)
    requires IsScript(a, b, bs) && OnBoundaries(a, b, bs) && k < |bs| && bs[k].oldStart <= x < bs[k].OldEnd()
    requires LongestLead(a[bs[k].oldStart..bs[k].OldEnd()], b[bs[k].newStart..bs[k].NewEnd()], p)
    requires LongestTail(a[bs[k].oldStart..bs[k].OldEnd()], b[bs[k].newStart..bs[k].NewEnd()], p, q)
    ensures Mapped(a, b, 0, 0, bs, x)
         == if x <= bs[k].oldStart + p then bs[k].newStart + (x - bs[k].oldStart)
            else if bs[k].OldEnd() - x <= q then bs[k].NewEnd() - (bs[k].OldEnd() - x)
            else bs[k].newStart + p
  {
    StopInHunk(a, b, bs, k, x);
    var h := bs[k];
    WithinHunk(a[h.oldStart..h.OldEnd()], b[h.newStart..h.NewEnd()], h, x, p, q);
  }

  lemma WithinHunk(u: seq<Byte>, v: seq<Byte>, h: Hunk, x: nat, p: nat, q: nat)
    requires ValidUtf8(u) && ValidUtf8(v) && |u| == h.oldCount && |v| == h.newCount && h.oldStart <= x
    requires LongestLead(u, v, p) && LongestTail(u, v, p, q)
    ensures h.newStart + Within(u, v, x - h.oldStart)
         == if x <= h.oldStart + p then h.newStart + (x - h.oldStart)
            else if h.OldEnd() - x <= q then h.NewEnd() - (h.OldEnd() - x)
            else h.newStart + p
  {
    WithinIs(u, v, p, q, x - h.oldStart);
  }

  /** Offsets do not move when the text does not change. */
  lemma TextOffsetIdentity(text: seq<Byte>, x: nat)
    requires ValidUtf8(text) && x <= |text|
    ensures TextOffset(text, text, x) == x
  {
    TextHunksAreScript(text, text);
  }

  /** Byte offset of every line, with the text's length at the end. */
  method LineStartOffsets(text: seq<Byte>) returns (starts: seq<nat>)
    ensures |starts| == |SplitInclusive(text)| + 1
    ensures forall k :: 0 <= k < |starts| ==> starts[k] == Start(SplitInclusive(text), k)
  {
    var lines := SplitInclusive(text);
    starts := [0];
    for k := 0 to |lines|
      invariant |starts| == k + 1
      invariant forall l :: 0 <= l <= k ==> starts[l] == Start(lines, l)
    {
      StartNext(lines, k);
      starts := starts + [starts[|starts| - 1] + |lines[k]|];
    }
  }

  /** Line starts and line hunks that name the byte hunks `bs`. */
  ghost predicate Measures(oldStarts: seq<nat>, newStarts: seq<nat>, hunks: seq<Hunk>, bs: seq<Hunk>) {
    |hunks| == |bs| && forall k :: 0 <= k < |hunks| ==>
      && hunks[k].OldEnd() < |oldStarts| && hunks[k].NewEnd() < |newStarts|
      && oldStarts[hunks[k].oldStart] == bs[k].oldStart && oldStarts[hunks[k].OldEnd()] == bs[k].OldEnd()
      && newStarts[hunks[k].newStart] == bs[k].newStart && newStarts[hunks[k].NewEnd()] == bs[k].NewEnd()
  }

  /** Hunk `k`, in front of the others from `next` on. */
  lemma MappedDrop(a: seq<Byte>, b: seq<Byte>, i: nat, j: nat, bs: seq<Hunk>, k: nat, next: nat, x: nat)
    requires k < |bs| && next == k + 1 && Script(a, b, i, j, |a|, |b|, bs[k..]) && OnBoundaries(a, b, bs)
    ensures Script(a, b, bs[k].OldEnd(), bs[k].NewEnd(), |a|, |b|, bs[next..])
    ensures 0 <= bs[k].oldStart - i == bs[k].newStart - j
    ensures x < bs[k].oldStart ==> Mapped(a, b, i, j, bs[k..], x) == j + (x - i)
    ensures bs[k].oldStart <= x < bs[k].OldEnd() ==>
      Mapped(a, b, i, j, bs[k..], x)
      == bs[k].newStart + Within(a[bs[k].oldStart..bs[k].OldEnd()], b[bs[k].newStart..bs[k].NewEnd()], x - bs[k].oldStart)
    ensures bs[k].OldEnd() <= x ==>
      Mapped(a, b, i, j, bs[k..], x) == Mapped(a, b, bs[k].OldEnd(), bs[k].NewEnd(), bs[next..], x)
  {
    assert bs[k..][0] == bs[k] && bs[k..][1..] == bs[next..];
  }

  /** How far the first `k` hunks have brought the two texts. */
  ghost function OldPos(bs: seq<Hunk>, k: nat): (r: nat)
    requires k <= |bs|
  {
    if k == 0 then 0 else bs[k - 1].OldEnd()
  }

  ghost function NewPos(bs: seq<Hunk>, k: nat): (r: nat)
    requires k <= |bs|
  {
    if k == 0 then 0 else bs[k - 1].NewEnd()
  }

  lemma PosNext(bs: seq<Hunk>, k: nat)
    requires k < |bs|
    ensures OldPos(bs, k + 1) == bs[k].OldEnd() && NewPos(bs, k + 1) == bs[k].NewEnd()
  {
  }

  /** Behind the first `k` hunks the mapping is that of the others. */
  lemma {:induction false} WalkedTo(a: seq<Byte>, b: seq<Byte>, bs: seq<Hunk>, k: nat, x: nat)
    requires IsScript(a, b, bs) && OnBoundaries(a, b, bs) && k <= |bs|
    ensures Script(a, b, OldPos(bs, k), NewPos(bs, k), |a|, |b|, bs[k..])
    ensures OldPos(bs, k) <= x ==>
      Mapped(a, b, 0, 0, bs, x) == Mapped(a, b, OldPos(bs, k), NewPos(bs, k), bs[k..], x)
    decreases k
  {
    if k == 0 {
      assert bs[0..] == bs;
    } else {
      var m := k - 1;
      WalkedTo(a, b, bs, m, x);
      MappedDrop(a, b, OldPos(bs, m), NewPos(bs, m), bs, m, k, x);
    }
  }

  /** The walk stops in a gap: there the offset moves by the delta and stays in the text. */
  lemma StopInGap(a: seq<Byte>, b: seq<Byte>, bs: seq<Hunk>, k: nat, x: nat)
    requires IsScript(a, b, bs) && OnBoundaries(a, b, bs) && k <= |bs| && OldPos(bs, k) <= x <= |a|
    requires k < |bs| ==> x < bs[k].oldStart
    ensures Mapped(a, b, 0, 0, bs, x) == x + NewPos(bs, k) - OldPos(bs, k)
    ensures 0 <= Mapped(a, b, 0, 0, bs, x) <= |b|
  {
    WalkedTo(a, b, bs, k, x);
    MappedInRange(a, b, OldPos(bs, k), NewPos(bs, k), bs[k..], x);
  }

  /** Or in a hunk: there the replacement decides. */
  lemma StopInHunk(a: seq<Byte>, b: seq<Byte>, bs: seq<Hunk>, k: nat, x: nat)
    requires IsScript(a, b, bs) && OnBoundaries(a, b, bs) && k < |bs| && bs[k].oldStart <= x < bs[k].OldEnd()
    ensures Mapped(a, b, 0, 0, bs, x)
         == bs[k].newStart
            + Within(a[bs[k].oldStart..bs[k].OldEnd()], b[bs[k].newStart..bs[k].NewEnd()], x - bs[k].oldStart)
  {
    WalkedTo(a, b, bs, k, x);
    MappedDrop(a, b, OldPos(bs, k), NewPos(bs, k), bs, k, k + 1, x);
  }

  /** What the walk over the hunks can meet, with `r` for the mapped offset. */
  lemma StepsHold(a: seq<Byte>, b: seq<Byte>, bs: seq<Hunk>, x: nat, r: int)
    requires IsScript(a, b, bs) && OnBoundaries(a, b, bs) && x <= |a| && r == Mapped(a, b, 0, 0, bs, x)
    ensures forall k :: 0 <= k <= |bs| && OldPos(bs, k) <= x && (k < |bs| ==> x < bs[k].oldStart) ==>
      r == x + NewPos(bs, k) - OldPos(bs, k) && 0 <= r <= |b|
    ensures forall k :: 0 <= k < |bs| && bs[k].oldStart <= x < bs[k].OldEnd() ==>
      r == bs[k].newStart
           + Within(a[bs[k].oldStart..bs[k].OldEnd()], b[bs[k].newStart..bs[k].NewEnd()], x - bs[k].oldStart)
    ensures forall k :: 0 <= k < |bs| ==> bs[k].oldStart - OldPos(bs, k) == bs[k].newStart - NewPos(bs, k)
  {
    forall k | 0 <= k <= |bs| && OldPos(bs, k) <= x && (k < |bs| ==> x < bs[k].oldStart)
      ensures r == x + NewPos(bs, k) - OldPos(bs, k) && 0 <= r <= |b|
    {
      StopInGap(a, b, bs, k, x);
    }
    forall k | 0 <= k < |bs| && bs[k].oldStart <= x < bs[k].OldEnd()
      ensures r == bs[k].newStart
                   + Within(a[bs[k].oldStart..bs[k].OldEnd()], b[bs[k].newStart..bs[k].NewEnd()], x - bs[k].oldStart)
    {
      StopInHunk(a, b, bs, k, x);
    }
    forall k | 0 <= k < |bs| ensures bs[k].oldStart - OldPos(bs, k) == bs[k].newStart - NewPos(bs, k) {
      WalkedTo(a, b, bs, k, x);
    }
  }

  lemma MeasuresAt(oldStarts: seq<nat>, newStarts: seq<nat>, hunks: seq<Hunk>, bs: seq<Hunk>, k: nat)
    requires Measures(oldStarts, newStarts, hunks, bs) && k < |hunks|
    ensures hunks[k].OldEnd() < |oldStarts| && hunks[k].NewEnd() < |newStarts|
    ensures oldStarts[hunks[k].oldStart] == bs[k].oldStart && oldStarts[hunks[k].OldEnd()] == bs[k].OldEnd()
    ensures newStarts[hunks[k].newStart] == bs[k].newStart && newStarts[hunks[k].NewEnd()] == bs[k].NewEnd()
  {
  }

  /** Walk the hunks with a running byte delta. The final clamp to 0..|b| never changes the result. */
  method MapThroughHunks(a: seq<Byte>, b: seq<Byte>, oldStarts: seq<nat>, newStarts: seq<nat>, hunks: seq<Hunk>,
                         ghost bs: seq<Hunk>, x: nat)
    returns (r: int)
    requires IsScript(a, b, bs) && OnBoundaries(a, b, bs) && Measures(oldStarts, newStarts, hunks, bs) && x <= |a|
    ensures r == Mapped(a, b, 0, 0, bs, x)
  {
    StepsHold(a, b, bs, x, Mapped(a, b, 0, 0, bs, x));
    var delta := 0;
    var k := 0;
    while k < |hunks|
      invariant k <= |hunks| && OldPos(bs, k) <= x && delta == NewPos(bs, k) - OldPos(bs, k)
    {
      MeasuresAt(oldStarts, newStarts, hunks, bs, k);
      PosNext(bs, k);
      var h := hunks[k];
      var oldStart := oldStarts[h.oldStart];
      if x < oldStart {
        break;
      }
      var oldEnd := oldStarts[h.OldEnd()];
      var newStart, newEnd := newStarts[h.newStart], newStarts[h.NewEnd()];
      if x < oldEnd {
        var w := MapOffsetWithinReplacement(a[oldStart..oldEnd], b[newStart..newEnd], x - oldStart);
        return newStart + w;
      }
      delta := delta + (newEnd - newStart) - (oldEnd - oldStart);
      k := k + 1;
    }
    r := x + delta;
    if r < 0 { r := 0; }
    if |b| < r { r := |b|; }
  }

  lemma TextMeasures(oldText: seq<Byte>, newText: seq<Byte>, oldStarts: seq<nat>, newStarts: seq<nat>)
    requires |oldStarts| == |SplitInclusive(oldText)| + 1 && |newStarts| == |SplitInclusive(newText)| + 1
    requires forall k :: 0 <= k < |oldStarts| ==> oldStarts[k] == Start(SplitInclusive(oldText), k)
    requires forall k :: 0 <= k < |newStarts| ==> newStarts[k] == Start(SplitInclusive(newText), k)
    ensures Measures(oldStarts, newStarts, TextHunks(oldText, newText), TextByteHunks(oldText, newText))
  {
    var (a, b, hs) := (SplitInclusive(oldText), SplitInclusive(newText), TextHunks(oldText, newText));
    TextRanges(oldText, newText);
    MeasuresOf(a, b, oldStarts, newStarts, hs, TextByteHunks(oldText, newText));
  }

  lemma MeasuresOf(a: seq<Line>, b: seq<Line>, oldStarts: seq<nat>, newStarts: seq<nat>, hs: seq<Hunk>, bs: seq<Hunk>)
    requires |oldStarts| == |a| + 1 && |newStarts| == |b| + 1
    requires forall k :: 0 <= k < |oldStarts| ==> oldStarts[k] == Start(a, k)
    requires forall k :: 0 <= k < |newStarts| ==> newStarts[k] == Start(b, k)
    requires InLines(a, b, hs) && AreByteHunks(a, b, hs, bs)
    ensures Measures(oldStarts, newStarts, hs, bs)
  {
  }

  /** Map a byte offset through the diff of two texts. */
  method MapOffsetThroughDiff(oldText: seq<Byte>, newText: seq<Byte>, offset: nat) returns (r: int)
    requires ValidUtf8(oldText) && ValidUtf8(newText)
    requires |SplitInclusive(oldText)| + |SplitInclusive(newText)| < U32_RANGE
    ensures r == TextOffset(oldText, newText, offset)
    ensures 0 <= r <= |newText| && (IsBoundary(oldText, offset) ==> IsBoundary(newText, r))
  {
    var x := Min(offset, |oldText|);
    var oldStarts := LineStartOffsets(oldText);
    var newStarts := LineStartOffsets(newText);
    var hunks := ComputeLineDiff(oldText, newText);
    TextBytesAreScript(oldText, newText);
    TextOnBoundaries(oldText, newText);
    TextMeasures(oldText, newText, oldStarts, newStarts);
    r := MapThroughHunks(oldText, newText, oldStarts, newStarts, hunks, TextByteHunks(oldText, newText), x);
    TextOffsetKeepsOrder(oldText, newText, offset, offset);
    if IsBoundary(oldText, offset) { TextOffsetKeepsBoundary(oldText, newText, offset); }
  }
}
