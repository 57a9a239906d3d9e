/**
  UTF-8 text as bytes. A character is the byte sequence that encodes it: every Unicode
  scalar value has exactly one well-formed encoding, so comparing characters is comparing
  encodings.
 */
module Utf8 {
  import opened EditScript
  import opened Lines
  import opened Utils

  /** The bits 10xxxxxx of a byte that continues a character. */
  predicate IsContinuation(b: Byte) { 0x80 <= b < 0xC0 }

  /** Bytes in the character a leading byte starts; 0 when no character starts with it. */
  function Width(b: Byte): (w: nat)
    ensures w <= 4 && (w > 0 ==> !IsContinuation(b))
  {
    if b < 0x80 then 1
    else if b < 0xC2 then 0
    else if b < 0xE0 then 2
    else if b < 0xF0 then 3
    else if b < 0xF5 then 4
    else 0
  }

  /** One well-formed character: Table 3-7 of the Unicode Standard. */
  predicate WellFormed(c: seq<Byte>) {
    && c != [] && |c| == Width(c[0])
    && (forall k :: 1 <= k < |c| ==> IsContinuation(c[k]))
    && (c[0] == 0xE0 ==> 0xA0 <= c[1])
    && (c[0] == 0xED ==> c[1] < 0xA0)
    && (c[0] == 0xF0 ==> 0x90 <= c[1])
    && (c[0] == 0xF4 ==> c[1] < 0x90)
  }

  predicate IsScalar(n: nat) { n < 0xD800 || 0xE000 <= n < 0x110000 }

  /** The UTF-8 encoding of a scalar value, section 3 of RFC 3629. */
  function Encoding(n: nat): (r: seq<Byte>)
    requires IsScalar(n)
  {
    if n < 0x80 then [n]
    else if n < 0x800 then [0xC0 + n / 64, 0x80 + n % 64]
    else if n < 0x10000 then [0xE0 + n / 4096, 0x80 + n / 64 % 64, 0x80 + n % 64]
    else [0xF0 + n / 262144, 0x80 + n / 4096 % 64, 0x80 + n / 64 % 64, 0x80 + n % 64]
  }

  /** The well-formed characters are the encodings of the scalar values. */
  lemma EncodingIsWellFormed(n: nat)
    requires IsScalar(n)
    ensures WellFormed(Encoding(n))
  {
  }

  lemma WellFormedIsEncoding(c: seq<Byte>) returns (n: nat)
    requires WellFormed(c)
    ensures IsScalar(n) && Encoding(n) == c
  {
    if |c| == 1 {
      n := c[0];
    } else if |c| == 2 {
      n := TwoBytes(c);
    } else if |c| == 3 {
      n := ThreeBytes(c);
    } else {
      n := FourBytes(c);
    }
  }

  lemma SixBits(n: nat, q: nat, r: nat)
    requires n == q * 64 + r && r < 64
    ensures n / 64 == q && n % 64 == r
  {
  }

  lemma TwoBytes(c: seq<Byte>) returns (n: nat)
    requires WellFormed(c) && |c| == 2
    ensures IsScalar(n) && Encoding(n) == c
  {
    var x: int, y: int := c[0], c[1];
    n := (x - 0xC0) * 64 + (y - 0x80);
    SixBits(n, x - 0xC0, y - 0x80);
  }

  lemma ThreeBytes(c: seq<Byte>) returns (n: nat)
    requires WellFormed(c) && |c| == 3
    ensures IsScalar(n) && Encoding(n) == c
  {
    var x: int, y: int, z: int := c[0] - 0xE0, c[1] - 0x80, c[2] - 0x80;
    var q := x * 64 + y;
    n := q * 64 + z;
    SixBits(n, q, z);
    SixBits(q, x, y);
    assert n / 4096 == x;
  }

  lemma FourBytes(c: seq<Byte>) returns (n: nat)
    requires WellFormed(c) && |c| == 4
    ensures IsScalar(n) && Encoding(n) == c
  {
    var x: int, y: int, z: int, w: int := c[0] - 0xF0, c[1] - 0x80, c[2] - 0x80, c[3] - 0x80;
    var p := x * 64 + y;
    var q := p * 64 + z;
    n := q * 64 + w;
    SixBits(n, q, w);
    SixBits(q, p, z);
    SixBits(p, x, y);
    assert n / 4096 == p && n / 262144 == x;
  }

  predicate ValidUtf8(s: seq<Byte>) {
    s == [] ||
    (0 < Width(s[0]) <= |s| && WellFormed(s[..Width(s[0])]) && ValidUtf8(s[Width(s[0])..]))
  }

  /** The characters of a valid text. */
  function Chars(s: seq<Byte>): (r: seq<seq<Byte>>)
    requires ValidUtf8(s)
  {
    if s == [] then [] else [s[..Width(s[0])]] + Chars(s[Width(s[0])..])
  }

  /** The characters spell the text. */
  lemma {:induction false} CharsSpell(s: seq<Byte>)
    requires ValidUtf8(s)
    ensures Concat(Chars(s)) == s
    decreases |s|
  {
    if s != [] {
      var w := Width(s[0]);
      CharsSpell(s[w..]);
      assert Chars(s)[1..] == Chars(s[w..]);
    }
  }

  /** Each character is well formed. */
  lemma {:induction false} CharsWellFormed(s: seq<Byte>, k: nat)
    requires ValidUtf8(s) && k < |Chars(s)|
    ensures WellFormed(Chars(s)[k])
    decreases |s|
  {
    if k > 0 { CharsWellFormed(s[Width(s[0])..], k - 1); }
  }

  /** A character may start, or the text end, at byte `i`. */
  predicate IsBoundary(s: seq<Byte>, i: nat) {
    i <= |s| && (i == 0 || i == |s| || !IsContinuation(s[i]))
  }

  /** In a valid text, no boundary before the end has a continuation byte. */
  lemma BoundaryByte(s: seq<Byte>, x: nat)
    requires ValidUtf8(s) && IsBoundary(s, x) && x < |s|
    ensures !IsContinuation(s[x])
  {
  }

  lemma CharStart(s: seq<Byte>, k: nat)
    requires ValidUtf8(s) && k <= |Chars(s)|
    ensures IsBoundary(s, Start(Chars(s), k))
  {
    CharsSpell(s);
    StartsEnd(Chars(s));
    if k < |Chars(s)| {
      LineAt(Chars(s), k);
      CharsWellFormed(s, k);
      assert s[Start(Chars(s), k)] == Chars(s)[k][0];
    }
  }

  lemma {:induction false} ValidConcat(s: seq<Byte>, t: seq<Byte>)
    requires ValidUtf8(s) && ValidUtf8(t)
    ensures ValidUtf8(s + t)
    decreases |s|
  {
    if s == [] {
      assert s + t == t;
    } else {
      var w := Width(s[0]);
      ValidConcat(s[w..], t);
      SliceConcat(s, t, w);
      assert (s + t)[0] == s[0];
    }
  }

  lemma InsideChar(s: seq<Byte>, n: nat)
    requires ValidUtf8(s) && s != [] && 0 < n < Width(s[0])
    ensures n < |s| && IsContinuation(s[n])
  {
    assert s[n] == s[..Width(s[0])][n];
  }

  /** A valid text splits into two valid texts at every boundary. */
  lemma {:induction false} ValidSplit(s: seq<Byte>, n: nat)
    requires ValidUtf8(s) && IsBoundary(s, n)
    ensures ValidUtf8(s[..n]) && ValidUtf8(s[n..])
    decreases |s|
  {
    if n == 0 {
      assert s[0..] == s;
    } else {
      var w := Width(s[0]);
      if n < w {
        InsideChar(s, n);
        assert false;
      }
      ValidSplit(s[w..], n - w);
      SliceTwice(s, w, n, n - w);
    }
  }

  /** A character starts after every line feed. */
  lemma {:induction false} BoundaryAfterNewline(s: seq<Byte>, n: nat)
    requires ValidUtf8(s) && 0 < n <= |s| && s[n - 1] == NEWLINE
    ensures IsBoundary(s, n)
    decreases |s|
  {
    var w := Width(s[0]);
    if n <= w {
      assert s[n - 1] == s[..w][n - 1];
      assert n < |s| ==> s[n] == s[w..][0];
    } else {
      BoundaryAfterNewline(s[w..], n - w);
    }
  }

  /** The lines of a valid text are valid. */
  lemma {:induction false} ValidLines(t: seq<Byte>)
    requires ValidUtf8(t)
    ensures forall k :: 0 <= k < |SplitInclusive(t)| ==> ValidUtf8(SplitInclusive(t)[k])
    decreases |t|
  {
    if t != [] {
      var n := FirstLen(t);
      if n < |t| { BoundaryAfterNewline(t, n); }
      ValidSplit(t, n);
      ValidLines(t[n..]);
    }
  }

  /** Stretches of whole lines of a valid text are valid and start on a boundary. */
  lemma {:induction false} ValidStretch(ls: seq<Line>, i: nat, j: nat)
    requires i <= j <= |ls| && forall k :: 0 <= k < |ls| ==> ValidUtf8(ls[k])
    ensures Start(ls, i) <= Start(ls, j) <= |Concat(ls)|
    ensures ValidUtf8(Concat(ls)[Start(ls, i)..Start(ls, j)])
    decreases j - i
  {
    StartsRise(ls, i, j);
    StartsRise(ls, j, |ls|);
    StartsEnd(ls);
    if i < j {
      ValidStretch(ls, i, j - 1);
      LineStretch(ls, j - 1, j);
      ValidJoin(Concat(ls), Start(ls, i), Start(ls, j - 1), Start(ls, j), ls[j - 1]);
    }
  }

  lemma ValidJoin(s: seq<Byte>, i: nat, j: nat, k: nat, l: Line)
    requires i <= j <= k <= |s| && ValidUtf8(s[i..j]) && s[j..k] == l && ValidUtf8(l)
    ensures ValidUtf8(s[i..k])
  {
    ValidConcat(s[i..j], l);
    SliceJoin(s, i, j, k);
  }

  /** Well-formed characters are read back as written. */
  lemma {:induction false} CharsOfConcat(cs: seq<Line>)
    requires forall k :: 0 <= k < |cs| ==> WellFormed(cs[k])
    ensures ValidUtf8(Concat(cs)) && Chars(Concat(cs)) == cs
    decreases |cs|
  {
    if cs != [] {
      var (c, rest) := (cs[0], Concat(cs[1..]));
      CharsOfConcat(cs[1..]);
      assert WellFormed(c);
      assert (c + rest)[..|c|] == c && (c + rest)[|c|..] == rest && (c + rest)[0] == c[0];
    }
  }

  // ----- What two texts share at their ends --------------------------------------------------------------

  /** The first `n` bytes of both texts are the same, and whole characters. */
  ghost predicate CommonLead(u: seq<Byte>, v: seq<Byte>, n: nat) {
    n <= |u| && n <= |v| && SameRun(u, v, 0, 0, n) && IsBoundary(u, n) && IsBoundary(v, n)
  }

  ghost predicate LongestLead(u: seq<Byte>, v: seq<Byte>, p: nat) {
    CommonLead(u, v, p) && forall n: nat :: CommonLead(u, v, n) ==> n <= p
  }

  /** The last `n` bytes, behind the first `p`. */
  ghost predicate CommonTail(u: seq<Byte>, v: seq<Byte>, p: nat, n: nat) {
    && p + n <= |u| && p + n <= |v| && SameRun(u, v, |u| - n, |v| - n, n)
    && IsBoundary(u, |u| - n) && IsBoundary(v, |v| - n)
  }

  ghost predicate LongestTail(u: seq<Byte>, v: seq<Byte>, p: nat, q: nat) {
    CommonTail(u, v, p, q) && forall n: nat :: CommonTail(u, v, p, n) ==> n <= q
  }
}
