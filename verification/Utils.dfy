/** Small vocabulary shared by the models. */
module Utils {

  datatype Option<+T> = None | Some(value: T)

  type Byte = x: int | 0 <= x < 256

  const U32_RANGE: nat := 0x1_0000_0000

  /** The truncating cast `n as u32`. */
  function AsU32(n: nat): (r: nat)
    ensures r < U32_RANGE && (n < U32_RANGE ==> r == n)
  {
    n % U32_RANGE
  }

  function Min(x: nat, y: nat): nat { if x < y then x else y }
  function Max(x: nat, y: nat): nat { if x < y then y else x }

  /** The elements of `s`, last first. */
  function Reversed<T>(s: seq<T>): (r: seq<T>)
    ensures |r| == |s|
  {
    if s == [] then [] else [s[|s| - 1]] + Reversed(s[..|s| - 1])
  }

  lemma ReversedSnoc<T>(s: seq<T>, x: T)
    ensures Reversed(s + [x]) == [x] + Reversed(s)
  {
    assert (s + [x])[..|s|] == s;
  }

  lemma MoveAcross<T>(p: seq<T>, x: T, q: seq<T>)
    ensures (p + [x]) + q == p + ([x] + q)
  {
  }

  lemma ConcatAssoc<T>(p: seq<T>, q: seq<T>, r: seq<T>)
    ensures (p + q) + r == p + (q + r)
  {
  }

  lemma SliceConcat<T>(s: seq<T>, t: seq<T>, n: nat)
    requires n <= |s|
    ensures (s + t)[..n] == s[..n] && (s + t)[n..] == s[n..] + t
  {
  }

  lemma SliceJoin<T>(s: seq<T>, i: nat, j: nat, k: nat)
    requires i <= j <= k <= |s|
    ensures s[i..k] == s[i..j] + s[j..k]
  {
  }

  lemma SliceTwice<T>(s: seq<T>, w: nat, n: nat, m: nat)
    requires w <= n <= |s| && m == n - w
    ensures s[..n][..w] == s[..w] && s[..n][w..] == s[w..][..m] && s[n..] == s[w..][m..]
  {
  }

  lemma SliceWhole<T>(s: seq<T>)
    ensures s[0..|s|] == s && s[..|s|] == s && s[0..] == s
  {
  }

  /** A slice of a stretch is a slice of the whole. */
  lemma SliceOfStretch<T>(s: seq<T>, i: nat, x: seq<T>, j: nat, k: nat, j': nat, k': nat)
    requires i + |x| <= |s| && s[i..i + |x|] == x && j <= k <= |x| && j' == i + j && k' == i + k
    ensures s[j'..k'] == x[j..k]
  {
    forall p | j <= p < k ensures s[i + p] == x[p] { assert s[i + p] == s[i..i + |x|][p]; }
  }

  /** Where `q` stands in a sequence that starts with `p + q`. */
  lemma SliceBehind<T>(s: seq<T>, p: seq<T>, q: seq<T>)
    requires p + q <= s
    ensures s[|p|..|p| + |q|] == q
  {
    assert s[..|p + q|] == p + q;
  }

  lemma MulMonotone(x: nat, y: nat, s: nat)
    requires x <= y
    ensures x * s <= y * s
  {
  }

  /** The parts of `s` between the separators; always at least one. */
  function Split<T(==)>(s: seq<T>, sep: T): (r: seq<seq<T>>)
    ensures r != []
  {
    if s == [] then [[]]
    else
      var r := Split(s[1..], sep);
      if s[0] == sep then [[]] + r else [[s[0]] + r[0]] + r[1..]
  }

  /** A part without separators is split off whole. */
  lemma {:induction false} SplitPart<T>(part: seq<T>, sep: T, rest: seq<T>)
    requires sep !in part
    ensures Split(part, sep) == [part] && Split(part + [sep] + rest, sep) == [part] + Split(rest, sep)
    decreases |part|
  {
    var s := part + [sep] + rest;
    if part == [] {
      assert s[1..] == rest;
    } else {
      SplitPart(part[1..], sep, rest);
      assert part == [part[0]] + part[1..] && s[1..] == part[1..] + [sep] + rest;
    }
  }

  /** The parts with a separator in front of each. */
  function Prefixed<T>(ps: seq<seq<T>>, sep: T): (r: seq<T>) {
    if ps == [] then [] else [sep] + ps[0] + Prefixed(ps[1..], sep)
  }

  lemma PrefixedCons<T>(p: seq<T>, qs: seq<seq<T>>, sep: T)
    ensures Prefixed([p] + qs, sep) == [sep] + (p + Prefixed(qs, sep))
  {
    assert ([p] + qs)[1..] == qs;
    ConcatAssoc([sep], p, Prefixed(qs, sep));
  }

  lemma BehindFirst<T>(c: T, t: seq<T>)
    ensures ([c] + t)[0] == c && ([c] + t)[1..] == t
  {
  }

  /** Splitting gives the parts back. */
  lemma {:induction false} SplitPrefixed<T>(ps: seq<seq<T>>, sep: T)
    requires ps != [] && forall k :: 0 <= k < |ps| ==> sep !in ps[k]
    ensures Prefixed(ps, sep) != [] && Prefixed(ps, sep)[0] == sep && Split(Prefixed(ps, sep)[1..], sep) == ps
    decreases |ps|
  {
    var (p, qs) := (ps[0], ps[1..]);
    assert ps == [p] + qs;
    PrefixedCons(p, qs, sep);
    BehindFirst(sep, p + Prefixed(qs, sep));
    if qs == [] {
      assert p + Prefixed(qs, sep) == p;
      SplitPart(p, sep, []);
    } else {
      SplitPrefixed(qs, sep);
      SplitOff(p, Prefixed(qs, sep), sep, qs);
    }
  }

  lemma SplitOff<T>(p: seq<T>, s: seq<T>, sep: T, qs: seq<seq<T>>)
    requires sep !in p && s != [] && s[0] == sep && Split(s[1..], sep) == qs
    ensures Split(p + s, sep) == [p] + qs
  {
    SplitPart(p, sep, s[1..]);
    assert p + s == p + [sep] + s[1..];
  }

  /** The first position from `k` on where `a` and `b` part. */
  function PrefixFrom<T(==)>(a: seq<T>, b: seq<T>, k: nat): (r: nat)
    requires k <= |a| && k <= |b|
    ensures k <= r <= |a| && r <= |b|
    decreases |a| - k
  {
    if k < |a| && k < |b| && a[k] == b[k] then PrefixFrom(a, b, k + 1) else k
  }

  /** Length of the longest common prefix. */
  function CommonPrefix<T(==)>(a: seq<T>, b: seq<T>): (r: nat)
    ensures r <= |a| && r <= |b|
  {
    PrefixFrom(a, b, 0)
  }

  /** How many elements `a[..i]` and `b[..j]` share at their ends, leaving the first `s` alone. */
  function CommonSuffix<T(==)>(a: seq<T>, b: seq<T>, s: nat, i: nat, j: nat): (r: nat)
    requires s <= i <= |a| && s <= j <= |b|
    ensures s + r <= i && s + r <= j
  {
    if i > s && j > s && a[i - 1] == b[j - 1] then 1 + CommonSuffix(a, b, s, i - 1, j - 1) else 0
  }
}
