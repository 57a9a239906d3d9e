/**
  Unix paths as `file://` URIs and back. Paths and URIs are byte strings.
 */
module FileUri {
  import opened Utf8
  import opened Utils

  type Bytes = seq<Byte>

  const SLASH: Byte := 47
  const PERCENT: Byte := 37
  const DOT: Byte := 46

  const FILE_SCHEME: Bytes := [102, 105, 108, 101, 58, 47, 47]                              // file://
  const LOCALHOST: Bytes := [108, 111, 99, 97, 108, 104, 111, 115, 116]                     // localhost

  // ----- The percent codec ------------------------------------------------------------------------

  /** Letters, digits and the marks RFC 3986 section 3.3 allows unencoded in a path segment. */
  predicate IsPathChar(b: Byte) {
    || 65 <= b <= 90 || 97 <= b <= 122 || 48 <= b <= 57
    || b in {45, 46, 95, 126}
    || b in {33, 36, 38, 39, 40, 41, 42, 43, 44, 59, 61}
    || b in {58, 64}
  }

  function HexDigit(n: nat): (r: Byte)
    requires n < 16
  {
    if n < 10 then 48 + n else 55 + n
  }

  function FromHex(b: Byte): (r: Option<nat>)
    ensures r.Some? ==> r.value < 16
  {
    if 48 <= b <= 57 then Some(b - 48)
    else if 65 <= b <= 70 then Some(b - 55)
    else if 97 <= b <= 102 then Some(b - 87)
    else None
  }

  function EncodeByte(b: Byte): (r: Bytes) {
    if IsPathChar(b) then [b] else [PERCENT, HexDigit(b / 16), HexDigit(b % 16)]
  }

  function Encode(s: Bytes): (r: Bytes) {
    if s == [] then [] else EncodeByte(s[0]) + Encode(s[1..])
  }

  /** A percent sign and two hex digits lead `s`. */
  predicate EscapeAt(s: Bytes) {
    |s| > 2 && s[0] == PERCENT && FromHex(s[1]).Some? && FromHex(s[2]).Some?
  }

  /** Undo the escapes; a percent sign that starts none stays as it is. */
  function Decode(s: Bytes): (r: Bytes) {
    if s == [] then []
    else if EscapeAt(s) then [FromHex(s[1]).value * 16 + FromHex(s[2]).value] + Decode(s[3..])
    else [s[0]] + Decode(s[1..])
  }

  /** Path characters are the `pchar` of RFC 3986 less its escapes: unreserved characters (section 2.3),
      sub-delims (section 2.2), colon and at sign. */
  lemma PathCharIff(b: Byte)
    ensures IsPathChar(b)
            <==> || 0x41 <= b <= 0x5A || 0x61 <= b <= 0x7A || 0x30 <= b <= 0x39
                 || b as char in "-._~" || b as char in "!$&'()*+,;=" || b as char in ":@"
  {
  }

  /** The hex digits of both cases, by value. */
  const UPPER_HEX: string := "0123456789ABCDEF"
  const LOWER_HEX: string := "0123456789abcdef"

  predicate IsHex(b: Byte, n: nat)
    requires n < 16
  {
    b as char == UPPER_HEX[n] || b as char == LOWER_HEX[n]
  }

  lemma HexIff(b: Byte, n: nat)
    requires n < 16
    ensures FromHex(b) == Some(n) <==> IsHex(b, n)
  {
  }

  /** A byte that is no path character is written as a percent sign and two upper-case digits. */
  lemma EncodedIs(b: Byte)
    ensures !IsPathChar(b) ==>
      |EncodeByte(b)| == 3 && EncodeByte(b)[0] == 37
      && EncodeByte(b)[1] as char == UPPER_HEX[b / 16] && EncodeByte(b)[2] as char == UPPER_HEX[b % 16]
  {
  }

  /** A percent sign and two hex digits, of either case, are read as the byte they spell. */
  lemma EscapeIsRead(hi: Byte, lo: Byte, m: nat, n: nat, rest: Bytes)
    requires m < 16 && n < 16 && IsHex(hi, m) && IsHex(lo, n)
    ensures Decode([37, hi, lo] + rest) == [16 * m + n] + Decode(rest)
  {
    HexIff(hi, m);
    HexIff(lo, n);
    assert ([37, hi, lo] + rest)[3..] == rest;
  }

  /** Any other byte, and a percent sign that starts no escape, are read as they are. */
  lemma OthersAreRead(b: Byte, rest: Bytes)
    requires b == 37 && |rest| >= 2 ==>
      (forall n: nat :: n < 16 ==> !IsHex(rest[0], n)) || (forall n: nat :: n < 16 ==> !IsHex(rest[1], n))
    ensures Decode([b] + rest) == [b] + Decode(rest)
  {
    var s := [b] + rest;
    assert s[1..] == rest;
    if EscapeAt(s) {
      assert FromHex(rest[0]) == FromHex(s[1]) && FromHex(rest[1]) == FromHex(s[2]);
      HexIff(rest[0], FromHex(rest[0]).value);
      HexIff(rest[1], FromHex(rest[1]).value);
    }
  }

  lemma DecodeByte(b: Byte, rest: Bytes)
    ensures Decode(EncodeByte(b) + rest) == [b] + Decode(rest)
  {
    var s := EncodeByte(b) + rest;
    if IsPathChar(b) {
      assert s[1..] == rest;
    } else {
      assert s[3..] == rest;
    }
  }

  /** Decoding undoes encoding, for all bytes and whatever follows. */
  lemma {:induction false} DecodeEncoded(s: Bytes, rest: Bytes)
    ensures Decode(Encode(s) + rest) == s + Decode(rest)
    decreases |s|
  {
    if s == [] {
      assert Encode(s) + rest == rest && s + Decode(rest) == Decode(rest);
    } else {
      DecodeEncoded(s[1..], rest);
      DecodeByte(s[0], Encode(s[1..]) + rest);
      ConcatAssoc(EncodeByte(s[0]), Encode(s[1..]), rest);
      ConcatAssoc([s[0]], s[1..], Decode(rest));
      assert [s[0]] + s[1..] == s;
    }
  }

  /** Slashes, path characters and complete escapes only. */
  predicate UriPath(s: Bytes) {
    s == [] || (if EscapeAt(s) then UriPath(s[3..]) else (s[0] == SLASH || IsPathChar(s[0])) && UriPath(s[1..]))
  }

  lemma {:induction false} EncodedIsUriPath(s: Bytes, rest: Bytes)
    requires UriPath(rest)
    ensures UriPath(Encode(s) + rest)
    decreases |s|
  {
    if s == [] {
      assert Encode(s) + rest == rest;
    } else {
      var t := Encode(s[1..]) + rest;
      EncodedIsUriPath(s[1..], rest);
      assert Encode(s) + rest == EncodeByte(s[0]) + t;
      if IsPathChar(s[0]) {
        assert (EncodeByte(s[0]) + t)[1..] == t;
      } else {
        assert (EncodeByte(s[0]) + t)[3..] == t;
      }
    }
  }

  // ----- Components ---------------------------------------------------------------------------------

  datatype Component = RootDir | Normal(name: Bytes) | CurDir | ParentDir

  /** What a part between slashes names; empty parts and `.` name nothing. */
  function Part(s: Bytes): (r: seq<Component>) {
    if s == [] || s == [DOT] then [] else if s == [DOT, DOT] then [ParentDir] else [Normal(s)]
  }

  function Parts(ps: seq<Bytes>): (r: seq<Component>) {
    if ps == [] then [] else Part(ps[0]) + Parts(ps[1..])
  }

  predicate Absolute(path: Bytes) { path != [] && path[0] == SLASH }

  /** The components below the root of an absolute path. */
  function Below(path: Bytes): (r: seq<Component>)
    requires Absolute(path)
  {
    Parts(Split(path[1..], SLASH))
  }

  predicate Proper(c: Component) {
    c.ParentDir? || (c.Normal? && SLASH !in c.name && Part(c.name) == [c])
  }

  predicate AllProper(cs: seq<Component>) {
    forall k :: 0 <= k < |cs| ==> Proper(cs[k])
  }

  lemma {:induction false} SplitHasNoSlash(s: Bytes)
    ensures forall k :: 0 <= k < |Split(s, SLASH)| ==> SLASH !in Split(s, SLASH)[k]
    decreases |s|
  {
    if s != [] { SplitHasNoSlash(s[1..]); }
  }

  lemma {:induction false} PartsAreProper(ps: seq<Bytes>)
    requires forall k :: 0 <= k < |ps| ==> SLASH !in ps[k]
    ensures AllProper(Parts(ps))
    decreases |ps|
  {
    if ps != [] { PartsAreProper(ps[1..]); }
  }

  function NameOf(c: Component): (r: Bytes) {
    match c
    case RootDir => []
    case Normal(n) => n
    case CurDir => [DOT]
    case ParentDir => [DOT, DOT]
  }

  /** Names with slashes between them. */
  function Join(cs: seq<Component>): (r: Bytes) {
    if cs == [] then [] else if |cs| == 1 then NameOf(cs[0]) else NameOf(cs[0]) + [SLASH] + Join(cs[1..])
  }

  lemma PartOfName(c: Component)
    requires Proper(c)
    ensures Part(NameOf(c)) == [c] && SLASH !in NameOf(c)
  {
  }

  /** A path put together from components has those components. */
  lemma {:induction false} SplitJoined(cs: seq<Component>)
    requires AllProper(cs)
    ensures Parts(Split(Join(cs), SLASH)) == cs
    decreases |cs|
  {
    if cs == [] {
      assert Parts([[]]) == [];
    } else {
      var n := NameOf(cs[0]);
      PartOfName(cs[0]);
      if |cs| == 1 {
        SplitPart(n, SLASH, []);
        assert Parts([n]) == Part(n) + Parts([]);
      } else {
        SplitJoined(cs[1..]);
        SplitPart(n, SLASH, Join(cs[1..]));
        assert ([n] + Split(Join(cs[1..]), SLASH))[1..] == Split(Join(cs[1..]), SLASH);
      }
    }
  }

  // ----- From path to URI and back --------------------------------------------------------------------

  predicate IsText(c: Component) { c.Normal? ==> ValidUtf8(c.name) }

  /** Every component of the path is text, so that it has a URI. */
  predicate Encodable(cs: seq<Component>) {
    forall k :: 0 <= k < |cs| ==> IsText(cs[k])
  }

  function EncodedName(c: Component): (r: Bytes) {
    if c.Normal? then Encode(c.name) else NameOf(c)
  }

  function EncodedJoin(cs: seq<Component>): (r: Bytes) {
    if cs == [] then []
    else if |cs| == 1 then EncodedName(cs[0])
    else EncodedName(cs[0]) + [SLASH] + EncodedJoin(cs[1..])
  }

  function UriOf(cs: seq<Component>): (r: Bytes) { FILE_SCHEME + [SLASH] + EncodedJoin(cs) }

  const LOCAL_PREFIX: Bytes := [102, 105, 108, 101, 58, 47, 47, 47]                         // file:///
  const HOST_PREFIX: Bytes :=                                                               // file://localhost/
    [102, 105, 108, 101, 58, 47, 47, 108, 111, 99, 97, 108, 104, 111, 115, 116, 47]

  /** The path a URI names; `lossy` repairs bytes that are not text. */
  function PathOf(uri: Bytes, lossy: Bytes -> Bytes): (r: Option<Bytes>) {
    var local := FILE_SCHEME + [SLASH];
    var host := FILE_SCHEME + LOCALHOST + [SLASH];
    if local <= uri then Some([SLASH] + AsText(Decode(uri[|local|..]), lossy))
    else if host <= uri then Some([SLASH] + AsText(Decode(uri[|host|..]), lossy))
    else None
  }

  function AsText(s: Bytes, lossy: Bytes -> Bytes): (r: Bytes) {
    if ValidUtf8(s) then s else lossy(s)
  }

  lemma DecodePlain(b: Byte, rest: Bytes)
    requires b != PERCENT
    ensures Decode([b] + rest) == [b] + Decode(rest)
  {
    assert ([b] + rest)[1..] == rest;
  }

  lemma DecodeName(c: Component, rest: Bytes)
    ensures Decode(EncodedName(c) + rest) == NameOf(c) + Decode(rest)
  {
    match c
    case RootDir => assert [] + rest == rest && [] + Decode(rest) == Decode(rest);
    case Normal(n) => DecodeEncoded(n, rest);
    case CurDir => DecodePlain(DOT, rest);
    case ParentDir =>
      DecodePlain(DOT, rest);
      DecodePlain(DOT, [DOT] + rest);
      assert [DOT, DOT] + rest == [DOT] + ([DOT] + rest);
      assert [DOT, DOT] + Decode(rest) == [DOT] + ([DOT] + Decode(rest));
  }

  lemma {:induction false} DecodeJoin(cs: seq<Component>)
    ensures Decode(EncodedJoin(cs)) == Join(cs)
    decreases |cs|
  {
    if cs != [] {
      if |cs| == 1 {
        DecodeName(cs[0], []);
        assert EncodedName(cs[0]) + [] == EncodedName(cs[0]) && NameOf(cs[0]) + [] == NameOf(cs[0]);
      } else {
        var rest := EncodedJoin(cs[1..]);
        DecodeJoin(cs[1..]);
        DecodeName(cs[0], [SLASH] + rest);
        DecodePlain(SLASH, rest);
        assert EncodedName(cs[0]) + ([SLASH] + rest) == EncodedName(cs[0]) + [SLASH] + rest;
        assert NameOf(cs[0]) + ([SLASH] + Join(cs[1..])) == NameOf(cs[0]) + [SLASH] + Join(cs[1..]);
      }
    }
  }

  lemma NameIsText(c: Component)
    requires IsText(c)
    ensures ValidUtf8(NameOf(c)) && ValidUtf8([SLASH])
  {
    assert ValidUtf8([]) && ValidUtf8([DOT]) && ValidUtf8([SLASH]);
    ValidConcat([DOT], [DOT]);
    assert [DOT] + [DOT] == [DOT, DOT];
  }

  lemma {:induction false} JoinIsText(cs: seq<Component>)
    requires Encodable(cs)
    ensures ValidUtf8(Join(cs))
    decreases |cs|
  {
    if cs != [] {
      NameIsText(cs[0]);
      if |cs| > 1 {
        JoinIsText(cs[1..]);
        ValidConcat(NameOf(cs[0]), [SLASH]);
        ValidConcat(NameOf(cs[0]) + [SLASH], Join(cs[1..]));
      }
    }
  }

  /**
    The round trip: the URI of an absolute path leads back to a path with the
    same components, written without repeated slashes and `.` parts.
   */
  lemma RoundTrip(path: Bytes, lossy: Bytes -> Bytes)
    requires Absolute(path) && Encodable(Below(path))
    ensures PathOf(UriOf(Below(path)), lossy) == Some([SLASH] + Join(Below(path)))
    ensures Absolute([SLASH] + Join(Below(path)))
    ensures Below([SLASH] + Join(Below(path))) == Below(path)
  {
    var cs := Below(path);
    var local := FILE_SCHEME + [SLASH];
    assert UriOf(cs)[|local|..] == EncodedJoin(cs);
    assert local <= UriOf(cs);
    DecodeJoin(cs);
    JoinIsText(cs);
    SplitHasNoSlash(path[1..]);
    PartsAreProper(Split(path[1..], SLASH));
    SplitJoined(cs);
    assert ([SLASH] + Join(cs))[1..] == Join(cs);
  }

  // ----- Paths by their parts ---------------------------------------------------------------------------

  /** Parts with a slash in front of each. */
  function SlashParts(ps: seq<Bytes>): (r: Bytes) { Prefixed(ps, 47) }

  predicate AreParts(ps: seq<Bytes>) {
    forall k :: 0 <= k < |ps| ==> 47 !in ps[k]
  }

  lemma SplitSlashParts(ps: seq<Bytes>)
    requires ps != [] && AreParts(ps)
    ensures Absolute(SlashParts(ps)) && Split(SlashParts(ps)[1..], SLASH) == ps
  {
    SplitPrefixed(ps, SLASH);
  }

  lemma {:induction false} SlashSplit(s: Bytes)
    ensures AreParts(Split(s, SLASH)) && SlashParts(Split(s, SLASH)) == [SLASH] + s
    decreases |s|
  {
    SplitHasNoSlash(s);
    if s == [] {
      assert Split(s, SLASH) == [s] + [];
      PrefixedCons(s, [], SLASH);
    } else {
      SlashSplit(s[1..]);
      SlashSplitNext(s[0], s[1..], Split(s[1..], SLASH));
      assert [s[0]] + s[1..] == s;
    }
  }

  lemma SlashSplitNext(c: Byte, t: Bytes, qs: seq<Bytes>)
    requires qs != [] && SlashParts(qs) == [SLASH] + t
    ensures SlashParts(if c == SLASH then [[]] + qs else [[c] + qs[0]] + qs[1..]) == [SLASH] + ([c] + t)
  {
    if c == SLASH {
      PrefixedCons([], qs, SLASH);
      assert [] + SlashParts(qs) == SlashParts(qs);
    } else {
      var (q, rest) := (qs[0], qs[1..]);
      assert qs == [q] + rest;
      PrefixedCons(q, rest, SLASH);
      BehindFirst(SLASH, t);
      BehindFirst(SLASH, q + SlashParts(rest));
      PrefixedCons([c] + q, rest, SLASH);
      ConcatAssoc([c], q, SlashParts(rest));
    }
  }

  /** Every absolute path is written by its parts. */
  lemma AbsoluteIsParts(path: Bytes) returns (ps: seq<Bytes>)
    requires Absolute(path)
    ensures ps != [] && AreParts(ps) && SlashParts(ps) == path
  {
    ps := Split(path[1..], SLASH);
    SlashSplit(path[1..]);
    assert [SLASH] + path[1..] == path;
  }

  /** The components of the path that the parts write. */
  function Named(ps: seq<Bytes>): (r: seq<Component>)
    requires AreParts(ps)
  {
    if ps == [] then [] else SplitSlashParts(ps); Below(SlashParts(ps))
  }

  lemma NamedIsParts(ps: seq<Bytes>)
    requires AreParts(ps)
    ensures Named(ps) == Parts(ps)
  {
    if ps != [] { SplitSlashParts(ps); }
  }

  lemma {:induction false} PartsConcat(ps: seq<Bytes>, qs: seq<Bytes>)
    ensures Parts(ps + qs) == Parts(ps) + Parts(qs)
    decreases |ps|
  {
    if ps == [] {
      assert ps + qs == qs;
    } else {
      PartsConcat(ps[1..], qs);
      assert (ps + qs)[1..] == ps[1..] + qs && (ps + qs)[0] == ps[0];
      ConcatAssoc(Part(ps[0]), Parts(ps[1..]), Parts(qs));
    }
  }

  /** What one part adds, wherever it stands in a path: `..` the parent, an empty part and `.` nothing,
      any other part its own name - one that starts with a dot too. */
  lemma PartAdds(before: seq<Bytes>, part: Bytes, after: seq<Bytes>)
    requires AreParts(before) && AreParts(after) && 47 !in part
    ensures AreParts(before + [part] + after)
    ensures Named(before + [part] + after)
         == Named(before)
            + (if part == [] || part == [46] then [] else if part == [46, 46] then [ParentDir] else [Normal(part)])
            + Named(after)
  {
    var ps := before + [part] + after;
    PartsConcat(before + [part], after);
    PartsConcat(before, [part]);
    OnePart(part);
    NamedIsParts(before);
    NamedIsParts(after);
    NamedIsParts(ps);
  }

  lemma OnePart(part: Bytes)
    ensures Parts([part])
         == if part == [] || part == [46] then [] else if part == [46, 46] then [ParentDir] else [Normal(part)]
  {
    assert Parts([part]) == Part(part) + Parts([]);
  }

  /** What a file or directory can be called. */
  predicate IsName(n: Bytes) {
    n != [] && 47 !in n && n != [46] && n != [46, 46]
  }

  predicate AreNames(ns: seq<Bytes>) {
    forall k :: 0 <= k < |ns| ==> IsName(ns[k])
  }

  function Normals(ns: seq<Bytes>): (r: seq<Component>)
    ensures |r| == |ns| && forall k :: 0 <= k < |r| ==> r[k] == Normal(ns[k])
  {
    seq(|ns|, k requires 0 <= k < |ns| => Normal(ns[k]))
  }

  /** The names a path is written with are its components, in order. */
  lemma NamesBelow(ns: seq<Bytes>)
    requires AreNames(ns)
    ensures AreParts(ns) && Named(ns) == Normals(ns)
  {
    NamedIsParts(ns);
    PartsOfNames(ns);
  }

  lemma {:induction false} PartsOfNames(ns: seq<Bytes>)
    requires AreNames(ns)
    ensures Parts(ns) == Normals(ns)
    decreases |ns|
  {
    if ns != [] {
      PartsOfNames(ns[1..]);
      assert IsName(ns[0]);
      assert Part(ns[0]) == [Normal(ns[0])];
      assert Normals(ns) == [Normal(ns[0])] + Normals(ns[1..]);
    }
  }

  lemma {:induction false} JoinNames(ns: seq<Bytes>)
    requires ns != []
    ensures [SLASH] + Join(Normals(ns)) == SlashParts(ns)
    decreases |ns|
  {
    var (cs, rest) := (Normals(ns), ns[1..]);
    assert ns == [ns[0]] + rest && cs[1..] == Normals(rest);
    PrefixedCons(ns[0], rest, SLASH);
    if rest == [] {
      assert ns[0] + SlashParts(rest) == ns[0];
    } else {
      JoinNames(rest);
      ConcatAssoc(ns[0], [SLASH], Join(cs[1..]));
    }
  }

  lemma {:induction false} EncodedJoinNames(ns: seq<Bytes>)
    requires ns != []
    ensures [SLASH] + EncodedJoin(Normals(ns)) == SlashParts(Encodings(ns))
    decreases |ns|
  {
    var (cs, es, rest) := (Normals(ns), Encodings(ns), ns[1..]);
    assert cs[1..] == Normals(rest) && es == [es[0]] + Encodings(rest);
    PrefixedCons(es[0], Encodings(rest), SLASH);
    if rest == [] {
      assert es[0] + SlashParts(Encodings(rest)) == es[0];
    } else {
      EncodedJoinNames(rest);
      ConcatAssoc(es[0], [SLASH], EncodedJoin(cs[1..]));
    }
  }

  function Encodings(ns: seq<Bytes>): (r: seq<Bytes>)
    ensures |r| == |ns| && forall k :: 0 <= k < |r| ==> r[k] == Encode(ns[k])
  {
    seq(|ns|, k requires 0 <= k < |ns| => Encode(ns[k]))
  }

  /** A path of names that are text has the URI `file://` with a slash and an encoded name for each, and
      that URI leads back to the very same path, byte for byte. */
  lemma NamesRoundTrip(ns: seq<Bytes>, lossy: Bytes -> Bytes)
    requires ns != [] && AreNames(ns) && forall k :: 0 <= k < |ns| ==> ValidUtf8(ns[k])
    ensures var path := SlashParts(ns);
            && Absolute(path) && Encodable(Below(path))
            && UriOf(Below(path)) == [102, 105, 108, 101, 58, 47, 47] + SlashParts(Encodings(ns))
            && PathOf(UriOf(Below(path)), lossy) == Some(path)
  {
    var (path, cs) := (SlashParts(ns), Normals(ns));
    BelowNames(ns, path, cs);
    RoundTrip(path, lossy);
    JoinNames(ns);
    UriOfNames(ns, cs);
  }

  lemma BelowNames(ns: seq<Bytes>, path: Bytes, cs: seq<Component>)
    requires ns != [] && AreNames(ns) && path == SlashParts(ns) && cs == Normals(ns)
    ensures Absolute(path) && Below(path) == cs
  {
    NamesBelow(ns);
    SplitSlashParts(ns);
  }

  lemma UriOfNames(ns: seq<Bytes>, cs: seq<Component>)
    requires ns != [] && cs == Normals(ns)
    ensures UriOf(cs) == [102, 105, 108, 101, 58, 47, 47] + SlashParts(Encodings(ns))
  {
    EncodedJoinNames(ns);
    ConcatAssoc(FILE_SCHEME, [SLASH], EncodedJoin(cs));
  }

  /** `file://localhost/` means `file:///`, and no other beginning means anything. */
  lemma PathOfUri(rest: Bytes, lossy: Bytes -> Bytes)
    ensures var (local, host) := (LOCAL_PREFIX + rest, HOST_PREFIX + rest);
            PathOf(host, lossy) == PathOf(local, lossy) == Some([47] + AsText(Decode(rest), lossy))
    ensures !(LOCAL_PREFIX <= rest) && !(HOST_PREFIX <= rest) ==> PathOf(rest, lossy) == None
  {
    assert FILE_SCHEME + [SLASH] == LOCAL_PREFIX;
    assert FILE_SCHEME + LOCALHOST + [SLASH] == HOST_PREFIX;
    assert (LOCAL_PREFIX + rest)[|LOCAL_PREFIX|..] == rest && (HOST_PREFIX + rest)[|HOST_PREFIX|..] == rest;
    assert (HOST_PREFIX + rest)[7] != SLASH;
  }

  /** Two absolute paths have the same URI exactly when they have the same components. */
  lemma SameUriIffSamePath(p: Bytes, q: Bytes)
    requires Absolute(p) && Encodable(Below(p))
    requires Absolute(q) && Encodable(Below(q))
    ensures UriOf(Below(p)) == UriOf(Below(q)) <==> Below(p) == Below(q)
  {
    RoundTrip(p, s => s);
    RoundTrip(q, s => s);
  }

  lemma NameIsUriPath(c: Component, rest: Bytes)
    requires UriPath(rest)
    ensures UriPath(EncodedName(c) + rest)
  {
    match c
    case RootDir => assert [] + rest == rest;
    case Normal(n) => EncodedIsUriPath(n, rest);
    case CurDir => assert ([DOT] + rest)[1..] == rest;
    case ParentDir =>
      assert ([DOT] + rest)[1..] == rest;
      assert ([DOT, DOT] + rest)[1..] == [DOT] + rest;
  }

  lemma SlashIsUriPath(rest: Bytes)
    requires UriPath(rest)
    ensures UriPath([SLASH] + rest)
  {
    assert ([SLASH] + rest)[1..] == rest;
  }

  lemma {:induction false} JoinIsUriPath(cs: seq<Component>)
    ensures UriPath(EncodedJoin(cs))
    decreases |cs|
  {
    if |cs| == 1 {
      NameIsUriPath(cs[0], []);
      assert EncodedName(cs[0]) + [] == EncodedName(cs[0]);
    } else if |cs| > 1 {
      var rest := EncodedJoin(cs[1..]);
      JoinIsUriPath(cs[1..]);
      SlashIsUriPath(rest);
      NameIsUriPath(cs[0], [SLASH] + rest);
      assert EncodedName(cs[0]) + ([SLASH] + rest) == EncodedName(cs[0]) + [SLASH] + rest;
    }
  }

  /** After `file://` a URI holds nothing but slashes, path characters and complete escapes. */
  lemma UriIsWellFormed(cs: seq<Component>)
    ensures FILE_SCHEME + [SLASH] <= UriOf(cs)
    ensures UriPath(UriOf(cs)[|FILE_SCHEME|..])
  {
    JoinIsUriPath(cs);
    SlashIsUriPath(EncodedJoin(cs));
    assert UriOf(cs)[|FILE_SCHEME|..] == [SLASH] + EncodedJoin(cs);
  }

  // ----- The functions as they run ------------------------------------------------------------------------

  lemma {:induction false} EncodeNext(s: Bytes, i: nat)
    requires i < |s|
    ensures Encode(s[..i + 1]) == Encode(s[..i]) + EncodeByte(s[i])
    decreases i
  {
    var u := s[..i + 1];
    if i == 0 {
      assert u[1..] == [] && s[..i] == [];
    } else {
      EncodeNext(s[1..], i - 1);
      assert u[1..] == s[1..][..i] && s[..i][1..] == s[1..][..i - 1];
    }
  }

  /** Append the encoding of one segment to the URI under construction. */
  method PercentEncodeSegment(before: Bytes, segment: Bytes) returns (out: Bytes)
    ensures out == before + Encode(segment)
  {
    out := before;
    var i := 0;
    assert segment[..0] == [];
    while i < |segment|
      invariant 0 <= i <= |segment|
      invariant out == before + Encode(segment[..i])
    {
      EncodeNext(segment, i);
      out := out + EncodeByte(segment[i]);
      i := i + 1;
    }
    assert segment[..i] == segment;
  }

  lemma DecodeFrom(s: Bytes, i: nat, out: Bytes)
    requires i < |s|
    ensures
      out + Decode(s[i..])
      == if EscapeAt(s[i..]) then out + [FromHex(s[i + 1]).value * 16 + FromHex(s[i + 2]).value] + Decode(s[i + 3..])
         else out + [s[i]] + Decode(s[i + 1..])
  {
    assert s[i..][1..] == s[i + 1..];
    if EscapeAt(s[i..]) {
      assert s[i..][3..] == s[i + 3..];
    }
  }

  /** The decoding loop never reads past the end. */
  method DecodeBytes(input: Bytes) returns (out: Bytes)
    ensures out == Decode(input)
  {
    out := [];
    var i := 0;
    assert input[0..] == input;
    while i < |input|
      invariant 0 <= i <= |input|
      invariant out + Decode(input[i..]) == Decode(input)
    {
      DecodeFrom(input, i, out);
      if input[i] == PERCENT && i + 2 < |input| && FromHex(input[i + 1]).Some? && FromHex(input[i + 2]).Some? {
        out := out + [FromHex(input[i + 1]).value * 16 + FromHex(input[i + 2]).value];
        i := i + 3;
      } else {
        out := out + [input[i]];
        i := i + 1;
      }
    }
  }

  /** The URI as the loop has written it after `n` names, each followed by a slash. */
  ghost function Slashed(cs: seq<Component>, n: nat): (r: Bytes)
    requires n <= |cs|
  {
    if n == 0 then FILE_SCHEME + [SLASH] else Slashed(cs, n - 1) + EncodedName(cs[n - 1]) + [SLASH]
  }

  lemma SlashedNext(cs: seq<Component>, n: nat, next: nat)
    requires n < |cs| && next == n + 1
    ensures Slashed(cs, next) == Slashed(cs, n) + EncodedName(cs[n]) + [SLASH]
  {
  }

  lemma {:induction false} SlashedThenJoin(cs: seq<Component>, n: nat)
    requires n < |cs|
    ensures Slashed(cs, n) + EncodedJoin(cs[n..]) == UriOf(cs)
    decreases n
  {
    if n == 0 {
      assert cs[0..] == cs;
    } else {
      var m := n - 1;
      SlashedThenJoin(cs, m);
      assert cs[m..][1..] == cs[n..];
      assert EncodedJoin(cs[m..]) == EncodedName(cs[m]) + [SLASH] + EncodedJoin(cs[n..]);
      assert Slashed(cs, n) + EncodedJoin(cs[n..]) == Slashed(cs, m) + EncodedJoin(cs[m..]);
    }
  }

  lemma JoinOfOne(cs: seq<Component>)
    requires |cs| == 1
    ensures EncodedJoin(cs) == EncodedName(cs[0])
  {
  }

  /** Dropping the last slash leaves the slashes between the names. */
  lemma SlashedIsJoin(cs: seq<Component>)
    requires cs != []
    ensures Slashed(cs, |cs|) == UriOf(cs) + [SLASH]
  {
    var m := |cs| - 1;
    SlashedThenJoin(cs, m);
    JoinOfOne(cs[m..]);
    SlashedNext(cs, m, m + 1);
    assert Slashed(cs, m) + EncodedName(cs[m]) == UriOf(cs);
  }

  method PushComponent(before: Bytes, c: Component) returns (uri: Bytes)
    ensures uri == before + EncodedName(c) + [SLASH]
  {
    match c {
      case Normal(n) =>
        uri := PercentEncodeSegment(before, n);
        uri := uri + [SLASH];
      case ParentDir => uri := before + [DOT, DOT, SLASH];
      case CurDir => uri := before + [DOT, SLASH];
      case RootDir => uri := before + [SLASH];
    }
  }

  /** The loop over the components of a path, which stops at a name that is not text. */
  method WriteComponents(cs: seq<Component>) returns (r: Option<Bytes>)
    ensures r.Some? <==> Encodable(cs)
    ensures r.Some? ==> r.value == Slashed(cs, |cs|)
  {
    var uri := FILE_SCHEME + [SLASH];
    var i := 0;
    while i < |cs|
      invariant 0 <= i <= |cs|
      invariant forall k :: 0 <= k < i ==> IsText(cs[k])
      invariant uri == Slashed(cs, i)
    {
      SlashedNext(cs, i, i + 1);
      if !IsText(cs[i]) {
        return None;
      }
      uri := PushComponent(uri, cs[i]);
      i := i + 1;
    }
    r := Some(uri);
  }

  /** No URI for a relative path or one that is not text; else the one `RoundTrip` is about. */
  method PathToFileUri(path: Bytes) returns (r: Option<Bytes>)
    ensures r.Some? <==> Absolute(path) && Encodable(Below(path))
    ensures r.Some? ==> r.value == UriOf(Below(path))
  {
    if path == [] || path[0] != SLASH {
      return None;
    }
    var cs := Below(path);
    var written := WriteComponents(cs);
    if written == None {
      return None;
    }
    var uri := written.value;
    if cs != [] {
      SlashedIsJoin(cs);
    }
    if |uri| > |FILE_SCHEME| + 1 && uri[|uri| - 1] == SLASH {
      uri := uri[..|uri| - 1];
    }
    r := Some(uri);
  }

  /** The path of a URI; on a URI `PathToFileUri` writes, the path it was written for. */
  method FileUriToPath(uri: Bytes, lossy: Bytes -> Bytes) returns (r: Option<Bytes>)
    ensures r == PathOf(uri, lossy)
  {
    var local := FILE_SCHEME + [SLASH];
    var host := FILE_SCHEME + LOCALHOST + [SLASH];
    var rest;
    if local <= uri {
      rest := uri[|local|..];
    } else if host <= uri {
      rest := uri[|host|..];
    } else {
      return None;
    }
    var decoded := DecodeBytes(rest);
    r := Some([SLASH] + if ValidUtf8(decoded) then decoded else lossy(decoded));
  }
}
