/**
  Reading, setting and removing values by pointer. A pointer is the list of keys the program
  splits out of its text; the empty list is the root.
 */
module Pointers {
  import opened Json
  import opened Utils

  // ----- Pointer text ---------------------------------------------------------------------------

  function TrimSlashes(s: string): (r: string) {
    if s != "" && s[0] == '/' then TrimSlashes(s[1..]) else s
  }

  /** The keys of a pointer text. The text `/` names the root, not the key "". */
  function Keys(pointer: string): (r: Path) {
    if pointer == "" || pointer == "/" then [] else Split(TrimSlashes(pointer), '/')
  }

  /** The pointer text of a key list. */
  function Text(p: Path): (r: string) { Prefixed(p, '/') }

  predicate Plain(key: string) { '/' !in key }

  lemma SplitText(p: Path)
    requires p != [] && forall k :: 0 <= k < |p| ==> Plain(p[k])
    ensures Text(p) != "" && Text(p)[0] == '/' && Split(Text(p)[1..], '/') == p
    ensures p[0] != "" ==> Text(p)[1..] != "" && Text(p)[1..][0] == p[0][0]
  {
    SplitPrefixed(p, '/');
    assert p == [p[0]] + p[1..];
    PrefixedCons(p[0], p[1..], '/');
  }

  /** Pointer texts name every list of keys without `/`, as long as the first key is not empty. */
  lemma KeysOfText(p: Path)
    requires forall k :: 0 <= k < |p| ==> Plain(p[k])
    requires p != [] ==> p[0] != ""
    ensures Keys(Text(p)) == p
  {
    if p != [] {
      SplitText(p);
      assert Text(p)[1..][0] == p[0][0];
      assert TrimSlashes(Text(p)) == Text(p)[1..];
    }
  }

  function Slashes(n: nat): (r: string)
    ensures |r| == n && forall k :: 0 <= k < n ==> r[k] == '/'
  {
    seq(n, _ => '/')
  }

  lemma {:induction false} TrimLeading(n: nat, s: string)
    requires s == "" || s[0] != '/'
    ensures TrimSlashes(Slashes(n) + s) == s
    decreases n
  {
    if n == 0 {
      assert Slashes(0) + s == s;
    } else {
      TrimLeading(n - 1, s);
      assert (Slashes(n) + s)[1..] == Slashes(n - 1) + s;
    }
  }

  /** The slashes in front, none or many, make no difference to a pointer with keys. */
  lemma KeysOfSlashed(n: nat, p: Path)
    requires p != [] && p[0] != "" && forall k :: 0 <= k < |p| ==> Plain(p[k])
    ensures Keys(Slashes(n) + Text(p)[1..]) == p
  {
    var s := Text(p)[1..];
    SplitText(p);
    assert s[0] == p[0][0];
    TrimLeading(n, s);
    assert (Slashes(n) + s)[n] == s[0];
  }

  /** Without keys, none and one name the root, and more of them the key "". */
  lemma KeysOfSlashes(n: nat)
    ensures Keys(Slashes(n)) == if n > 1 then [""] else []
  {
    TrimLeading(n, "");
    assert Slashes(n) + "" == Slashes(n);
    assert n == 1 ==> Slashes(n) == "/";
  }

  // ----- Reading and writing ----------------------------------------------------------------------

  function Lookup(v: Json, p: Path): (r: Option<Json>)
    decreases |p|
  {
    if p == [] then Some(v)
    else if v.Obj? && p[0] in v.fields then Lookup(v.fields[p[0]], p[1..])
    else None
  }

  /** What stands under `k`, or the object that would be created there. */
  function Below(v: Json, k: string): (r: Json)
    requires v.Obj?
  {
    if k in v.fields then v.fields[k] else EMPTY_OBJECT
  }

  /** Set the value at `p`, creating objects on the way; nothing happens below a non-object. */
  function Set(v: Json, p: Path, x: Json): (r: Json)
    decreases |p|
  {
    if p == [] then x
    else if v.Obj? then Obj(v.fields[p[0] := Set(Below(v, p[0]), p[1..], x)])
    else v
  }

  /** Remove the value at `p`; the root cannot be removed. */
  function Remove(v: Json, p: Path): (r: Json)
    decreases |p|
  {
    if p == [] || !v.Obj? || p[0] !in v.fields then v
    else if |p| == 1 then Obj(v.fields - {p[0]})
    else Obj(v.fields[p[0] := Remove(v.fields[p[0]], p[1..])])
  }

  /** A non-object stands in the way of `p`. */
  predicate Blocked(v: Json, p: Path)
    decreases |p|
  {
    p != [] && (!v.Obj? || (p[0] in v.fields && Blocked(v.fields[p[0]], p[1..])))
  }

  /** Neither pointer is a prefix of the other. */
  predicate Apart(p: Path, q: Path) {
    !(p <= q) && !(q <= p)
  }

  /** Setting reaches its target unless blocked, and then changes nothing at all. */
  lemma {:induction false} SetReaches(v: Json, p: Path, x: Json)
    ensures Blocked(v, p) ==> Set(v, p, x) == v
    ensures !Blocked(v, p) ==> Lookup(Set(v, p, x), p) == Some(x)
    decreases |p|
  {
    if p != [] && v.Obj? {
      SetReaches(Below(v, p[0]), p[1..], x);
    }
  }

  lemma {:induction false} BlockedHoldsNothing(v: Json, p: Path)
    requires Blocked(v, p)
    ensures Lookup(v, p) == None
    decreases |p|
  {
    if v.Obj? { BlockedHoldsNothing(v.fields[p[0]], p[1..]); }
  }

  /** A set changes nothing exactly when it is blocked or its value is already there. */
  lemma {:induction false} SetChangesNothingIff(v: Json, p: Path, x: Json)
    ensures Set(v, p, x) == v <==> Blocked(v, p) || Lookup(v, p) == Some(x)
    decreases |p|
  {
    if p != [] && v.Obj? {
      var (k, m) := (p[0], v.fields);
      if k in m {
        SetChangesNothingIff(m[k], p[1..], x);
        assert Set(v, p, x).fields[k] == Set(m[k], p[1..], x);
        if Set(m[k], p[1..], x) == m[k] { assert m[k := m[k]] == m; }
      } else {
        assert k in Set(v, p, x).fields;
      }
    }
  }

  /** Setting leaves every pointer apart from its own as it was. */
  lemma {:induction false} SetLeaves(v: Json, p: Path, x: Json, q: Path)
    requires Apart(p, q)
    ensures Lookup(Set(v, p, x), q) == Lookup(v, q)
    decreases |p|
  {
    if v.Obj? && p[0] == q[0] {
      assert p == [p[0]] + p[1..] && q == [q[0]] + q[1..];
      SetLeaves(Below(v, p[0]), p[1..], x, q[1..]);
    }
  }

  /** Removing leaves nothing at its target ... */
  lemma {:induction false} RemoveReaches(v: Json, p: Path)
    requires p != []
    ensures Lookup(Remove(v, p), p) == None
    decreases |p|
  {
    if v.Obj? && p[0] in v.fields && |p| > 1 { RemoveReaches(v.fields[p[0]], p[1..]); }
  }

  /** ... and every pointer apart from it as it was. */
  lemma {:induction false} RemoveLeaves(v: Json, p: Path, q: Path)
    requires Apart(p, q)
    ensures Lookup(Remove(v, p), q) == Lookup(v, q)
    decreases |p|
  {
    if v.Obj? && p[0] in v.fields && p[0] == q[0] {
      assert p == [p[0]] + p[1..] && q == [q[0]] + q[1..];
      if |p| > 1 { RemoveLeaves(v.fields[p[0]], p[1..], q[1..]); }
    }
  }

  /** Removing can only take away. */
  lemma {:induction false} RemoveAddsNothing(v: Json, p: Path, q: Path)
    requires Lookup(v, q) == None
    ensures Lookup(Remove(v, p), q) == None
    decreases |p|
  {
    if p != [] && v.Obj? && p[0] in v.fields && q[0] == p[0] && |p| > 1 {
      RemoveAddsNothing(v.fields[p[0]], p[1..], q[1..]);
    }
  }

  // ----- Order ------------------------------------------------------------------------------------

  /** Any two removals commute. */
  lemma {:induction false} RemovesCommute(v: Json, p: Path, q: Path)
    ensures Remove(Remove(v, p), q) == Remove(Remove(v, q), p)
    decreases |p|
  {
    if p != [] && q != [] && v.Obj? && p[0] in v.fields && q[0] in v.fields {
      if p[0] == q[0] {
        if |p| > 1 && |q| > 1 {
          RemovesCommute(v.fields[p[0]], p[1..], q[1..]);
        }
      } else {
        var m := v.fields;
        assert (m - {p[0]}) - {q[0]} == (m - {q[0]}) - {p[0]};
      }
    }
  }

  /** Two sets under one key are the two sets of what stands there. */
  lemma SetsUnderKey(v: Json, p: Path, x: Json, q: Path, y: Json)
    requires v.Obj? && p != [] && q != [] && p[0] == q[0]
    ensures Set(Set(v, p, x), q, y) == Obj(v.fields[p[0] := Set(Set(Below(v, p[0]), p[1..], x), q[1..], y)])
  {
  }

  lemma SetsUnderKeys(v: Json, p: Path, x: Json, q: Path, y: Json)
    requires v.Obj? && p != [] && q != [] && p[0] != q[0]
    ensures Set(Set(v, p, x), q, y)
         == Obj(v.fields[p[0] := Set(Below(v, p[0]), p[1..], x)][q[0] := Set(Below(v, q[0]), q[1..], y)])
  {
  }

  /** Sets of pointers apart from each other commute. */
  lemma {:induction false} SetsCommute(v: Json, p: Path, x: Json, q: Path, y: Json)
    requires Apart(p, q)
    ensures Set(Set(v, p, x), q, y) == Set(Set(v, q, y), p, x)
    decreases |p|
  {
    if v.Obj? {
      if p[0] == q[0] {
        assert p == [p[0]] + p[1..] && q == [q[0]] + q[1..];
        SetsCommute(Below(v, p[0]), p[1..], x, q[1..], y);
        SetsUnderKey(v, p, x, q, y);
        SetsUnderKey(v, q, y, p, x);
      } else {
        SetsUnderKeysCommute(v, p, x, q, y);
      }
    }
  }

  lemma SetsUnderKeysCommute(v: Json, p: Path, x: Json, q: Path, y: Json)
    requires v.Obj? && p != [] && q != [] && p[0] != q[0]
    ensures Set(Set(v, p, x), q, y) == Set(Set(v, q, y), p, x)
  {
    SetsUnderKeys(v, p, x, q, y);
    SetsUnderKeys(v, q, y, p, x);
    SwapUpdates(v.fields, p[0], Set(Below(v, p[0]), p[1..], x), q[0], Set(Below(v, q[0]), q[1..], y));
  }

  lemma SwapUpdates(m: map<string, Json>, k: string, x: Json, l: string, y: Json)
    requires k != l
    ensures m[k := x][l := y] == m[l := y][k := x]
  {
  }

  /** Sets of a pointer and one below it commute exactly when a non-object is in the way, outside or
      inside the value set at the upper pointer, or that value already holds the lower one. */
  lemma {:induction false} NestedSetsCommuteIff(v: Json, p: Path, x: Json, r: Path, y: Json)
    ensures Set(Set(v, p, x), p + r, y) == Set(Set(v, p + r, y), p, x)
            <==> Blocked(v, p) || Blocked(x, r) || Lookup(x, r) == Some(y)
    decreases |p|
  {
    SetChangesNothingIff(x, r, y);
    if p == [] {
      assert p + r == r;
    } else if v.Obj? {
      var (k, q) := (p[0], p + r);
      assert q[1..] == p[1..] + r;
      NestedSetsCommuteIff(Below(v, k), p[1..], x, r, y);
      SetsUnderKey(v, p, x, q, y);
      SetsUnderKey(v, q, y, p, x);
      assert Set(Set(v, p, x), q, y).fields[k] == Set(Set(Below(v, k), p[1..], x), q[1..], y);
      assert Set(Set(v, q, y), p, x).fields[k] == Set(Set(Below(v, k), q[1..], y), p[1..], x);
    }
  }

  // ----- The strip passes, seen at one path ------------------------------------------------------

  function At(file: Option<Json>, p: Path): (r: Option<Json>) {
    if file.Some? then Lookup(file.value, p) else None
  }

  lemma AtChild(file: Option<Json>, p: Path)
    requires p != []
    ensures At(file, p) == At(Child(file, p[0]), p[1..])
  {
  }

  lemma {:induction false} StripNullsAt(x: Json, p: Path)
    ensures Lookup(x, p).Some? && StripNulls(Lookup(x, p).value).Some? ==>
      StripNulls(x).Some? && Lookup(StripNulls(x).value, p) == StripNulls(Lookup(x, p).value)
    ensures Lookup(x, p).None? || StripNulls(Lookup(x, p).value).None? ==>
      StripNulls(x).None? || Lookup(StripNulls(x).value, p) == None
    decreases |p|
  {
    if p != [] && x.Obj? && p[0] in x.fields {
      var m := x.fields;
      StripNullsAt(m[p[0]], p[1..]);
      var f := map k | k in m && StripNulls(m[k]).Some? :: StripNulls(m[k]).value;
      assert p[0] in f ==> f != map[];
    }
  }

  /** What the second pass makes of the value at `p`. */
  function DefaultsAt(v: Json, p: Path, file: Option<Json>): (r: Option<Json>) {
    if p == [] then StripDefaults(v, file) else StripField(p[|p| - 1], v, At(file, p))
  }

  lemma {:induction false} StripDefaultsAt(x: Json, p: Path, file: Option<Json>)
    ensures Lookup(x, p).Some? && DefaultsAt(Lookup(x, p).value, p, file).Some? ==>
      StripDefaults(x, file).Some? && Lookup(StripDefaults(x, file).value, p) == DefaultsAt(Lookup(x, p).value, p, file)
    ensures Lookup(x, p).None? || DefaultsAt(Lookup(x, p).value, p, file).None? ==>
      StripDefaults(x, file).None? || Lookup(StripDefaults(x, file).value, p) == None
    decreases |p|
  {
    if p != [] && x.Obj? && p[0] in x.fields {
      AtChild(file, p);
      StripDefaultsAt(x.fields[p[0]], p[1..], Child(file, p[0]));
      if |p| > 1 { assert p[1..][|p| - 2] == p[|p| - 1]; }
      var m := x.fields;
      var f := map k | k in m && StripField(k, m[k], Child(file, k)).Some? :: StripField(k, m[k], Child(file, k)).value;
      assert p[0] in f ==> f != map[];
    }
  }
}
