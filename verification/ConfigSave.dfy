/**
  Saving changed settings into a layer file: rename legacy keys, apply deletions, apply
  changes, validate, and write back through the two strip passes.
 */
module ConfigSave {
  import opened Json
  import opened Pointers
  import opened Utils

  datatype Change = Change(path: Path, value: Json)

  const LEGACY_KEY := "orchestrator_mode"
  const CURRENT_KEY := "auto_attach"

  /** Move the value of the legacy key to its new name, unless the new name has one. */
  function Renamed(v: Json): (r: Json) {
    if v.Obj? && LEGACY_KEY in v.fields then
      var m := v.fields - {LEGACY_KEY};
      Obj(if CURRENT_KEY in m then m else m[CURRENT_KEY := v.fields[LEGACY_KEY]])
    else v
  }

  function RemoveAll(v: Json, ps: seq<Path>): (r: Json)
    decreases |ps|
  {
    if ps == [] then v else RemoveAll(Remove(v, ps[0]), ps[1..])
  }

  function SetAll(v: Json, cs: seq<Change>): (r: Json)
    decreases |cs|
  {
    if cs == [] then v else SetAll(Set(v, cs[0].path, cs[0].value), cs[1..])
  }

  /** The document after the edits. */
  function Edited(file: Option<Json>, deletions: seq<Path>, changes: seq<Change>): (r: Json) {
    SetAll(RemoveAll(Renamed(if file.Some? then file.value else EMPTY_OBJECT), deletions), changes)
  }

  /** What is written for a document, given what the file holds. */
  function Written(doc: Json, file: Option<Json>): (r: Json) {
    var stripped := StripNulls(doc);
    var clean := StripDefaults(if stripped.Some? then stripped.value else EMPTY_OBJECT, file);
    if clean.Some? then clean.value else EMPTY_OBJECT
  }

  /** The file after a save. */
  function Saved(file: Option<Json>, deletions: seq<Path>, changes: seq<Change>): (r: Json) {
    Written(Edited(file, deletions, changes), file)
  }

  // ----- A write, seen at one path -----------------------------------------------------------------

  /** Writing acts on the value at each path alone: it depends on that value and on what the
      file held at the same path, and nothing appears where the document has nothing. */
  lemma WrittenAt(doc: Json, file: Option<Json>, p: Path)
    requires p != []
    ensures Lookup(Written(doc, file), p)
         == if Lookup(doc, p).None? then None else Stripped(p[|p| - 1], Lookup(doc, p).value, At(file, p))
  {
    var stripped := StripNulls(doc);
    var x := if stripped.Some? then stripped.value else EMPTY_OBJECT;
    StripNullsAt(doc, p);
    StripDefaultsAt(x, p, file);
  }

  // ----- The edits, seen at one path --------------------------------------------------------------

  ghost predicate ApartFromAll(q: Path, ps: seq<Path>) {
    forall i :: 0 <= i < |ps| ==> Apart(ps[i], q)
  }

  ghost predicate ApartFromChanges(q: Path, cs: seq<Change>) {
    forall i :: 0 <= i < |cs| ==> Apart(cs[i].path, q)
  }

  /** No changed pointer is a prefix of another. */
  ghost predicate PairwiseApart(cs: seq<Change>) {
    forall i, j :: 0 <= i < j < |cs| ==> Apart(cs[i].path, cs[j].path)
  }

  lemma {:induction false} RemoveAllLeaves(v: Json, ps: seq<Path>, q: Path)
    requires ApartFromAll(q, ps)
    ensures Lookup(RemoveAll(v, ps), q) == Lookup(v, q)
    decreases |ps|
  {
    if ps != [] {
      RemoveLeaves(v, ps[0], q);
      RemoveAllLeaves(Remove(v, ps[0]), ps[1..], q);
    }
  }

  lemma {:induction false} SetAllLeaves(v: Json, cs: seq<Change>, q: Path)
    requires ApartFromChanges(q, cs)
    ensures Lookup(SetAll(v, cs), q) == Lookup(v, q)
    decreases |cs|
  {
    if cs != [] {
      SetLeaves(v, cs[0].path, cs[0].value, q);
      SetAllLeaves(Set(v, cs[0].path, cs[0].value), cs[1..], q);
    }
  }

  lemma {:induction false} RemoveAllAddsNothing(v: Json, ps: seq<Path>, q: Path)
    requires Lookup(v, q) == None
    ensures Lookup(RemoveAll(v, ps), q) == None
    decreases |ps|
  {
    if ps != [] {
      RemoveAddsNothing(v, ps[0], q);
      RemoveAllAddsNothing(Remove(v, ps[0]), ps[1..], q);
    }
  }

  lemma {:induction false} RemoveAllReaches(v: Json, ps: seq<Path>, i: nat)
    requires i < |ps| && ps[i] != []
    ensures Lookup(RemoveAll(v, ps), ps[i]) == None
    decreases i
  {
    if i == 0 {
      RemoveReaches(v, ps[0]);
      RemoveAllAddsNothing(Remove(v, ps[0]), ps[1..], ps[0]);
    } else {
      RemoveAllReaches(Remove(v, ps[0]), ps[1..], i - 1);
    }
  }

  lemma {:induction false} SetKeepsBlocked(v: Json, p: Path, x: Json, q: Path)
    requires Apart(p, q)
    ensures Blocked(Set(v, p, x), q) <==> Blocked(v, q)
    decreases |p|
  {
    if v.Obj? && p[0] == q[0] {
      assert p == [p[0]] + p[1..] && q == [q[0]] + q[1..];
      SetKeepsBlocked(Below(v, p[0]), p[1..], x, q[1..]);
    }
  }

  lemma {:induction false} SetAllReaches(v: Json, cs: seq<Change>, i: nat)
    requires i < |cs| && PairwiseApart(cs)
    ensures Lookup(SetAll(v, cs), cs[i].path) == if Blocked(v, cs[i].path) then None else Some(cs[i].value)
    decreases i
  {
    var v' := Set(v, cs[0].path, cs[0].value);
    if i == 0 {
      SetReaches(v, cs[0].path, cs[0].value);
      if Blocked(v, cs[0].path) { BlockedHoldsNothing(v, cs[0].path); }
      forall j | 0 <= j < |cs[1..]| ensures Apart(cs[1..][j].path, cs[0].path) { assert Apart(cs[0].path, cs[j + 1].path); }
      SetAllLeaves(v', cs[1..], cs[0].path);
    } else {
      SetKeepsBlocked(v, cs[0].path, cs[0].value, cs[i].path);
      SetAllReaches(v', cs[1..], i - 1);
    }
  }

  lemma RenamedLeaves(v: Json, q: Path)
    requires q != [] && q[0] != LEGACY_KEY && Lookup(v, q).Some?
    ensures Lookup(Renamed(v), q) == Lookup(v, q)
  {
  }

  // ----- The laws of a save -----------------------------------------------------------------------

  /** The frame: a value on file, away from every changed and deleted pointer and not under a
      renamed key, is kept exactly when it holds no null and no empty object. Empty strings and
      arrays the user wrote are kept. */
  lemma SaveKeepsIffClean(file: Json, deletions: seq<Path>, changes: seq<Change>, p: Path)
    requires p != [] && p[0] != LEGACY_KEY && Lookup(file, p).Some?
    requires ApartFromAll(p, deletions) && ApartFromChanges(p, changes)
    ensures Lookup(Saved(Some(file), deletions, changes), p) == Lookup(file, p) <==> Clean(Lookup(file, p).value)
  {
    var v := Lookup(file, p).value;
    RenamedLeaves(file, p);
    RemoveAllLeaves(Renamed(file), deletions, p);
    SetAllLeaves(RemoveAll(Renamed(file), deletions), changes, p);
    WrittenAt(Edited(Some(file), deletions, changes), Some(file), p);
    StrippedIff(p[|p| - 1], v, Some(v));
    OwnSurvivesIffClean(v);
  }

  /** An empty object on file does not survive a save that changes nothing. */
  lemma SaveLosesEmptyObject()
    ensures var file := Obj(map["languages" := EMPTY_OBJECT]);
            && Lookup(file, ["languages"]) == Some(EMPTY_OBJECT)
            && Lookup(Saved(Some(file), [], []), ["languages"]) != Some(EMPTY_OBJECT)
  {
    var file := Obj(map["languages" := EMPTY_OBJECT]);
    assert Lookup(file, ["languages"]) == Some(EMPTY_OBJECT);
    SaveKeepsIffClean(file, [], [], ["languages"]);
  }

  /** A change is read back exactly when no non-object stands in its way and its value survives
      against what the file held at the pointer. */
  lemma SaveWritesIff(file: Option<Json>, deletions: seq<Path>, changes: seq<Change>, i: nat)
    requires i < |changes| && PairwiseApart(changes) && changes[i].path != []
    ensures var (p, x) := (changes[i].path, changes[i].value);
            Lookup(Saved(file, deletions, changes), p) == Some(x)
            <==> !Blocked(Edited(file, deletions, []), p) && SurvivesField(p[|p| - 1], x, At(file, p))
  {
    var (p, x, doc) := (changes[i].path, changes[i].value, Edited(file, deletions, []));
    WrittenAt(Edited(file, deletions, changes), file, p);
    StrippedIff(p[|p| - 1], x, At(file, p));
    SetAllReaches(doc, changes, i);
  }

  lemma SetAllOfOne(v: Json, c: Change)
    ensures SetAll(v, [c]) == Set(v, c.path, c.value)
  {
    assert [c][1..] == [];
  }

  /** A change of the whole document is read back exactly when it survives against the file, or is
      the empty object. */
  lemma SaveReplacesIff(file: Option<Json>, deletions: seq<Path>, x: Json)
    ensures Saved(file, deletions, [Change([], x)]) == x <==> x == EMPTY_OBJECT || Survives(x, file)
  {
    SetAllOfOne(Edited(file, deletions, []), Change([], x));
    StrippedIff("", x, file);
  }

  /** A theme set to the empty string is not read back where the file has none. */
  lemma SaveDropsNewEmptyString()
    ensures var file := Obj(map["version" := Num(3)]);
            Lookup(Saved(Some(file), [], [Change(["theme"], Str(""))]), ["theme"]) != Some(Str(""))
  {
    SaveWritesIff(Some(Obj(map["version" := Num(3)])), [], [Change(["theme"], Str(""))], 0);
  }

  lemma RenamedMoves(v: Json, r: Path)
    requires v.Obj? && LEGACY_KEY in v.fields && CURRENT_KEY !in v.fields
    ensures Lookup(Renamed(v), [CURRENT_KEY] + r) == Lookup(v, [LEGACY_KEY] + r)
    ensures Lookup(v, [CURRENT_KEY] + r) == None
  {
    assert ([CURRENT_KEY] + r)[1..] == r && ([LEGACY_KEY] + r)[1..] == r;
  }

  /** A value under the legacy key moves to the new one exactly when it is explicit: the file held
      nothing under the new name, so that empty values are dropped on the way. */
  lemma SaveRenamesIff(file: Json, deletions: seq<Path>, changes: seq<Change>, r: Path)
    requires file.Obj? && LEGACY_KEY in file.fields && CURRENT_KEY !in file.fields
    requires Lookup(file, [LEGACY_KEY] + r).Some?
    requires ApartFromAll([CURRENT_KEY] + r, deletions) && ApartFromChanges([CURRENT_KEY] + r, changes)
    ensures var (p, v) := ([CURRENT_KEY] + r, Lookup(file, [LEGACY_KEY] + r));
            Lookup(Saved(Some(file), deletions, changes), p) == v <==> ExplicitField(p[|p| - 1], v.value)
  {
    var p := [CURRENT_KEY] + r;
    RenamedMoves(file, r);
    RemoveAllLeaves(Renamed(file), deletions, p);
    SetAllLeaves(RemoveAll(Renamed(file), deletions), changes, p);
    WrittenAt(Edited(Some(file), deletions, changes), Some(file), p);
    StrippedIff(p[|p| - 1], Lookup(file, [LEGACY_KEY] + r).value, None);
  }

  /** What validation admits under the renamed key: a boolean, null, or nothing. */
  predicate FlagAdmitted(doc: Json) {
    var v := Lookup(doc, ["auto_attach"]);
    v.Some? ==> v.value.Bool? || v.value.Null?
  }

  /** In every document that validates, the flag under the legacy key is kept under the new one. */
  lemma SaveKeepsLegacyFlag(file: Json, deletions: seq<Path>, changes: seq<Change>)
    requires file.Obj? && "orchestrator_mode" in file.fields && "auto_attach" !in file.fields
    requires ApartFromAll(["auto_attach"], deletions) && ApartFromChanges(["auto_attach"], changes)
    requires FlagAdmitted(Edited(Some(file), deletions, changes))
    ensures var v := file.fields["orchestrator_mode"];
            Lookup(Saved(Some(file), deletions, changes), ["auto_attach"]) == if v.Null? then None else Some(v)
  {
    var p := [CURRENT_KEY];
    assert [CURRENT_KEY] + [] == p && [LEGACY_KEY] + [] == [LEGACY_KEY] && [LEGACY_KEY][1..] == [];
    assert Lookup(file, [LEGACY_KEY]) == Some(file.fields[LEGACY_KEY]);
    RenamedMoves(file, []);
    RemoveAllLeaves(Renamed(file), deletions, p);
    SetAllLeaves(RemoveAll(Renamed(file), deletions), changes, p);
    var v := file.fields[LEGACY_KEY];
    assert Lookup(Edited(Some(file), deletions, changes), p) == Some(v);
    WrittenAt(Edited(Some(file), deletions, changes), Some(file), p);
    StrippedIff(CURRENT_KEY, v, None);
  }

  /** No save leaves the legacy key behind, unless a change writes it. */
  lemma SaveDropsLegacy(file: Option<Json>, deletions: seq<Path>, changes: seq<Change>)
    requires ApartFromChanges(["orchestrator_mode"], changes)
    ensures Lookup(Saved(file, deletions, changes), ["orchestrator_mode"]) == None
  {
    var v := Renamed(if file.Some? then file.value else EMPTY_OBJECT);
    assert Lookup(v, [LEGACY_KEY]) == None;
    RemoveAllAddsNothing(v, deletions, [LEGACY_KEY]);
    SetAllLeaves(RemoveAll(v, deletions), changes, [LEGACY_KEY]);
    WrittenAt(Edited(file, deletions, changes), file, [LEGACY_KEY]);
  }

  // ----- Saving again ---------------------------------------------------------------------------------

  /** A save that changes nothing leaves a file without the legacy key as it is exactly when the file
      is clean or the empty object. */
  lemma SaveAgainIff(r: Json)
    requires Lookup(r, [LEGACY_KEY]) == None
    ensures Saved(Some(r), [], []) == r <==> r == EMPTY_OBJECT || Clean(r)
  {
    assert Edited(Some(r), [], []) == r;
    StrippedIff("", r, Some(r));
    OwnSurvivesIffClean(r);
  }

  /** What a save writes settles: no object of the edited document is emptied by the second pass
      where the file holds something, unless it is the whole document. */
  predicate Settles(doc: Json, file: Option<Json>) {
    var x := StripNulls(doc);
    x.None? || Vanishes(x.value, file) || Hollow(x.value, file) || HollowFree(x.value, file)
  }

  lemma WrittenSettlesIff(doc: Json, file: Option<Json>)
    ensures Written(doc, file) == EMPTY_OBJECT || Clean(Written(doc, file)) <==> Settles(doc, file)
  {
    var x := StripNulls(doc);
    if x.Some? {
      StripNullsCleans(doc);
      VanishesIff(x.value, file);
      if !Vanishes(x.value, file) {
        HollowIff(x.value, file);
        HollowFreeIff(x.value, file);
      }
    }
  }

  /** A second save changes nothing exactly when the first one settles. */
  lemma SaveSettlesIff(file: Option<Json>, deletions: seq<Path>, changes: seq<Change>)
    requires ApartFromChanges([LEGACY_KEY], changes)
    ensures var r := Saved(file, deletions, changes);
            Saved(Some(r), [], []) == r <==> Settles(Edited(file, deletions, changes), file)
  {
    SaveDropsLegacy(file, deletions, changes);
    SaveAgainIff(Saved(file, deletions, changes));
    WrittenSettlesIff(Edited(file, deletions, changes), file);
  }

  /** A section that was empty on file and is left empty by a dropped change goes with the next save. */
  lemma SaveDoesNotSettle()
    ensures var file := Obj(map["editor" := EMPTY_OBJECT]);
            var r := Saved(Some(file), [], [Change(["editor", "rulers"], Arr([]))]);
            Lookup(r, ["editor"]) == Some(EMPTY_OBJECT) && Saved(Some(r), [], []) != r
  {
    var file := Obj(map["editor" := EMPTY_OBJECT]);
    var (c, p) := (Change(["editor", "rulers"], Arr([])), ["editor"]);
    var doc := Edited(Some(file), [], [c]);
    SetAllOfOne(file, c);
    assert c.path[1..] == ["rulers"] && ["rulers"][1..] == [];
    assert Lookup(doc, p) == Some(Obj(map["rulers" := Arr([])]));
    WrittenAt(doc, Some(file), p);
    StripRulers();
    var r := Saved(Some(file), [], [c]);
    assert Lookup(r, p) == Some(EMPTY_OBJECT);
    SaveDropsLegacy(Some(file), [], [c]);
    SaveAgainIff(r);
    assert r.Obj? && !Clean(r.fields["editor"]);
  }

  lemma StripRulers()
    ensures Stripped("editor", Obj(map["rulers" := Arr([])]), Some(EMPTY_OBJECT)) == Some(EMPTY_OBJECT)
  {
    var v := Obj(map["rulers" := Arr([])]);
    assert Clean(Arr([]));
    assert Clean(v) by {
      assert "rulers" in v.fields;
    }
    StripNullsFixes(v);
    assert StripField("rulers", Arr([]), Child(Some(EMPTY_OBJECT), "rulers")) == None;
  }

  lemma SetAllOfTwo(v: Json, c: Change, d: Change)
    ensures SetAll(v, [c, d]) == Set(Set(v, c.path, c.value), d.path, d.value)
  {
    assert [c, d][1..] == [d];
    SetAllOfOne(Set(v, c.path, c.value), d);
  }

  /** Nested pointers leave the outcome to the iteration order. */
  lemma SaveDependsOnOrder()
    ensures var (outer, inner) := (Change(["a"], Obj(map["b" := Num(1)])), Change(["a", "b"], Num(2)));
            && Lookup(Saved(None, [], [outer, inner]), ["a", "b"]) == Some(Num(2))
            && Lookup(Saved(None, [], [inner, outer]), ["a", "b"]) == Some(Num(1))
  {
    var (p, one) := (["a", "b"], Obj(map["b" := Num(1)]));
    var (outer, inner) := (Change(["a"], one), Change(p, Num(2)));
    var (x, y) := (Edited(None, [], [outer, inner]), Edited(None, [], [inner, outer]));
    SetAllOfTwo(EMPTY_OBJECT, outer, inner);
    SetAllOfTwo(EMPTY_OBJECT, inner, outer);
    assert p[1..] == ["b"] && ["b"][1..] == [] && ["a"][1..] == [];
    assert Lookup(x, p) == Some(Num(2)) && Lookup(y, p) == Some(Num(1));
    WrittenAt(x, None, p);
    WrittenAt(y, None, p);
  }

  /** What was deleted is gone, unless a change reaches back into it. */
  lemma SaveDeletes(file: Option<Json>, deletions: seq<Path>, changes: seq<Change>, i: nat)
    requires i < |deletions| && deletions[i] != [] && ApartFromChanges(deletions[i], changes)
    ensures Lookup(Saved(file, deletions, changes), deletions[i]) == None
  {
    var v := Renamed(if file.Some? then file.value else EMPTY_OBJECT);
    RemoveAllReaches(v, deletions, i);
    SetAllLeaves(RemoveAll(v, deletions), changes, deletions[i]);
    WrittenAt(Edited(file, deletions, changes), file, deletions[i]);
  }

  // ----- Order of the hash tables -------------------------------------------------------------------

  function Without<T>(s: seq<T>, i: nat): (r: seq<T>)
    requires i < |s|
  {
    s[..i] + s[i + 1..]
  }

  lemma {:induction false} RemoveEarly(v: Json, ps: seq<Path>, i: nat)
    requires i < |ps|
    ensures RemoveAll(v, ps) == RemoveAll(Remove(v, ps[i]), Without(ps, i))
    decreases i
  {
    if i == 0 {
      assert Without(ps, 0) == ps[1..];
    } else {
      RemoveEarly(Remove(v, ps[0]), ps[1..], i - 1);
      RemovesCommute(v, ps[0], ps[i]);
      assert Without(ps, i)[1..] == Without(ps[1..], i - 1);
    }
  }

  lemma WithoutMultiset<T>(s: seq<T>, i: nat)
    requires i < |s|
    ensures multiset(Without(s, i)) == multiset(s) - multiset{s[i]}
  {
    assert s == s[..i] + [s[i]] + s[i + 1..];
  }

  /** A permutation has the first element somewhere, and without it permutes the rest. */
  lemma FindFirst<T>(s: seq<T>, t: seq<T>) returns (i: nat)
    requires s != [] && multiset(s) == multiset(t)
    ensures i < |t| && t[i] == s[0] && multiset(s[1..]) == multiset(Without(t, i))
  {
    assert s[0] in multiset(t);
    i :| 0 <= i < |t| && t[i] == s[0];
    WithoutMultiset(t, i);
    assert s == [s[0]] + s[1..];
  }

  /** Deletions may be applied in any order. */
  lemma {:induction false} RemovalsAnyOrder(v: Json, ps: seq<Path>, qs: seq<Path>)
    requires multiset(ps) == multiset(qs)
    ensures RemoveAll(v, ps) == RemoveAll(v, qs)
    decreases |ps|
  {
    if ps == [] {
      assert |multiset(qs)| == 0;
    } else {
      var i := FindFirst(ps, qs);
      RemoveEarly(v, qs, i);
      RemovalsAnyOrder(Remove(v, ps[0]), ps[1..], Without(qs, i));
    }
  }

  lemma {:induction false} SetEarly(v: Json, cs: seq<Change>, i: nat)
    requires i < |cs| && PairwiseApart(cs)
    ensures SetAll(v, cs) == SetAll(Set(v, cs[i].path, cs[i].value), Without(cs, i))
    decreases i
  {
    if i == 0 {
      assert Without(cs, 0) == cs[1..];
    } else {
      SetEarly(Set(v, cs[0].path, cs[0].value), cs[1..], i - 1);
      SetsCommute(v, cs[0].path, cs[0].value, cs[i].path, cs[i].value);
      assert Without(cs, i)[1..] == Without(cs[1..], i - 1);
    }
  }

  lemma WithoutApart(cs: seq<Change>, i: nat)
    requires i < |cs| && PairwiseApart(cs)
    ensures PairwiseApart(Without(cs, i))
  {
  }

  /** Changes may be applied in any order when no changed pointer is a prefix of another. */
  lemma {:induction false} ChangesAnyOrder(v: Json, cs: seq<Change>, ds: seq<Change>)
    requires multiset(cs) == multiset(ds) && PairwiseApart(cs) && PairwiseApart(ds)
    ensures SetAll(v, cs) == SetAll(v, ds)
    decreases |cs|
  {
    if cs == [] {
      assert |multiset(ds)| == 0;
    } else {
      var i := FindFirst(cs, ds);
      SetEarly(v, ds, i);
      WithoutApart(ds, i);
      ChangesAnyOrder(Set(v, cs[0].path, cs[0].value), cs[1..], Without(ds, i));
    }
  }

  /** The saved document does not depend on the iteration order of the two hash tables. */
  lemma SavedAnyOrder(file: Option<Json>, ps: seq<Path>, qs: seq<Path>, cs: seq<Change>, ds: seq<Change>)
    requires multiset(ps) == multiset(qs) && multiset(cs) == multiset(ds) && PairwiseApart(cs) && PairwiseApart(ds)
    ensures Saved(file, ps, cs) == Saved(file, qs, ds)
  {
    var v := Renamed(if file.Some? then file.value else EMPTY_OBJECT);
    RemovalsAnyOrder(v, ps, qs);
    ChangesAnyOrder(RemoveAll(v, ps), cs, ds);
  }
}
