/**
  JSON documents and the two strip passes a document goes through before it is written.
  Objects are maps: key order does not matter to any value below. Numbers are opaque.
 */
module Json {
  import opened Utils

  datatype Json =
    | Null
    | Bool(b: bool)
    | Num(n: int)
    | Str(s: string)
    | Arr(items: seq<Json>)
    | Obj(fields: map<string, Json>)

  type Path = seq<string>

  const EMPTY_OBJECT: Json := Obj(map[])

  // ----- Nulls and empty objects --------------------------------------------------------------

  /** Remove nulls and empty objects, at any depth. */
  function StripNulls(v: Json): (r: Option<Json>) {
    match v
    case Null => None
    case Obj(m) =>
      var f := map k | k in m && StripNulls(m[k]).Some? :: StripNulls(m[k]).value;
      if f == map[] then None else Some(Obj(f))
    case Arr(a) => Some(Arr(StripNullItems(a)))
    case _ => Some(v)
  }

  function StripNullItems(a: seq<Json>): (r: seq<Json>)
    ensures |r| <= |a|
  {
    if a == [] then []
    else
      var h := StripNulls(a[0]);
      (if h.Some? then [h.value] else []) + StripNullItems(a[1..])
  }

  /** No null and no empty object anywhere. */
  predicate Clean(v: Json) {
    match v
    case Null => false
    case Obj(m) => m != map[] && forall k :: k in m ==> Clean(m[k])
    case Arr(a) => forall i :: 0 <= i < |a| ==> Clean(a[i])
    case _ => true
  }

  lemma {:induction false} StripNullsCleans(v: Json)
    ensures StripNulls(v).Some? ==> Clean(StripNulls(v).value)
  {
    match v
    case Obj(m) =>
      forall k | k in m ensures StripNulls(m[k]).Some? ==> Clean(StripNulls(m[k]).value) {
        StripNullsCleans(m[k]);
      }
    case Arr(a) => StripNullItemsClean(a);
    case _ =>
  }

  lemma {:induction false} StripNullItemsClean(a: seq<Json>)
    ensures forall i :: 0 <= i < |StripNullItems(a)| ==> Clean(StripNullItems(a)[i])
  {
    if a != [] {
      StripNullsCleans(a[0]);
      StripNullItemsClean(a[1..]);
    }
  }

  /** The pass leaves a document alone exactly when there is nothing to remove. */
  lemma {:induction false} StripNullsFixes(v: Json)
    ensures StripNulls(v) == Some(v) <==> Clean(v)
  {
    StripNullsCleans(v);
    if Clean(v) {
      match v
      case Obj(m) =>
        forall k | k in m ensures StripNulls(m[k]) == Some(m[k]) { StripNullsFixes(m[k]); }
        assert (map k | k in m && StripNulls(m[k]).Some? :: StripNulls(m[k]).value) == m;
      case Arr(a) => StripNullItemsFix(a);
      case _ =>
    }
  }

  lemma {:induction false} StripNullItemsFix(a: seq<Json>)
    requires forall i :: 0 <= i < |a| ==> Clean(a[i])
    ensures StripNullItems(a) == a
  {
    if a != [] {
      StripNullsFixes(a[0]);
      StripNullItemsFix(a[1..]);
    }
  }

  // ----- Empty defaults -----------------------------------------------------------------------

  /** The value under `k`, where there is one. */
  function Child(e: Option<Json>, k: string): (r: Option<Json>) {
    if e.Some? && e.value.Obj? && k in e.value.fields then Some(e.value.fields[k]) else None
  }

  function Element(e: Option<Json>, i: nat): (r: Option<Json>) {
    if e.Some? && e.value.Arr? && i < |e.value.items| then Some(e.value.items[i]) else None
  }

  /** Remove empty strings, arrays and objects where the file holds nothing at the same place. */
  function StripDefaults(v: Json, existing: Option<Json>): (r: Option<Json>)
    decreases v, 0
  {
    match v
    case Null => None
    case Str(s) => if s == "" && existing.None? then None else Some(v)
    case Obj(m) =>
      var f := map k | k in m && StripField(k, m[k], Child(existing, k)).Some? :: StripField(k, m[k], Child(existing, k)).value;
      if f == map[] && existing.None? then None else Some(Obj(f))
    case Arr(a) =>
      var f := StripItems(a, 0, existing);
      if f == [] && existing.None? then None else Some(Arr(f))
    case _ => Some(v)
  }

  /** One field: an empty `args` array stays even where the file has none. */
  function StripField(k: string, v: Json, existing: Option<Json>): (r: Option<Json>)
    decreases v, 1
  {
    if k == "args" && v == Arr([]) then Some(v) else StripDefaults(v, existing)
  }

  function StripItems(a: seq<Json>, i: nat, existing: Option<Json>): (r: seq<Json>)
    ensures |r| <= |a|
    decreases a, 0
  {
    if a == [] then []
    else
      var h := StripDefaults(a[0], Element(existing, i));
      (if h.Some? then [h.value] else []) + StripItems(a[1..], i + 1, existing)
  }

  /** Both passes leave `v` alone where the file holds `e`: no null and no empty object, and an
      empty string or array (but `args`) only where the file has a value at the same place. */
  predicate Survives(v: Json, e: Option<Json>)
    decreases v, 0
  {
    match v
    case Null => false
    case Str(s) => s != "" || e.Some?
    case Obj(m) => m != map[] && forall k :: k in m ==> SurvivesField(k, m[k], Child(e, k))
    case Arr(a) => (a != [] || e.Some?) && forall i :: 0 <= i < |a| ==> Survives(a[i], Element(e, i))
    case _ => true
  }

  predicate SurvivesField(k: string, v: Json, e: Option<Json>)
    decreases v, 1
  {
    (k == "args" && v == Arr([])) || Survives(v, e)
  }

  /** Nothing the passes could remove, whatever the file holds. */
  predicate Explicit(v: Json) { Survives(v, None) }

  predicate ExplicitField(k: string, v: Json) { SurvivesField(k, v, None) }

  lemma {:induction false} SurvivorIsClean(v: Json, e: Option<Json>)
    requires Survives(v, e)
    ensures Clean(v)
  {
    match v
    case Obj(m) =>
      forall k | k in m ensures Clean(m[k]) {
        assert SurvivesField(k, m[k], Child(e, k));
        if Survives(m[k], Child(e, k)) { SurvivorIsClean(m[k], Child(e, k)); }
      }
    case Arr(a) => forall i | 0 <= i < |a| ensures Clean(a[i]) { SurvivorIsClean(a[i], Element(e, i)); }
    case _ =>
  }

  /** The more the file holds, the more survives: explicit values survive everywhere. */
  lemma {:induction false} ExplicitSurvives(v: Json, e: Option<Json>)
    requires Explicit(v)
    ensures Survives(v, e)
  {
    match v
    case Obj(m) =>
      forall k | k in m ensures SurvivesField(k, m[k], Child(e, k)) {
        assert SurvivesField(k, m[k], Child(None, k));
        if Explicit(m[k]) { ExplicitSurvives(m[k], Child(e, k)); }
      }
    case Arr(a) =>
      forall i | 0 <= i < |a| ensures Survives(a[i], Element(e, i)) {
        assert Survives(a[i], Element(None, i));
        ExplicitSurvives(a[i], Element(e, i));
      }
    case _ =>
  }

  /** Against itself a value survives exactly when it is clean: empties the user wrote are kept. */
  lemma {:induction false} OwnSurvivesIffClean(v: Json)
    ensures Survives(v, Some(v)) <==> Clean(v)
  {
    if Survives(v, Some(v)) {
      SurvivorIsClean(v, Some(v));
    } else if Clean(v) {
      match v
      case Obj(m) =>
        forall k | k in m ensures SurvivesField(k, m[k], Child(Some(v), k)) { OwnSurvivesIffClean(m[k]); }
      case Arr(a) =>
        forall i | 0 <= i < |a| ensures Survives(a[i], Element(Some(v), i)) { OwnSurvivesIffClean(a[i]); }
      case _ =>
    }
  }

  lemma {:induction false} SurvivorsStay(v: Json, e: Option<Json>)
    requires Survives(v, e)
    ensures StripDefaults(v, e) == Some(v)
  {
    match v
    case Obj(m) =>
      forall k | k in m ensures StripField(k, m[k], Child(e, k)) == Some(m[k]) {
        assert SurvivesField(k, m[k], Child(e, k));
        if Survives(m[k], Child(e, k)) { SurvivorsStay(m[k], Child(e, k)); }
      }
      assert (map k | k in m && StripField(k, m[k], Child(e, k)).Some? :: StripField(k, m[k], Child(e, k)).value) == m;
    case Arr(a) => SurvivingItemsStay(a, 0, e);
    case _ =>
  }

  lemma {:induction false} SurvivingItemsStay(a: seq<Json>, i: nat, e: Option<Json>)
    requires forall j :: 0 <= j < |a| ==> Survives(a[j], Element(e, i + j))
    ensures StripItems(a, i, e) == a
  {
    if a != [] {
      assert Survives(a[0], Element(e, i + 0));
      SurvivorsStay(a[0], Element(e, i));
      forall j | 0 <= j < |a[1..]| ensures Survives(a[1..][j], Element(e, i + 1 + j)) {
        assert Survives(a[j + 1], Element(e, i + (j + 1)));
      }
      SurvivingItemsStay(a[1..], i + 1, e);
    }
  }

  /** What a pass leaves alone survives, as long as it is clean. */
  lemma {:induction false} StayersSurvive(v: Json, e: Option<Json>)
    requires Clean(v) && StripDefaults(v, e) == Some(v)
    ensures Survives(v, e)
  {
    match v
    case Obj(m) =>
      forall k | k in m ensures SurvivesField(k, m[k], Child(e, k)) {
        assert StripField(k, m[k], Child(e, k)) == Some(m[k]);
        if !(k == "args" && m[k] == Arr([])) { StayersSurvive(m[k], Child(e, k)); }
      }
    case Arr(a) =>
      forall i | 0 <= i < |a| ensures Survives(a[i], Element(e, i)) { StayingItemSurvives(a, 0, e, i); }
    case _ =>
  }

  lemma {:induction false} StayingItemSurvives(a: seq<Json>, i: nat, e: Option<Json>, j: nat)
    requires j < |a| && StripItems(a, i, e) == a && forall l :: 0 <= l < |a| ==> Clean(a[l])
    ensures Survives(a[j], Element(e, i + j))
    decreases a, 0
  {
    assert StripDefaults(a[0], Element(e, i)).Some? && StripItems(a[1..], i + 1, e) == a[1..];
    if j == 0 {
      StayersSurvive(a[0], Element(e, i));
    } else {
      StayingItemSurvives(a[1..], i + 1, e, j - 1);
    }
  }

  /** With nothing on file, the second pass alone leaves exactly the explicit values unchanged. */
  lemma {:induction false} StripDefaultsFixes(v: Json)
    ensures StripDefaults(v, None) == Some(v) <==> Explicit(v)
  {
    if Explicit(v) {
      SurvivorsStay(v, None);
    } else if StripDefaults(v, None) == Some(v) {
      match v
      case Obj(m) =>
        forall k | k in m ensures SurvivesField(k, m[k], Child(None, k)) {
          assert StripField(k, m[k], None) == Some(m[k]);
          StripDefaultsFixes(m[k]);
        }
      case Arr(a) => StripItemsFix(a, 0);
      case _ =>
    }
  }

  lemma {:induction false} StripItemsFix(a: seq<Json>, i: nat)
    requires StripItems(a, i, None) == a
    ensures forall j :: 0 <= j < |a| ==> Explicit(a[j])
  {
    if a != [] {
      StripDefaultsFixes(a[0]);
      StripItemsFix(a[1..], i + 1);
    }
  }

  // ----- What the second pass empties ------------------------------------------------------------

  /** The second pass removes the value: nothing but empties where the file holds nothing. */
  predicate Vanishes(v: Json, e: Option<Json>)
    decreases v, 0
  {
    match v
    case Null => true
    case Str(s) => s == "" && e.None?
    case Obj(m) => e.None? && forall k :: k in m ==> VanishesField(k, m[k], None)
    case Arr(a) => e.None? && forall i :: 0 <= i < |a| ==> Vanishes(a[i], None)
    case _ => false
  }

  predicate VanishesField(k: string, v: Json, e: Option<Json>)
    decreases v, 1
  {
    !(k == "args" && v == Arr([])) && Vanishes(v, e)
  }

  lemma {:induction false} VanishesIff(v: Json, e: Option<Json>)
    ensures StripDefaults(v, e).None? <==> Vanishes(v, e)
  {
    if e.None? {
      match v
      case Obj(m) =>
        forall k | k in m ensures StripField(k, m[k], Child(e, k)).None? <==> VanishesField(k, m[k], None) {
          VanishesIff(m[k], None);
        }
        NothingLeft(m, e);
      case Arr(a) => ItemsVanishIff(a, 0);
      case _ =>
    }
  }

  lemma {:induction false} ItemsVanishIff(a: seq<Json>, i: nat)
    ensures StripItems(a, i, None) == [] <==> forall j :: 0 <= j < |a| ==> Vanishes(a[j], None)
  {
    if a != [] {
      VanishesIff(a[0], None);
      ItemsVanishIff(a[1..], i + 1);
      assert forall j :: 1 <= j < |a| ==> a[j] == a[1..][j - 1];
    }
  }

  /** An object of which the pass leaves no field. */
  predicate Hollow(v: Json, e: Option<Json>) {
    v.Obj? && forall k :: k in v.fields ==> VanishesField(k, v.fields[k], Child(e, k))
  }

  lemma NothingLeft(m: map<string, Json>, e: Option<Json>)
    ensures (map k | k in m && StripField(k, m[k], Child(e, k)).Some? :: StripField(k, m[k], Child(e, k)).value) == map[]
            <==> forall k :: k in m ==> StripField(k, m[k], Child(e, k)).None?
  {
    var f := map k | k in m && StripField(k, m[k], Child(e, k)).Some? :: StripField(k, m[k], Child(e, k)).value;
    if f == map[] {
      forall k | k in m ensures StripField(k, m[k], Child(e, k)).None? { assert k !in f; }
    }
  }

  lemma HollowIff(v: Json, e: Option<Json>)
    requires !Vanishes(v, e)
    ensures StripDefaults(v, e) == Some(EMPTY_OBJECT) <==> Hollow(v, e)
  {
    if v.Obj? {
      forall k | k in v.fields
        ensures StripField(k, v.fields[k], Child(e, k)).None? <==> VanishesField(k, v.fields[k], Child(e, k))
      {
        VanishesIff(v.fields[k], Child(e, k));
      }
      NothingLeft(v.fields, e);
      VanishesIff(v, e);
    }
  }

  /** No object of what the pass leaves is hollow, at any depth. */
  predicate HollowFree(v: Json, e: Option<Json>)
    decreases v
  {
    match v
    case Obj(m) =>
      && !Hollow(v, e)
      && (forall k :: k in m ==> VanishesField(k, m[k], Child(e, k)) || HollowFree(m[k], Child(e, k)))
    case Arr(a) => ItemsHollowFree(a, 0, e)
    case _ => true
  }

  predicate ItemsHollowFree(a: seq<Json>, i: nat, e: Option<Json>)
    decreases a
  {
    a == [] ||
    ((Vanishes(a[0], Element(e, i)) || HollowFree(a[0], Element(e, i))) && ItemsHollowFree(a[1..], i + 1, e))
  }

  /** What the pass leaves of a clean value is clean exactly when it leaves no hollow object. */
  lemma {:induction false} HollowFreeIff(v: Json, e: Option<Json>)
    requires Clean(v) && !Vanishes(v, e)
    ensures StripDefaults(v, e).Some? && (Clean(StripDefaults(v, e).value) <==> HollowFree(v, e))
    decreases v
  {
    VanishesIff(v, e);
    match v
    case Obj(m) =>
      HollowIff(v, e);
      var f := StripDefaults(v, e).value.fields;
      forall k | k in m
        ensures k in f <==> !VanishesField(k, m[k], Child(e, k))
        ensures k in f ==> (Clean(f[k]) <==> HollowFree(m[k], Child(e, k)))
      {
        VanishesIff(m[k], Child(e, k));
        if !Vanishes(m[k], Child(e, k)) { HollowFreeIff(m[k], Child(e, k)); }
      }
    case Arr(a) => ItemsHollowFreeIff(a, 0, e);
    case _ =>
  }

  lemma {:induction false} ItemsHollowFreeIff(a: seq<Json>, i: nat, e: Option<Json>)
    requires forall j :: 0 <= j < |a| ==> Clean(a[j])
    ensures AllClean(StripItems(a, i, e)) <==> ItemsHollowFree(a, i, e)
    decreases a
  {
    if a != [] {
      var (h, rest) := (StripDefaults(a[0], Element(e, i)), StripItems(a[1..], i + 1, e));
      VanishesIff(a[0], Element(e, i));
      if h.Some? {
        HollowFreeIff(a[0], Element(e, i));
        AllCleanCons(h.value, rest);
      } else {
        assert [] + rest == rest;
      }
      ItemsHollowFreeIff(a[1..], i + 1, e);
    }
  }

  predicate AllClean(a: seq<Json>) { forall i :: 0 <= i < |a| ==> Clean(a[i]) }

  lemma AllCleanCons(v: Json, a: seq<Json>)
    ensures AllClean([v] + a) <==> Clean(v) && AllClean(a)
  {
    if AllClean([v] + a) {
      assert Clean(([v] + a)[0]);
      forall i | 0 <= i < |a| ensures Clean(a[i]) { assert a[i] == ([v] + a)[i + 1]; }
    }
  }

  // ----- What is left of a list -----------------------------------------------------------------------

  predicate Ascending(ix: seq<nat>) {
    forall k, l :: 0 <= k < l < |ix| ==> ix[k] < ix[l]
  }

  predicate TakenFrom(left: seq<Option<Json>>, r: seq<Json>, ix: seq<nat>) {
    |r| == |ix| && forall k :: 0 <= k < |ix| ==> ix[k] < |left| && left[ix[k]] == Some(r[k])
  }

  predicate AllTaken(left: seq<Option<Json>>, ix: seq<nat>) {
    forall i: nat :: i < |left| && left[i].Some? ==> i in ix
  }

  /** `r` holds, in order, what is left of each item, and `ix` where it comes from: exactly the items
      of which something is left. */
  predicate Leaves(left: seq<Option<Json>>, r: seq<Json>, ix: seq<nat>) {
    Ascending(ix) && TakenFrom(left, r, ix) && AllTaken(left, ix)
  }

  function Shifted(ix: seq<nat>): (r: seq<nat>)
    ensures |r| == |ix| && forall k :: 0 <= k < |r| ==> r[k] == ix[k] + 1
  {
    seq(|ix|, k requires 0 <= k < |ix| => ix[k] + 1)
  }

  lemma ShiftedHas(ix: seq<nat>, i: nat)
    requires i in ix
    ensures i + 1 in Shifted(ix)
  {
    var k :| 0 <= k < |ix| && ix[k] == i;
    assert Shifted(ix)[k] == i + 1;
  }

  lemma LeavesSkip(left: seq<Option<Json>>, r: seq<Json>, ix: seq<nat>)
    requires Leaves(left, r, ix)
    ensures Leaves([None] + left, r, Shifted(ix))
  {
    var all := [None] + left;
    forall i: nat | i < |all| && all[i].Some? ensures i in Shifted(ix) { ShiftedHas(ix, i - 1); }
  }

  lemma TakenKeep(v: Json, left: seq<Option<Json>>, r: seq<Json>, ix: seq<nat>, jx: seq<nat>)
    requires TakenFrom(left, r, ix) && jx == [0] + Shifted(ix)
    ensures TakenFrom([Some(v)] + left, [v] + r, jx)
  {
    forall k | 0 <= k < |jx| ensures jx[k] <= |left| && ([Some(v)] + left)[jx[k]] == Some(([v] + r)[k]) {
      if k > 0 { assert jx[k] == ix[k - 1] + 1; }
    }
  }

  lemma AscendingKeep(ix: seq<nat>, jx: seq<nat>)
    requires Ascending(ix) && jx == [0] + Shifted(ix)
    ensures Ascending(jx)
  {
    forall k, l | 0 <= k < l < |jx| ensures jx[k] < jx[l] {
      assert jx[l] == ix[l - 1] + 1;
      if k > 0 { assert jx[k] == ix[k - 1] + 1; }
    }
  }

  lemma AllTakenKeep(v: Json, left: seq<Option<Json>>, ix: seq<nat>, jx: seq<nat>)
    requires AllTaken(left, ix) && jx == [0] + Shifted(ix)
    ensures AllTaken([Some(v)] + left, jx)
  {
    var all := [Some(v)] + left;
    forall i: nat | i < |all| && all[i].Some? ensures i in jx {
      if i > 0 { ShiftedHas(ix, i - 1); } else { assert jx[0] == 0; }
    }
  }

  lemma LeavesKeep(v: Json, left: seq<Option<Json>>, r: seq<Json>, ix: seq<nat>, jx: seq<nat>)
    requires Leaves(left, r, ix) && jx == [0] + Shifted(ix)
    ensures Leaves([Some(v)] + left, [v] + r, jx)
  {
    AscendingKeep(ix, jx);
    TakenKeep(v, left, r, ix, jx);
    AllTakenKeep(v, left, ix, jx);
  }

  lemma LeavesCons(h: Option<Json>, left: seq<Option<Json>>, r: seq<Json>, ix: seq<nat>) returns (ix': seq<nat>)
    requires Leaves(left, r, ix)
    ensures Leaves([h] + left, (if h.Some? then [h.value] else []) + r, ix')
  {
    if h.Some? {
      ix' := [0] + Shifted(ix);
      LeavesKeep(h.value, left, r, ix, ix');
    } else {
      ix' := Shifted(ix);
      LeavesSkip(left, r, ix);
      assert [] + r == r;
    }
  }

  /** The first pass leaves, in order, what it leaves of each item, and drops just the items of which it
      leaves nothing. */
  lemma {:induction false} NullItemsLeft(a: seq<Json>) returns (ix: seq<nat>)
    ensures Leaves(seq(|a|, j requires 0 <= j < |a| => StripNulls(a[j])), StripNullItems(a), ix)
    decreases |a|
  {
    ix := [];
    if a != [] {
      var jx := NullItemsLeft(a[1..]);
      var rest := seq(|a[1..]|, j requires 0 <= j < |a[1..]| => StripNulls(a[1..][j]));
      ix := LeavesCons(StripNulls(a[0]), rest, StripNullItems(a[1..]), jx);
      assert seq(|a|, j requires 0 <= j < |a| => StripNulls(a[j])) == [StripNulls(a[0])] + rest;
    }
  }

  /** So does the second, each item against the file's item at the same position. */
  lemma {:induction false} ItemsLeft(a: seq<Json>, i: nat, e: Option<Json>) returns (ix: seq<nat>)
    ensures Leaves(ItemOutcomes(a, i, e), StripItems(a, i, e), ix)
    decreases |a|
  {
    ix := [];
    if a != [] {
      var jx := ItemsLeft(a[1..], i + 1, e);
      ItemOutcomesCons(a, i, i + 1, e);
      var h := StripDefaults(a[0], Element(e, i));
      ix := LeavesCons(h, ItemOutcomes(a[1..], i + 1, e), StripItems(a[1..], i + 1, e), jx);
    }
  }

  /** What the second pass leaves of each item, the first of them at position `i`. */
  ghost function ItemOutcomes(a: seq<Json>, i: nat, e: Option<Json>): (r: seq<Option<Json>>) {
    seq(|a|, j requires 0 <= j < |a| => StripDefaults(a[j], Element(e, i + j)))
  }

  lemma ItemOutcomesCons(a: seq<Json>, i: nat, next: nat, e: Option<Json>)
    requires a != [] && next == i + 1
    ensures ItemOutcomes(a, i, e) == [StripDefaults(a[0], Element(e, i))] + ItemOutcomes(a[1..], next, e)
  {
    var (all, rest) := (ItemOutcomes(a, i, e), ItemOutcomes(a[1..], next, e));
    forall j | 1 <= j < |a| ensures all[j] == rest[j - 1] {
      assert a[1..][j - 1] == a[j] && next + (j - 1) == i + j;
    }
  }

  // ----- Both passes ---------------------------------------------------------------------------------

  /** The second pass never restores what the first one removed. */
  lemma {:induction false} NothingRestored(v: Json, existing: Option<Json>)
    requires StripNulls(v).Some? && StripDefaults(StripNulls(v).value, existing) == Some(v)
    ensures StripNulls(v) == Some(v)
  {
    match v
    case Obj(m) =>
      var f := StripNulls(v).value.fields;
      forall k | k in m ensures k in f && f[k] == m[k] {
        assert StripField(k, f[k], Child(existing, k)) == Some(m[k]);
        if !(k == "args" && f[k] == Arr([])) { NothingRestored(m[k], Child(existing, k)); }
      }
      assert f == m;
    case Arr(a) =>
      NoItemRestored(a, 0, existing);
    case _ =>
  }

  lemma {:induction false} NoItemRestored(a: seq<Json>, i: nat, existing: Option<Json>)
    requires StripItems(StripNullItems(a), i, existing) == a
    ensures StripNullItems(a) == a
  {
    if a != [] {
      assert StripNulls(a[0]).Some?;
      assert StripNullItems(a) == [StripNulls(a[0]).value] + StripNullItems(a[1..]);
      assert StripNullItems(a)[1..] == StripNullItems(a[1..]);
      NothingRestored(a[0], Element(existing, i));
      NoItemRestored(a[1..], i + 1, existing);
    }
  }

  /** Both passes over the value under a key: `e` is what the file holds there. */
  function Stripped(k: string, v: Json, e: Option<Json>): (r: Option<Json>) {
    if StripNulls(v).None? then None else StripField(k, StripNulls(v).value, e)
  }

  /** The two passes keep a value exactly when it survives. */
  lemma StrippedIff(k: string, v: Json, e: Option<Json>)
    ensures Stripped(k, v, e) == Some(v) <==> SurvivesField(k, v, e)
  {
    StripNullsFixes(v);
    if Survives(v, e) {
      SurvivorIsClean(v, e);
      SurvivorsStay(v, e);
    } else if StripNulls(v).Some? && StripDefaults(StripNulls(v).value, e) == Some(v) {
      NothingRestored(v, e);
      StayersSurvive(v, e);
    }
  }
}
