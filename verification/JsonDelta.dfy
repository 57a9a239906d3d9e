/**
  The delta of a configuration against its defaults, and what layering it back yields.
 */
module JsonDelta {
  import opened Json
  import opened Pointers
  import opened Utils

  /** The parts of `current` that differ from `defaults`; an empty object means no difference. */
  function JsonDiff(defaults: Json, current: Json): (r: Json)
    decreases current, 0
  {
    if defaults.Obj? && current.Obj? then
      var (d, c) := (defaults.fields, current.fields);
      Obj(map k | k in c && DiffField(d, k, c[k]).Some? :: DiffField(d, k, c[k]).value)
    else if current == Str("") || defaults == current then EMPTY_OBJECT
    else current
  }

  /** The delta of one field: recurse where the defaults have it, else keep it less its empties. */
  function DiffField(d: map<string, Json>, k: string, v: Json): (r: Option<Json>)
    decreases v, 1
  {
    if k in d then
      var diff := JsonDiff(d[k], v);
      if diff == EMPTY_OBJECT then None else Some(diff)
    else StripDefaults(v, None)
  }

  /** Lay a delta over a document. */
  function Overlay(base: Json, delta: Json): (r: Json)
    decreases delta
  {
    if delta == EMPTY_OBJECT then base
    else if base.Obj? && delta.Obj? then
      var (b, d) := (base.fields, delta.fields);
      Obj(map k | k in b.Keys + d.Keys ::
            if k !in d then b[k] else if k !in b then d[k] else Overlay(b[k], d[k]))
    else delta
  }

  /** One field of an overlay of objects. */
  lemma OverlayField(b: map<string, Json>, d: map<string, Json>, k: string)
    requires k in b || k in d
    ensures var r := Overlay(Obj(b), Obj(d));
            && r.Obj? && k in r.fields
            && r.fields[k] == if k !in d then b[k] else if k !in b then d[k] else Overlay(b[k], d[k])
  {
  }

  /** The delta loses nothing of `current`: it has every key of the defaults, the fields only it
      has are explicit, and no leaf is an empty string or object the defaults do not have. */
  predicate Representable(defaults: Json, current: Json)
    decreases current
  {
    if defaults.Obj? && current.Obj? then
      var (d, c) := (defaults.fields, current.fields);
      && (forall k :: k in d ==> k in c)
      && (forall k :: k in c ==> if k in d then Representable(d[k], c[k]) else Explicit(c[k]))
    else current != EMPTY_OBJECT && (current == Str("") ==> defaults == Str(""))
  }

  /** A document has no delta against itself. */
  lemma {:induction false} NoDiffWithSelf(v: Json)
    ensures JsonDiff(v, v) == EMPTY_OBJECT
  {
    if v.Obj? {
      forall k | k in v.fields ensures DiffField(v.fields, k, v.fields[k]) == None { NoDiffWithSelf(v.fields[k]); }
    }
  }

  /** What one field of the overlay must be for the round trip to hold there. */
  ghost predicate FieldReturns(d: map<string, Json>, c: map<string, Json>, k: string) {
    k in c &&
    if k in d then Overlay(d[k], JsonDiff(d[k], c[k])) == c[k] else StripDefaults(c[k], None) == Some(c[k])
  }

  lemma DiffAt(d: map<string, Json>, c: map<string, Json>, k: string)
    ensures var f := JsonDiff(Obj(d), Obj(c)).fields;
            && (k in f <==> k in c && DiffField(d, k, c[k]).Some?)
            && (k in f ==> f[k] == DiffField(d, k, c[k]).value)
  {
  }

  lemma OverlayAt(d: map<string, Json>, c: map<string, Json>, k: string)
    ensures var r := Overlay(Obj(d), JsonDiff(Obj(d), Obj(c)));
            && r.Obj? && (k in d ==> k in r.fields) && (k in r.fields ==> k in d || k in c)
            && (k in c ==> (FieldReturns(d, c, k) <==> k in r.fields && r.fields[k] == c[k]))
  {
    var f := JsonDiff(Obj(d), Obj(c)).fields;
    DiffAt(d, c, k);
    if k in d || k in f { OverlayField(d, f, k); }
  }

  /** Laying the delta over the defaults gives back the document, field by field. */
  lemma OverlayByField(d: map<string, Json>, c: map<string, Json>)
    ensures Overlay(Obj(d), JsonDiff(Obj(d), Obj(c))) == Obj(c)
            <==> (forall k :: k in d ==> k in c) && (forall k :: k in c ==> FieldReturns(d, c, k))
  {
    var r := Overlay(Obj(d), JsonDiff(Obj(d), Obj(c))).fields;
    forall k
      ensures (k in d ==> k in r) && (k in r ==> k in d || k in c)
      ensures k in c ==> (FieldReturns(d, c, k) <==> k in r && r[k] == c[k])
    {
      OverlayAt(d, c, k);
    }
    if (forall k :: k in d ==> k in c) && (forall k :: k in c ==> FieldReturns(d, c, k)) {
      assert r == c;
    }
  }

  /** Overlaying the delta on the defaults gives the document back exactly when it is representable. */
  lemma {:induction false} DiffIsExactIff(defaults: Json, current: Json)
    ensures Overlay(defaults, JsonDiff(defaults, current)) == current <==> Representable(defaults, current)
    decreases current
  {
    if defaults.Obj? && current.Obj? {
      var (d, c) := (defaults.fields, current.fields);
      OverlayByField(d, c);
      forall k | k in c
        ensures FieldReturns(d, c, k) <==> if k in d then Representable(d[k], c[k]) else Explicit(c[k])
      {
        if k in d { DiffIsExactIff(d[k], c[k]); } else { StripDefaultsFixes(c[k]); }
      }
    }
  }

  /** An empty string does not come back: the delta takes it for a field that is not set. */
  lemma EmptyStringIsLost()
    ensures var (d, c) := (Obj(map["theme" := Str("dark")]), Obj(map["theme" := Str("")]));
            JsonDiff(d, c) == EMPTY_OBJECT && Overlay(d, JsonDiff(d, c)) != c
  {
    var (d, c) := (Obj(map["theme" := Str("dark")]), Obj(map["theme" := Str("")]));
    assert "theme" in c.fields && DiffField(d.fields, "theme", c.fields["theme"]) == None;
    DiffIsExactIff(d, c);
  }

  // ----- The delta, seen at one path ----------------------------------------------------------------

  /** A value that is never taken for "not set". */
  predicate IsSetting(x: Json) {
    x.Bool? || x.Num? || (x.Str? && x.s != "")
  }

  lemma SettingStays(v: Json, p: Path, x: Json)
    requires IsSetting(x)
    ensures Lookup(v, p) == Some(x)
            <==> StripDefaults(v, None).Some? && Lookup(StripDefaults(v, None).value, p) == Some(x)
  {
    StripDefaultsAt(v, p, None);
    if Lookup(v, p).Some? { SettingIsLeft(Lookup(v, p).value, p, x); }
  }

  lemma SettingIsLeft(w: Json, p: Path, x: Json)
    requires IsSetting(x)
    ensures DefaultsAt(w, p, None) == Some(x) <==> w == x
  {
    assert At(None, p) == None;
    match w
    case Obj(m) => assert StripDefaults(w, None) != Some(x);
    case Arr(a) => assert StripDefaults(w, None) != Some(x);
    case _ => assert StripDefaults(w, None) == Some(x) <==> w == x;
  }

  /** Of any two documents, whatever else they hold: the delta has a setting exactly where the document
      has it and the defaults do not. */
  lemma {:induction false} DiffHasSettingIff(defaults: Json, current: Json, p: Path, x: Json)
    requires IsSetting(x)
    ensures Lookup(JsonDiff(defaults, current), p) == Some(x)
            <==> Lookup(current, p) == Some(x) && Lookup(defaults, p) != Some(x)
    decreases |p|
  {
    if p != [] && defaults.Obj? && current.Obj? {
      var (d, c, k) := (defaults.fields, current.fields, p[0]);
      DiffAt(d, c, k);
      if k in c {
        if k in d {
          DiffHasSettingIff(d[k], c[k], p[1..], x);
        } else {
          SettingStays(c[k], p[1..], x);
        }
      }
    }
  }

  /** Nothing is in the delta where the document has nothing. */
  lemma {:induction false} DiffAddsNothing(defaults: Json, current: Json, p: Path)
    requires Lookup(current, p) == None
    ensures Lookup(JsonDiff(defaults, current), p) == None
    decreases |p|
  {
    if defaults.Obj? && current.Obj? {
      var (d, c, k) := (defaults.fields, current.fields, p[0]);
      DiffAt(d, c, k);
      if k in c {
        if k in d {
          DiffAddsNothing(d[k], c[k], p[1..]);
        } else {
          StripDefaultsAt(c[k], p[1..], None);
        }
      }
    }
  }

  /** A list that the defaults have otherwise, at a place they know, is in the delta whole. */
  lemma {:induction false} DiffHasList(defaults: Json, current: Json, p: Path, x: Json)
    requires x.Arr? && Lookup(current, p) == Some(x) && Lookup(defaults, p).Some?
    ensures Lookup(JsonDiff(defaults, current), p)
         == if Lookup(defaults, p) != Some(x) then Some(x) else if p == [] then Some(EMPTY_OBJECT) else None
    decreases |p|
  {
    if p != [] {
      var (d, c, k) := (defaults.fields, current.fields, p[0]);
      DiffAt(d, c, k);
      DiffHasList(d[k], c[k], p[1..], x);
    }
  }

  // ----- The delta is least -------------------------------------------------------------------------

  /** Every entry of `y` is also in `x`, with an equal value or, between objects, entry by entry. */
  ghost predicate Within(y: Json, x: Json) {
    y == EMPTY_OBJECT || y == x ||
    (y.Obj? && x.Obj? && forall k :: k in y.fields ==> k in x.fields && Within(y.fields[k], x.fields[k]))
  }

  /** No delta that gives the document back is smaller. */
  lemma {:induction false} DiffIsLeast(defaults: Json, current: Json, x: Json)
    requires Representable(defaults, current) && Overlay(defaults, x) == current
    ensures Within(JsonDiff(defaults, current), x)
    decreases current
  {
    if defaults.Obj? && current.Obj? {
      if x == EMPTY_OBJECT {
        NoDiffWithSelf(defaults);
      } else {
        var (d, c, y) := (defaults.fields, current.fields, JsonDiff(defaults, current).fields);
        forall k | k in y ensures k in x.fields && Within(y[k], x.fields[k]) {
          LeastField(defaults, current, x, k);
          if k in d && k in x.fields { DiffIsLeast(d[k], c[k], x.fields[k]); }
        }
      }
    }
  }

  lemma LeastField(defaults: Json, current: Json, x: Json, k: string)
    requires defaults.Obj? && current.Obj? && x.Obj? && x != EMPTY_OBJECT
    requires Representable(defaults, current) && Overlay(defaults, x) == current
    requires k in JsonDiff(defaults, current).fields
    ensures k in x.fields
    ensures k in defaults.fields ==> k in current.fields && Overlay(defaults.fields[k], x.fields[k]) == current.fields[k]
    ensures k !in defaults.fields ==> JsonDiff(defaults, current).fields[k] == x.fields[k]
  {
    var (d, c) := (defaults.fields, current.fields);
    OverlayField(d, x.fields, k);
    if k in d {
      if k !in x.fields { NoDiffWithSelf(d[k]); }
    } else {
      StripDefaultsFixes(c[k]);
    }
  }
}
