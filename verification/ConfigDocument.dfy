/**
  The document being edited, as the program edits it: one value, changed in loops.
 */
module ConfigDocument {
  import opened ConfigSave
  import opened Json
  import opened Pointers
  import opened Utils

  /** The objects passed on the way down, outermost first, each with the key taken. */
  type Spine = seq<(map<string, Json>, string)>

  /** Put `v` back at the bottom of the spine. */
  function Rebuild(spine: Spine, v: Json): (r: Json) {
    if spine == [] then v
    else
      var (fields, k) := spine[|spine| - 1];
      Rebuild(spine[..|spine| - 1], Obj(fields[k := v]))
  }

  lemma RebuildStep(spine: Spine, fields: map<string, Json>, k: string, v: Json)
    ensures Rebuild(spine + [(fields, k)], v) == Rebuild(spine, Obj(fields[k := v]))
  {
    assert (spine + [(fields, k)])[..|spine|] == spine;
  }

  lemma SetStep(v: Json, p: Path, x: Json)
    requires p != [] && v.Obj?
    ensures Set(v, p, x) == Obj(v.fields[p[0] := Set(Below(v, p[0]), p[1..], x)])
    ensures p[0] in v.fields ==> Obj(v.fields[p[0] := v.fields[p[0]]]) == v
  {
    if p[0] in v.fields { assert v.fields[p[0] := v.fields[p[0]]] == v.fields; }
  }

  class Document {
    var value: Json

    constructor (v: Json)
      ensures value == v
    {
      value := v;
    }

    method RenameLegacyKeys()
      modifies this
      ensures value == Renamed(old(value))
    {
      if value.Obj? && LEGACY_KEY in value.fields {
        var v := value.fields[LEGACY_KEY];
        value := Obj(value.fields - {LEGACY_KEY});
        if CURRENT_KEY !in value.fields {
          value := Obj(value.fields[CURRENT_KEY := v]);
        }
      }
    }

    /** Walk down the keys, creating missing objects, and set the value at the last one. */
    method SetJsonPointer(p: Path, x: Json)
      modifies this
      ensures value == Set(old(value), p, x)
    {
      if p == [] {
        value := x;
        return;
      }
      var current, spine: Spine, i := value, [], 0;
      ghost var created := false;
      assert p[0..] == p;
      while i < |p| - 1
        invariant 0 <= i <= |p| - 1 && value == old(value)
        invariant Set(value, p, x) == Rebuild(spine, Set(current, p[i..], x))
        invariant if created then current == EMPTY_OBJECT else Rebuild(spine, current) == value
      {
        if !current.Obj? {
          return;
        }
        assert p[i..][1..] == p[i + 1..];
        SetStep(current, p[i..], x);
        RebuildStep(spine, current.fields, p[i], Set(Below(current, p[i]), p[i + 1..], x));
        RebuildStep(spine, current.fields, p[i], Below(current, p[i]));
        created := p[i] !in current.fields;
        spine, current, i := spine + [(current.fields, p[i])], Below(current, p[i]), i + 1;
      }
      if current.Obj? {
        SetStep(current, p[i..], x);
        assert p[i..][1..] == [];
        value := Rebuild(spine, Obj(current.fields[p[i] := x]));
      }
    }

    /** Walk down the keys and remove the last one, if the path exists. */
    method RemoveJsonPointer(p: Path)
      modifies this
      ensures value == Remove(old(value), p)
    {
      if p == [] {
        return;
      }
      var current, spine: Spine, i := value, [], 0;
      assert p[0..] == p;
      while i < |p| - 1
        invariant 0 <= i <= |p| - 1 && value == old(value)
        invariant Remove(value, p) == Rebuild(spine, Remove(current, p[i..])) && Rebuild(spine, current) == value
      {
        if !current.Obj? || p[i] !in current.fields {
          return;
        }
        assert p[i..][1..] == p[i + 1..];
        SetStep(current, p[i..], Null);
        RebuildStep(spine, current.fields, p[i], Remove(current.fields[p[i]], p[i + 1..]));
        RebuildStep(spine, current.fields, p[i], current.fields[p[i]]);
        spine, current, i := spine + [(current.fields, p[i])], current.fields[p[i]], i + 1;
      }
      if current.Obj? && p[i] in current.fields {
        value := Rebuild(spine, Obj(current.fields - {p[i]}));
      }
    }
  }

  /** Save changes into a layer: edit the file's document, validate it, and return what is
      written back, or nothing when the result would not be a valid configuration. */
  method SaveChanges(file: Option<Json>, deletions: seq<Path>, changes: seq<Change>, valid: Json -> bool)
    returns (r: Option<Json>)
    ensures r == if valid(Edited(file, deletions, changes)) then Some(Saved(file, deletions, changes)) else None
  {
    var doc := new Document(if file.Some? then file.value else EMPTY_OBJECT);
    doc.RenameLegacyKeys();
    ghost var start := doc.value;
    for i := 0 to |deletions|
      invariant RemoveAll(doc.value, deletions[i..]) == RemoveAll(start, deletions)
    {
      doc.RemoveJsonPointer(deletions[i]);
      assert deletions[i..][1..] == deletions[i + 1..];
    }
    ghost var mid := doc.value;
    for i := 0 to |changes|
      invariant SetAll(doc.value, changes[i..]) == SetAll(mid, changes)
    {
      doc.SetJsonPointer(changes[i].path, changes[i].value);
      assert changes[i..][1..] == changes[i + 1..];
    }
    if !valid(doc.value) {
      return None;
    }
    r := Some(Written(doc.value, file));
  }
}
