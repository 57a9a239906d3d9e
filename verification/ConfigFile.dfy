/**
  A configuration file over a whole save: the edits of its document, the strip passes, and the
  reconciliation of its syntax tree. A missing or unparseable file has no tree.
 */
module ConfigFile {
  import opened ConfigDocument
  import opened ConfigSave
  import opened CstReconcile
  import opened Json
  import opened Pointers
  import opened Utils

  function FileValue(root: Option<Cst>): (r: Option<Json>) {
    if root.None? then None else Some(Value(root.value))
  }

  /** The tree written for `clean`: the old one reconciled, or a fresh one where that is no object. */
  ghost predicate Rendered(root: Option<Cst>, clean: Json, r: Cst) {
    if root.Some? && root.value.Node? && clean.Obj?
    then r.Node? && r.text == root.value.text && PropsBecome(root.value.props, clean.fields, r.props)
    else r == New(clean)
  }

  /** The text written for a clean document. */
  method RenderConfigText(root: Option<Cst>, clean: Json) returns (r: Cst)
    requires root.Some? ==> Parsed(root.value)
    ensures Rendered(root, clean, r)
  {
    if root.Some? {
      var edited := ReconcilePreservingComments(root.value, clean);
      if edited.Some? {
        return edited.value;
      }
    }
    r := New(clean);
  }

  /** Save changes to a file: nothing is written when the edited document does not validate. */
  method SaveFile(root: Option<Cst>, deletions: seq<Path>, changes: seq<Change>, valid: Json -> bool)
    returns (r: Option<Cst>)
    requires root.Some? ==> Parsed(root.value)
    ensures r.Some? <==> valid(Edited(FileValue(root), deletions, changes))
    ensures r.Some? ==> Rendered(root, Saved(FileValue(root), deletions, changes), r.value)
    ensures r.Some? ==>
      (Value(r.value) == Saved(FileValue(root), deletions, changes)
       <==> Reachable(root, Saved(FileValue(root), deletions, changes)))
  {
    var saved := SaveChanges(FileValue(root), deletions, changes, valid);
    if saved.None? {
      return None;
    }
    var tree := RenderConfigText(root, saved.value);
    r := Some(tree);
    RenderedIff(root, saved.value, tree);
  }

  /** No repeated name of the file stands in the way of the document. */
  predicate Reachable(root: Option<Cst>, clean: Json) {
    root.Some? && root.value.Node? && clean.Obj? ==> PropsReach(root.value.props, clean.fields)
  }

  /** What is written is the document, exactly when no repeated name stands in the way. */
  lemma RenderedIff(root: Option<Cst>, clean: Json, r: Cst)
    requires Rendered(root, clean, r)
    ensures Value(r) == clean <==> Reachable(root, clean)
  {
    if root.Some? && root.value.Node? && clean.Obj? {
      PropsHaveValuesIff(root.value.props, clean.fields, r.props);
    }
  }

  /** In a file that repeats no name nothing does. */
  lemma UniqueRendered(root: Option<Cst>, clean: Json, r: Cst)
    requires Rendered(root, clean, r) && (root.Some? ==> Unique(root.value))
    ensures Reachable(root, clean) && Value(r) == clean && Unique(r)
  {
    if root.Some? && root.value.Node? && clean.Obj? {
      UniquePropsReach(root.value, clean.fields);
      RenderedIff(root, clean, r);
      UniquePropsStay(root.value, clean.fields, r);
    }
  }

  /** Over a whole save every property that is still wanted keeps the comments around it, whatever
      becomes of its value. */
  lemma SaveKeepsComments(root: Cst, deletions: seq<Path>, changes: seq<Change>, root': Cst, p: Path)
    requires Rendered(Some(root), Saved(Some(Value(root)), deletions, changes), root')
    requires p != [] && PropAt(root, p).Some? && Lookup(Saved(Some(Value(root)), deletions, changes), p).Some?
    ensures PropAt(root', p).Some? && StillThere(PropAt(root, p).value, PropAt(root', p).value)
  {
    WantedPropsStay(root, Saved(Some(Value(root)), deletions, changes).fields, root', p);
  }

  /** A property with a clean value, away from every edit, stays verbatim, comments and all - as long
      as it is the property that counts. */
  lemma SaveKeepsProps(root: Cst, deletions: seq<Path>, changes: seq<Change>, root': Cst, p: Path)
    requires Rendered(Some(root), Saved(Some(Value(root)), deletions, changes), root')
    requires p != [] && p[0] != LEGACY_KEY && ApartFromAll(p, deletions) && ApartFromChanges(p, changes)
    requires PropAt(root, p).Some? && Clean(Value(PropAt(root, p).value.value))
    requires Lookup(Value(root), p) == Some(Value(PropAt(root, p).value.value))
    ensures PropAt(root', p) == PropAt(root, p)
  {
    SaveKeepsIffClean(Value(root), deletions, changes, p);
    EqualPropsStay(root, Saved(Some(Value(root)), deletions, changes).fields, root', p);
  }

  /** In a file that repeats no name, exactly the properties with clean values stay verbatim. */
  lemma SaveKeepsPropsIff(root: Cst, deletions: seq<Path>, changes: seq<Change>, root': Cst, p: Path)
    requires Unique(root) && Rendered(Some(root), Saved(Some(Value(root)), deletions, changes), root')
    requires p != [] && p[0] != LEGACY_KEY && ApartFromAll(p, deletions) && ApartFromChanges(p, changes)
    requires PropAt(root, p).Some?
    ensures PropAt(root', p) == PropAt(root, p) <==> Clean(Value(PropAt(root, p).value.value))
  {
    PropHoldsNode(root, p);
    NodeHasValue(root, p);
    if Clean(Value(PropAt(root, p).value.value)) {
      SaveKeepsProps(root, deletions, changes, root', p);
    } else if PropAt(root', p) == PropAt(root, p) {
      PropHoldsNode(root', p);
      UniqueRendered(Some(root), Saved(Some(Value(root)), deletions, changes), root');
      NodeHasValue(root', p);
      SaveKeepsIffClean(Value(root), deletions, changes, p);
    }
  }

  /** A saved change is not read back from a file that repeats its name: the first property is
      changed and the last one counts. */
  lemma SaveMissesRepeatedName(root': Cst)
    requires var root := Node([Prop("theme", Leaf(Str("dark"), ""), ""), Prop("theme", Leaf(Str("light"), ""), "")], "");
             Rendered(Some(root), Saved(Some(Value(root)), [], [Change(["theme"], Str("nord"))]), root')
    ensures Lookup(Value(root'), ["theme"]) == Some(Str("light"))
  {
    var ps := [Prop("theme", Leaf(Str("dark"), ""), ""), Prop("theme", Leaf(Str("light"), ""), "")];
    var saved := Saved(Some(Value(Node(ps, ""))), [], [Change(["theme"], Str("nord"))]);
    ThemeIsSaved(Value(Node(ps, "")), "nord", saved);
    LastThemeCounts(ps, saved, root');
  }

  lemma ThemeIsSaved(file: Json, theme: string, saved: Json)
    requires file.Obj? && theme != "" && saved == Saved(Some(file), [], [Change(["theme"], Str(theme))])
    ensures Lookup(saved, ["theme"]) == Some(Str(theme))
  {
    SaveWritesIff(Some(file), [], [Change(["theme"], Str(theme))], 0);
  }

  lemma LastThemeCounts(ps: seq<Prop>, saved: Json, root': Cst)
    requires |ps| == 2 && ps[0].name == ps[1].name == "theme" && Value(ps[1].value) == Str("light")
    requires Lookup(saved, ["theme"]).Some? && Rendered(Some(Node(ps, "")), saved, root')
    ensures Lookup(Value(root'), ["theme"]) == Some(Str("light"))
  {
    FirstIs(ps, "theme", 0);
    LastIs(ps, "theme", 1);
    FieldAt(ps, "theme");
    LastBecomes(ps, saved.fields, root'.props, "theme");
    FieldAt(root'.props, "theme");
  }
}
