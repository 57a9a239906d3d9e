/**
  Reconciling a concrete syntax tree with a target object, touching as little as possible so
  that comments and formatting survive.

  A tree node is an object of named properties, any other parsed value with the text it was
  written as, or a value the program put there. Trivia stands for the text around a node.
  A name may occur more than once in an object: reading a document the last property counts,
  while the reconciliation looks up the first.
 */
module CstReconcile {
  import opened Json
  import opened Pointers
  import opened Utils

  type Trivia = string

  datatype Cst =
    | Node(props: seq<Prop>, text: Trivia)
    | Leaf(json: Json, text: Trivia)
    | New(json: Json)

  datatype Prop = Prop(name: string, value: Cst, trivia: Trivia)

  /** The JSON value of a tree. */
  function Value(c: Cst): (r: Json)
    decreases c, 0
  {
    match c
    case Node(ps, _) => Obj(Fields(ps))
    case Leaf(j, _) => j
    case New(j) => j
  }

  function Fields(ps: seq<Prop>): (r: map<string, Json>)
    decreases ps, 0
  {
    if ps == [] then map[] else map[ps[0].name := Value(ps[0].value)] + Fields(ps[1..])
  }

  /** A tree as it comes out of the parser: every object is a node. */
  predicate Parsed(c: Cst)
    decreases c
  {
    match c
    case Node(ps, _) => forall i :: 0 <= i < |ps| ==> Parsed(ps[i].value)
    case Leaf(j, _) => !j.Obj?
    case New(_) => false
  }

  // ----- Properties by name -----------------------------------------------------------------------

  predicate Named(ps: seq<Prop>, k: string) {
    exists i :: 0 <= i < |ps| && ps[i].name == k
  }

  /** The first property named `k`. */
  function Find(ps: seq<Prop>, k: string): (r: Option<nat>)
    ensures r.Some? ==> r.value < |ps| && ps[r.value].name == k && forall i :: 0 <= i < r.value ==> ps[i].name != k
    ensures r.None? ==> !Named(ps, k)
  {
    if ps == [] then None
    else if ps[0].name == k then Some(0)
    else
      var r := Find(ps[1..], k);
      if r.Some? then Some(r.value + 1)
      else
        assert forall i :: 1 <= i < |ps| ==> ps[i] == ps[1..][i - 1];
        None
  }

  /** The last property named `k`, the one that counts. */
  function FindLast(ps: seq<Prop>, k: string): (r: Option<nat>)
    ensures r.Some? ==> r.value < |ps| && ps[r.value].name == k && forall i :: r.value < i < |ps| ==> ps[i].name != k
    ensures r.None? ==> !Named(ps, k)
  {
    if ps == [] then None
    else if ps[|ps| - 1].name == k then Some(|ps| - 1)
    else FindLast(ps[..|ps| - 1], k)
  }

  lemma FirstIs(ps: seq<Prop>, k: string, i: nat)
    requires i < |ps| && ps[i].name == k && forall j :: 0 <= j < i ==> ps[j].name != k
    ensures Find(ps, k) == Some(i)
  {
    assert Named(ps, k);
  }

  lemma LastIs(ps: seq<Prop>, k: string, i: nat)
    requires i < |ps| && ps[i].name == k && forall j :: i < j < |ps| ==> ps[j].name != k
    ensures FindLast(ps, k) == Some(i)
  {
    assert Named(ps, k);
  }

  lemma LastOfTail(ps: seq<Prop>, k: string)
    requires ps != []
    ensures var r := FindLast(ps[1..], k);
            FindLast(ps, k) == if r.Some? then Some(r.value + 1) else if ps[0].name == k then Some(0) else None
  {
    var r := FindLast(ps[1..], k);
    assert forall i :: 1 <= i < |ps| ==> ps[i] == ps[1..][i - 1];
    if r.Some? {
      LastIs(ps, k, r.value + 1);
    } else if ps[0].name == k {
      forall j | 0 < j < |ps| ensures ps[j].name != k { assert ps[1..][j - 1].name != k; }
      LastIs(ps, k, 0);
    }
  }

  /** An object has the values of the last properties of each name. */
  lemma {:induction false} FieldAt(ps: seq<Prop>, k: string)
    ensures var r := FindLast(ps, k);
            (k in Fields(ps) <==> r.Some?) && (r.Some? ==> Fields(ps)[k] == Value(ps[r.value].value))
    decreases |ps|
  {
    if ps != [] {
      FieldAt(ps[1..], k);
      LastOfTail(ps, k);
    }
  }

  // ----- What a reconciliation may do -----------------------------------------------------------

  /** The properties whose names are still wanted, in order. */
  function Kept(ps: seq<Prop>, m: map<string, Json>): (r: seq<Prop>)
    ensures forall i :: 0 <= i < |r| ==> r[i] in ps && r[i].name in m
  {
    if ps == [] then []
    else Kept(ps[..|ps| - 1], m) + if ps[|ps| - 1].name in m then [ps[|ps| - 1]] else []
  }

  /** Node `c` may become `c'` when value `v` is wanted: it stays as it is when it already has the
      value, an object is reconciled property by property, and anything else is replaced. */
  ghost predicate Becomes(c: Cst, v: Json, c': Cst)
    decreases c
  {
    if Value(c) == v then c' == c
    else if v.Obj? && c.Node? then c'.Node? && c'.text == c.text && PropsBecome(c.props, v.fields, c'.props)
    else c' == New(v)
  }

  /** The outcome of reconciling the properties of one object: of the wanted ones, the first of each
      name is brought to its value and the others are left alone; missing ones follow. */
  ghost predicate PropsBecome(ps: seq<Prop>, m: map<string, Json>, qs: seq<Prop>)
    decreases ps
  {
    var ks := Kept(ps, m);
    && |ks| <= |qs|
    && (forall i :: 0 <= i < |ks| ==>
          if Find(ks, ks[i].name) == Some(i)
          then StillThere(ks[i], qs[i]) && Becomes(ks[i].value, m[ks[i].name], qs[i].value)
          else qs[i] == ks[i])
    && Completed(ks, qs, m)
  }

  /** A property that stays keeps its name and the text around it. */
  predicate StillThere(p: Prop, q: Prop) {
    q.name == p.name && q.trivia == p.trivia
  }

  /** Behind the kept properties `ks` comes one new property for each key that has none. */
  ghost predicate Completed(ks: seq<Prop>, qs: seq<Prop>, m: map<string, Json>) {
    && |ks| <= |qs|
    && (forall i :: |ks| <= i < |qs| ==> IsNew(qs[i], m) && !Named(ks, qs[i].name))
    && (forall i, j :: |ks| <= i < j < |qs| ==> qs[i].name != qs[j].name)
    && (forall k :: k in m ==> Named(qs, k))
  }

  predicate IsNew(q: Prop, m: map<string, Json>) {
    q.name in m && q == Prop(q.name, New(m[q.name]), "")
  }

  // ----- The value of the outcome ---------------------------------------------------------------------

  /** The first properties named `k` are the same in both lists, and so are the last, and they are one
      and the same in both lists or in neither. */
  ghost predicate SameEnds(ks: seq<Prop>, ps: seq<Prop>, k: string) {
    var (i, j, i', j') := (Find(ks, k), FindLast(ks, k), Find(ps, k), FindLast(ps, k));
    && (i.Some? <==> i'.Some?) && (j.Some? <==> j'.Some?) && (i.Some? <==> j.Some?)
    && (i.Some? && i'.Some? && j.Some? && j'.Some? ==>
          ks[i.value] == ps[i'.value] && ks[j.value] == ps[j'.value] && (i == j <==> i' == j'))
  }

  lemma FindSnoc(ps: seq<Prop>, q: Prop, k: string)
    ensures var (n, r) := (|ps|, Find(ps, k));
            && Find(ps + [q], k) == (if r.Some? then r else if q.name == k then Some(n) else None)
            && FindLast(ps + [q], k) == (if q.name == k then Some(n) else FindLast(ps, k))
  {
    var (qs, n, r) := (ps + [q], |ps|, Find(ps, k));
    assert qs[..n] == ps;
    if r.Some? {
      FirstIs(qs, k, r.value);
    } else if q.name == k {
      forall j | 0 <= j < n ensures qs[j].name != k { assert ps[j].name != k; }
      FirstIs(qs, k, n);
    }
  }

  lemma SameEndsPush(ks: seq<Prop>, ps: seq<Prop>, q: Prop, k: string)
    requires SameEnds(ks, ps, k)
    ensures SameEnds(ks + [q], ps + [q], k)
  {
    FindSnoc(ks, q, k);
    FindSnoc(ps, q, k);
  }

  lemma SameEndsSkip(ks: seq<Prop>, ps: seq<Prop>, q: Prop, k: string)
    requires SameEnds(ks, ps, k) && q.name != k
    ensures SameEnds(ks, ps + [q], k)
  {
    FindSnoc(ps, q, k);
  }

  /** Dropping other properties keeps the first and the last of a name. */
  lemma {:induction false} KeptEnds(ps: seq<Prop>, m: map<string, Json>, k: string)
    requires k in m
    ensures SameEnds(Kept(ps, m), ps, k)
    decreases |ps|
  {
    if ps != [] {
      var (rest, q) := (ps[..|ps| - 1], ps[|ps| - 1]);
      KeptEnds(rest, m, k);
      assert ps == rest + [q];
      if q.name in m {
        SameEndsPush(Kept(rest, m), rest, q, k);
      } else {
        SameEndsSkip(Kept(rest, m), rest, q, k);
        assert Kept(rest, m) + [] == Kept(rest, m);
      }
    }
  }

  /** Where the property that counts ends up, and what it has become. */
  lemma LastBecomes(ps: seq<Prop>, m: map<string, Json>, qs: seq<Prop>, k: string)
    requires PropsBecome(ps, m, qs) && k in m
    ensures FindLast(qs, k).Some?
    ensures var (i, j, q) := (Find(ps, k), FindLast(ps, k), qs[FindLast(qs, k).value]);
            if i.None? then q.value == New(m[k])
            else j.Some? && if i == j then Becomes(ps[j.value].value, m[k], q.value) else q == ps[j.value]
  {
    var ks := Kept(ps, m);
    KeptEnds(ps, m, k);
    NamesStay(ps, m, qs);
    if FindLast(ks, k).Some? {
      LastIs(qs, k, FindLast(ks, k).value);
    } else {
      assert Named(qs, k);
    }
  }

  lemma NamesStay(ps: seq<Prop>, m: map<string, Json>, qs: seq<Prop>)
    requires PropsBecome(ps, m, qs)
    ensures var ks := Kept(ps, m); |ks| <= |qs| && forall i :: 0 <= i < |ks| ==> qs[i].name == ks[i].name
    ensures forall i :: |Kept(ps, m)| <= i < |qs| ==> !Named(Kept(ps, m), qs[i].name)
    ensures forall i :: 0 <= i < |qs| ==> qs[i].name in m
  {
  }

  /** Where the kept properties come from: from all the wanted ones, in order. */
  lemma {:induction false} KeptFrom(ps: seq<Prop>, m: map<string, Json>) returns (ix: seq<nat>)
    ensures Ascending(ix) && |ix| == |Kept(ps, m)|
    ensures forall k :: 0 <= k < |ix| ==> ix[k] < |ps| && Kept(ps, m)[k] == ps[ix[k]]
    ensures forall i: nat :: i < |ps| && ps[i].name in m ==> i in ix
    decreases |ps|
  {
    ix := [];
    if ps != [] {
      var n := |ps| - 1;
      ix := KeptFrom(ps[..n], m);
      assert forall i :: 0 <= i < n ==> ps[..n][i] == ps[i];
      if ps[n].name in m { ix := ix + [n]; }
    }
  }

  /** Of the properties of a reconciled object, the wanted ones come first, all of them and in their
      order, each with its name and comment; behind them stand new names only. */
  lemma PropsKeepOrder(ps: seq<Prop>, m: map<string, Json>, qs: seq<Prop>) returns (ix: seq<nat>)
    requires PropsBecome(ps, m, qs)
    ensures Ascending(ix) && |ix| <= |qs|
    ensures forall k :: 0 <= k < |ix| ==> ix[k] < |ps| && StillThere(ps[ix[k]], qs[k])
    ensures forall i: nat :: i < |ps| ==> (ps[i].name in m <==> i in ix)
    ensures forall k, i :: |ix| <= k < |qs| && 0 <= i < |ps| ==> qs[k].name != ps[i].name
  {
    ix := KeptFrom(ps, m);
    KeptStay(ps, m, qs, ix);
    NamesStay(ps, m, qs);
    forall k, i | |ix| <= k < |qs| && 0 <= i < |ps| ensures qs[k].name != ps[i].name {
      NewNameIsNew(ps, m, qs, k, i);
    }
  }

  lemma KeptStay(ps: seq<Prop>, m: map<string, Json>, qs: seq<Prop>, ix: seq<nat>)
    requires PropsBecome(ps, m, qs) && |ix| == |Kept(ps, m)|
    requires forall k :: 0 <= k < |ix| ==> ix[k] < |ps| && Kept(ps, m)[k] == ps[ix[k]]
    ensures |ix| <= |qs| && forall k :: 0 <= k < |ix| ==> StillThere(ps[ix[k]], qs[k]) && ps[ix[k]].name in m
  {
    forall k | 0 <= k < |ix| ensures StillThere(ps[ix[k]], qs[k]) && ps[ix[k]].name in m {
      var p := Kept(ps, m)[k];
      assert p.name in m && StillThere(p, qs[k]);
    }
  }

  lemma NewNameIsNew(ps: seq<Prop>, m: map<string, Json>, qs: seq<Prop>, k: nat, i: nat)
    requires PropsBecome(ps, m, qs) && |Kept(ps, m)| <= k < |qs| && i < |ps|
    ensures qs[k].name != ps[i].name
  {
    NamesStay(ps, m, qs);
    if ps[i].name in m {
      KeptEnds(ps, m, ps[i].name);
      assert Named(ps, ps[i].name);
    }
  }

  /** The tree can be brought to value `v`: no name whose value must change occurs twice. Where one
      does, the program updates the first property and the last one, which counts, has to have
      the value already. */
  predicate Reaches(c: Cst, v: Json)
    decreases c
  {
    Value(c) == v || !v.Obj? || !c.Node? || PropsReach(c.props, v.fields)
  }

  predicate PropsReach(ps: seq<Prop>, m: map<string, Json>)
    decreases ps, 1
  {
    forall k :: k in m ==> FieldReaches(ps, m, k)
  }

  predicate FieldReaches(ps: seq<Prop>, m: map<string, Json>, k: string)
    requires k in m
    decreases ps, 0
  {
    FindLast(ps, k).Some? ==>
      var j := FindLast(ps, k).value;
      if Find(ps, k) == FindLast(ps, k) then Reaches(ps[j].value, m[k]) else Value(ps[j].value) == m[k]
  }

  /** The reconciled tree has the target value exactly when it could be reached. */
  lemma {:induction false} BecomesHasValueIff(c: Cst, v: Json, c': Cst)
    requires Becomes(c, v, c')
    ensures Value(c') == v <==> Reaches(c, v)
    decreases c
  {
    if Value(c) != v && v.Obj? && c.Node? { PropsHaveValuesIff(c.props, v.fields, c'.props); }
  }

  lemma {:induction false} PropsHaveValuesIff(ps: seq<Prop>, m: map<string, Json>, qs: seq<Prop>)
    requires PropsBecome(ps, m, qs)
    ensures Fields(qs) == m <==> PropsReach(ps, m)
    decreases ps, 1
  {
    forall k
      ensures k in Fields(qs) <==> k in m
      ensures k in m && k in Fields(qs) ==> (Fields(qs)[k] == m[k] <==> FieldReaches(ps, m, k))
    {
      FieldHasValueIff(ps, m, qs, k);
    }
    SameMapIff(Fields(qs), m);
  }

  lemma SameMapIff(f: map<string, Json>, m: map<string, Json>)
    requires forall k :: k in f <==> k in m
    ensures f == m <==> forall k :: k in m ==> f[k] == m[k]
  {
    if forall k :: k in m ==> f[k] == m[k] { assert f == m; }
  }

  lemma {:induction false} FieldHasValueIff(ps: seq<Prop>, m: map<string, Json>, qs: seq<Prop>, k: string)
    requires PropsBecome(ps, m, qs)
    ensures k in Fields(qs) <==> k in m
    ensures k in m && k in Fields(qs) ==> (Fields(qs)[k] == m[k] <==> FieldReaches(ps, m, k))
    decreases ps, 0
  {
    NamesStay(ps, m, qs);
    FieldAt(qs, k);
    if k in m {
      LastBecomes(ps, m, qs, k);
      KeptEnds(ps, m, k);
      if Find(ps, k).Some? && Find(ps, k) == FindLast(ps, k) {
        BecomesHasValueIff(ps[Find(ps, k).value].value, m[k], qs[FindLast(qs, k).value].value);
      }
    }
  }

  /** No object of the tree has two properties of one name. */
  predicate Unique(c: Cst)
    decreases c
  {
    c.Node? ==> Distinct(c.props) && forall i :: 0 <= i < |c.props| ==> Unique(c.props[i].value)
  }

  predicate Distinct(ps: seq<Prop>) {
    forall i, j :: 0 <= i < j < |ps| ==> ps[i].name != ps[j].name
  }

  /** Without repeated names every value is reached. */
  lemma {:induction false} UniqueReaches(c: Cst, v: Json)
    requires Unique(c)
    ensures Reaches(c, v)
    decreases c
  {
    if v.Obj? && c.Node? { UniquePropsReach(c, v.fields); }
  }

  lemma {:induction false} UniquePropsReach(c: Cst, m: map<string, Json>)
    requires Unique(c) && c.Node?
    ensures PropsReach(c.props, m)
    decreases c, 0
  {
    forall k | k in m && FindLast(c.props, k).Some?
      ensures var j := FindLast(c.props, k).value;
              Find(c.props, k) == FindLast(c.props, k) && Reaches(c.props[j].value, m[k])
    {
      var j := FindLast(c.props, k).value;
      FirstIs(c.props, k, j);
      UniqueReaches(c.props[j].value, m[k]);
    }
  }

  lemma {:induction false} KeptDistinct(ps: seq<Prop>, m: map<string, Json>)
    requires Distinct(ps)
    ensures Distinct(Kept(ps, m))
    decreases |ps|
  {
    if ps != [] { KeptDistinct(ps[..|ps| - 1], m); }
  }

  /** The reconciliation repeats no name. */
  lemma {:induction false} UniqueStays(c: Cst, v: Json, c': Cst)
    requires Unique(c) && Becomes(c, v, c')
    ensures Unique(c')
    decreases c
  {
    if Value(c) != v && v.Obj? && c.Node? { UniquePropsStay(c, v.fields, c'); }
  }

  lemma {:induction false} UniquePropsStay(c: Cst, m: map<string, Json>, c': Cst)
    requires Unique(c) && c.Node? && c'.Node? && PropsBecome(c.props, m, c'.props)
    ensures Unique(c')
    decreases c, 0
  {
    var (ks, qs) := (Kept(c.props, m), c'.props);
    KeptDistinct(c.props, m);
    NamesStay(c.props, m, qs);
    DistinctGrows(ks, qs);
    forall i | 0 <= i < |qs| ensures Unique(qs[i].value) {
      if i < |ks| {
        FirstIs(ks, ks[i].name, i);
        UniqueStays(ks[i].value, m[ks[i].name], qs[i].value);
      } else {
        assert IsNew(qs[i], m);
      }
    }
  }

  lemma DistinctGrows(ks: seq<Prop>, qs: seq<Prop>)
    requires Distinct(ks) && |ks| <= |qs| && forall i :: 0 <= i < |ks| ==> qs[i].name == ks[i].name
    requires forall i :: |ks| <= i < |qs| ==> !Named(ks, qs[i].name)
    requires forall i, j :: |ks| <= i < j < |qs| ==> qs[i].name != qs[j].name
    ensures Distinct(qs)
  {
    forall i, j | 0 <= i < j < |qs| ensures qs[i].name != qs[j].name {
      if i < |ks| <= j { assert ks[i].name == qs[i].name; }
    }
  }

  /** A name written twice: the first property is brought to the wanted value, the last one counts. */
  lemma RepeatedNameMisses()
    ensures var (ps, m) := ([Prop("a", Leaf(Num(1), ""), ""), Prop("a", Leaf(Num(2), ""), "")], map["a" := Num(3)]);
            forall qs | PropsBecome(ps, m, qs) :: Fields(qs) != m
  {
    var (ps, m) := ([Prop("a", Leaf(Num(1), ""), ""), Prop("a", Leaf(Num(2), ""), "")], map["a" := Num(3)]);
    LastIs(ps, "a", 1);
    FirstIs(ps, "a", 0);
    assert "a" in m && !FieldReaches(ps, m, "a");
    forall qs | PropsBecome(ps, m, qs) ensures Fields(qs) != m { PropsHaveValuesIff(ps, m, qs); }
  }

  // ----- Verbatim, at any depth ---------------------------------------------------------------------

  /** The node at a path of property names. */
  function NodeAt(c: Cst, p: seq<string>): (r: Option<Cst>)
    decreases |p|
  {
    if p == [] then Some(c)
    else if c.Node? then
      var i := Find(c.props, p[0]);
      if i.Some? then NodeAt(c.props[i.value].value, p[1..]) else None
    else None
  }

  /** Without repeated names, the node at a path has the value at that path. */
  lemma {:induction false} NodeHasValue(c: Cst, p: seq<string>)
    requires Unique(c)
    ensures var n := NodeAt(c, p); n.Some? ==> Lookup(Value(c), p) == Some(Value(n.value))
    ensures Parsed(c) ==> (NodeAt(c, p).Some? <==> Lookup(Value(c), p).Some?)
    decreases |p|
  {
    if p != [] && c.Node? {
      FieldAt(c.props, p[0]);
      if FindLast(c.props, p[0]).Some? {
        var j := FindLast(c.props, p[0]).value;
        FirstIs(c.props, p[0], j);
        NodeHasValue(c.props[j].value, p[1..]);
      }
    }
  }

  /** Where the first property of a name ends up. */
  lemma FirstBecomes(ps: seq<Prop>, m: map<string, Json>, qs: seq<Prop>, k: string)
    requires PropsBecome(ps, m, qs) && k in m && Find(ps, k).Some?
    ensures Find(qs, k).Some?
    ensures var (p, q) := (ps[Find(ps, k).value], qs[Find(qs, k).value]);
            StillThere(p, q) && Becomes(p.value, m[k], q.value)
  {
    var ks := Kept(ps, m);
    KeptEnds(ps, m, k);
    NamesStay(ps, m, qs);
    FirstIs(qs, k, Find(ks, k).value);
  }

  /** The property at a path of names, with the text around it. */
  function PropAt(c: Cst, p: seq<string>): (r: Option<Prop>)
    requires p != []
    decreases |p|
  {
    if c.Node? then
      var i := Find(c.props, p[0]);
      if i.None? then None
      else if |p| == 1 then Some(c.props[i.value])
      else PropAt(c.props[i.value].value, p[1..])
    else None
  }

  lemma {:induction false} PropHoldsNode(c: Cst, p: seq<string>)
    requires p != []
    ensures NodeAt(c, p) == if PropAt(c, p).None? then None else Some(PropAt(c, p).value.value)
    decreases |p|
  {
    if c.Node? && |p| > 1 && Find(c.props, p[0]).Some? { PropHoldsNode(c.props[Find(c.props, p[0]).value].value, p[1..]); }
  }

  /** Every property, at any depth, whose name is still wanted keeps its name and the text around it,
      whatever becomes of its value. */
  lemma {:induction false} WantedPropsStay(c: Cst, m: map<string, Json>, c': Cst, p: seq<string>)
    requires c.Node? && c'.Node? && PropsBecome(c.props, m, c'.props)
    requires p != [] && PropAt(c, p).Some? && Lookup(Obj(m), p).Some?
    ensures PropAt(c', p).Some? && StillThere(PropAt(c, p).value, PropAt(c', p).value)
    decreases |p|
  {
    var k := p[0];
    FirstBecomes(c.props, m, c'.props, k);
    if |p| > 1 {
      var (d, d') := (c.props[Find(c.props, k).value].value, c'.props[Find(c'.props, k).value].value);
      if Value(d) != m[k] { WantedPropsStay(d, m[k].fields, d', p[1..]); }
    }
  }

  /** An object, at any depth, that is still to be an object keeps the text inside it. */
  lemma {:induction false} WantedObjectsStay(c: Cst, v: Json, c': Cst, p: seq<string>)
    requires Becomes(c, v, c') && NodeAt(c, p).Some? && NodeAt(c, p).value.Node?
    requires Lookup(v, p).Some? && Lookup(v, p).value.Obj?
    ensures NodeAt(c', p).Some? && NodeAt(c', p).value.Node? && NodeAt(c', p).value.text == NodeAt(c, p).value.text
    decreases |p|
  {
    if Value(c) != v && p != [] {
      var (m, k) := (v.fields, p[0]);
      FirstBecomes(c.props, m, c'.props, k);
      var (d, d') := (c.props[Find(c.props, k).value].value, c'.props[Find(c'.props, k).value].value);
      WantedObjectsStay(d, m[k], d', p[1..]);
    }
  }

  /** Wherever the tree already has the wanted value, at any depth, its node stays verbatim ... */
  lemma {:induction false} EqualNodesStay(c: Cst, v: Json, c': Cst, p: seq<string>)
    requires Becomes(c, v, c')
    requires NodeAt(c, p).Some? && Lookup(v, p) == Some(Value(NodeAt(c, p).value))
    ensures NodeAt(c', p) == NodeAt(c, p)
    decreases |p|
  {
    if Value(c) != v && p != [] {
      PropHoldsNode(c, p);
      EqualPropsStay(c, v.fields, c', p);
      PropHoldsNode(c', p);
    }
  }

  /** ... and so does the property that holds it, with the text around it. The root itself is
      reconciled even when it has the value. */
  lemma {:induction false} EqualPropsStay(c: Cst, m: map<string, Json>, c': Cst, p: seq<string>)
    requires c.Node? && c'.Node? && PropsBecome(c.props, m, c'.props)
    requires p != [] && PropAt(c, p).Some? && Lookup(Obj(m), p) == Some(Value(PropAt(c, p).value.value))
    ensures PropAt(c', p) == PropAt(c, p)
    decreases |p|
  {
    var k := p[0];
    FirstBecomes(c.props, m, c'.props, k);
    if |p| > 1 {
      var (d, d') := (c.props[Find(c.props, k).value].value, c'.props[Find(c'.props, k).value].value);
      if Value(d) != m[k] { EqualPropsStay(d, m[k].fields, d', p[1..]); }
    }
  }

  // ----- Nothing to do ---------------------------------------------------------------------------------

  /** Nothing in the tree has to be touched: no property goes, none is missing, and the first of each
      name has its value or needs nothing done below it. */
  predicate Idle(c: Cst, v: Json)
    decreases c
  {
    Value(c) == v || (v.Obj? && c.Node? && PropsIdle(c.props, v.fields))
  }

  predicate PropsIdle(ps: seq<Prop>, m: map<string, Json>)
    decreases ps
  {
    && (forall i :: 0 <= i < |ps| ==> ps[i].name in m)
    && (forall k :: k in m ==> Named(ps, k))
    && (forall i :: 0 <= i < |ps| && Find(ps, ps[i].name) == Some(i) ==> Idle(ps[i].value, m[ps[i].name]))
  }

  lemma {:induction false} KeptAll(ps: seq<Prop>, m: map<string, Json>)
    requires forall i :: 0 <= i < |ps| ==> ps[i].name in m
    ensures Kept(ps, m) == ps
    decreases |ps|
  {
    if ps != [] {
      var n := |ps| - 1;
      KeptAll(ps[..n], m);
      assert Kept(ps, m) == ps[..n] + [ps[n]];
    }
  }

  /** The tree comes out exactly as it went in if and only if there is nothing to do. */
  lemma {:induction false} UntouchedIff(c: Cst, v: Json, c': Cst)
    requires Becomes(c, v, c')
    ensures c' == c <==> Idle(c, v)
    decreases c
  {
    if Value(c) != v && v.Obj? && c.Node? { PropsUntouchedIff(c.props, v.fields, c'.props); }
  }

  lemma {:induction false} PropUntouchedIff(ps: seq<Prop>, m: map<string, Json>, qs: seq<Prop>, i: nat)
    requires PropsBecome(ps, m, qs) && Kept(ps, m) == ps && i < |ps|
    ensures |ps| <= |qs| && ps[i].name in m
    ensures qs[i] == ps[i] <==> (Find(ps, ps[i].name) == Some(i) ==> Idle(ps[i].value, m[ps[i].name]))
    decreases ps, 0
  {
    if Find(ps, ps[i].name) == Some(i) { UntouchedIff(ps[i].value, m[ps[i].name], qs[i].value); }
  }

  lemma {:induction false} PropsUntouchedIff(ps: seq<Prop>, m: map<string, Json>, qs: seq<Prop>)
    requires PropsBecome(ps, m, qs)
    ensures qs == ps <==> PropsIdle(ps, m)
    decreases ps, 2
  {
    if PropsIdle(ps, m) {
      IdlePropsStay(ps, m, qs);
    } else if qs == ps {
      StayingPropsAreIdle(ps, m);
    }
  }

  lemma {:induction false} IdlePropsStay(ps: seq<Prop>, m: map<string, Json>, qs: seq<Prop>)
    requires PropsBecome(ps, m, qs) && PropsIdle(ps, m)
    ensures qs == ps
    decreases ps, 1
  {
    IdleKeepsLength(ps, m, qs);
    forall i | 0 <= i < |ps| ensures qs[i] == ps[i] { PropUntouchedIff(ps, m, qs, i); }
  }

  lemma IdleKeepsLength(ps: seq<Prop>, m: map<string, Json>, qs: seq<Prop>)
    requires PropsBecome(ps, m, qs) && PropsIdle(ps, m)
    ensures Kept(ps, m) == ps && |qs| == |ps|
  {
    KeptAll(ps, m);
    NothingAdded(ps, m, qs);
  }

  lemma {:induction false} StayingPropsAreIdle(ps: seq<Prop>, m: map<string, Json>)
    requires PropsBecome(ps, m, ps)
    ensures PropsIdle(ps, m)
    decreases ps, 1
  {
    NamesStay(ps, m, ps);
    KeptAll(ps, m);
    forall i | 0 <= i < |ps| && Find(ps, ps[i].name) == Some(i) ensures Idle(ps[i].value, m[ps[i].name]) {
      PropUntouchedIff(ps, m, ps, i);
    }
  }

  lemma NothingAdded(ps: seq<Prop>, m: map<string, Json>, qs: seq<Prop>)
    requires PropsBecome(ps, m, qs) && Kept(ps, m) == ps
    ensures |qs| == |ps| || exists k :: k in m && !Named(ps, k)
  {
    if |ps| < |qs| { assert IsNew(qs[|ps|], m) && !Named(ps, qs[|ps|].name); }
  }

  // ----- The program ---------------------------------------------------------------------------------

  /** Remove the properties that are no longer wanted. */
  method RemoveUnwanted(ps: seq<Prop>, target: map<string, Json>) returns (qs: seq<Prop>)
    ensures qs == Kept(ps, target)
  {
    qs := [];
    for i := 0 to |ps|
      invariant qs == Kept(ps[..i], target)
    {
      assert ps[..i + 1][..i] == ps[..i];
      if ps[i].name in target {
        qs := qs + [ps[i]];
      }
    }
    assert ps[..|ps|] == ps;
  }

  /** What has become of the kept property `i` once the keys in `done` are settled. */
  ghost predicate SettledProp(ks: seq<Prop>, i: nat, q: Prop, m: map<string, Json>, done: set<string>)
    requires i < |ks|
  {
    if ks[i].name in done && Find(ks, ks[i].name) == Some(i)
    then ks[i].name in m && StillThere(ks[i], q) && Becomes(ks[i].value, m[ks[i].name], q.value)
    else q == ks[i]
  }

  /** How far the update loop has come: the keys in `done` are settled, the others untouched. */
  ghost predicate Settled(ks: seq<Prop>, qs: seq<Prop>, m: map<string, Json>, done: set<string>) {
    && |ks| <= |qs|
    && (forall i :: 0 <= i < |ks| ==> SettledProp(ks, i, qs[i], m, done))
    && (forall i :: |ks| <= i < |qs| ==> IsNew(qs[i], m) && !Named(ks, qs[i].name) && qs[i].name in done)
    && (forall i, j :: |ks| <= i < j < |qs| ==> qs[i].name != qs[j].name)
    && (forall k :: k in done ==> Named(qs, k))
  }

  lemma SettledNames(ks: seq<Prop>, qs: seq<Prop>, m: map<string, Json>, done: set<string>)
    requires Settled(ks, qs, m, done)
    ensures forall i :: 0 <= i < |ks| ==> qs[i].name == ks[i].name
  {
    forall i | 0 <= i < |ks| ensures qs[i].name == ks[i].name { assert SettledProp(ks, i, qs[i], m, done); }
  }

  /** A key that has not been settled is found at the first kept property of that name, untouched. */
  lemma UnsettledFound(ks: seq<Prop>, qs: seq<Prop>, m: map<string, Json>, done: set<string>, k: string)
    requires Settled(ks, qs, m, done) && k !in done && Find(qs, k).Some?
    ensures var i := Find(qs, k).value; i < |ks| && Find(ks, k) == Some(i) && qs[i] == ks[i]
  {
    var i := Find(qs, k).value;
    SettledNames(ks, qs, m, done);
    FirstIs(ks, k, i);
    assert SettledProp(ks, i, qs[i], m, done);
  }

  lemma SettleOld(ks: seq<Prop>, qs: seq<Prop>, m: map<string, Json>, done: set<string>, k: string, i: nat, q: Prop)
    requires Settled(ks, qs, m, done) && k in m && k !in done && Find(qs, k) == Some(i)
    requires StillThere(qs[i], q) && Becomes(qs[i].value, m[k], q.value)
    ensures Settled(ks, qs[i := q], m, done + {k})
  {
    var rs := qs[i := q];
    UnsettledFound(ks, qs, m, done, k);
    SettledNames(ks, qs, m, done);
    forall j | 0 <= j < |ks| ensures SettledProp(ks, j, rs[j], m, done + {k}) {
      assert SettledProp(ks, j, qs[j], m, done);
    }
    assert qs[i].name == k;
    forall l | l in done + {k} ensures Named(rs, l) { NamedUpdate(qs, i, q, l); }
  }

  lemma NamedUpdate(qs: seq<Prop>, i: nat, q: Prop, l: string)
    requires i < |qs| && q.name == qs[i].name && Named(qs, l)
    ensures Named(qs[i := q], l)
  {
    var j :| 0 <= j < |qs| && qs[j].name == l;
    assert qs[i := q][j].name == l;
  }

  lemma SettleNew(ks: seq<Prop>, qs: seq<Prop>, m: map<string, Json>, done: set<string>, k: string)
    requires Settled(ks, qs, m, done) && k in m && k !in done && Find(qs, k).None?
    ensures Settled(ks, qs + [Prop(k, New(m[k]), "")], m, done + {k})
  {
    var rs := qs + [Prop(k, New(m[k]), "")];
    SettledNames(ks, qs, m, done);
    forall j | 0 <= j < |ks| ensures SettledProp(ks, j, rs[j], m, done + {k}) {
      assert SettledProp(ks, j, qs[j], m, done) && qs[j].name != k;
    }
    assert !Named(ks, k);
    assert rs[|qs|].name == k;
    forall l | l in done + {k} ensures Named(rs, l) {
      if l != k {
        var j :| 0 <= j < |qs| && qs[j].name == l;
        assert rs[j].name == l;
      }
    }
  }

  /** Before the loop nothing is settled, after it everything is. */
  lemma SettledEnds(ps: seq<Prop>, qs: seq<Prop>, m: map<string, Json>)
    ensures Settled(Kept(ps, m), Kept(ps, m), m, {})
    ensures Settled(Kept(ps, m), qs, m, m.Keys) ==> PropsBecome(ps, m, qs)
  {
    var ks := Kept(ps, m);
    if Settled(ks, qs, m, m.Keys) {
      forall i | 0 <= i < |ks|
        ensures if Find(ks, ks[i].name) == Some(i)
                then StillThere(ks[i], qs[i]) && Becomes(ks[i].value, m[ks[i].name], qs[i].value)
                else qs[i] == ks[i]
      {
        assert SettledProp(ks, i, qs[i], m, m.Keys);
      }
    }
  }

  predicate ParsedProps(ps: seq<Prop>) {
    forall i :: 0 <= i < |ps| ==> Parsed(ps[i].value)
  }

  /** Reconcile one object in place: drop, update, append. The keys of the target come in
      whatever order the map yields them. */
  method ReconcileObject(ps: seq<Prop>, target: map<string, Json>) returns (qs: seq<Prop>)
    requires ParsedProps(ps)
    ensures PropsBecome(ps, target, qs)
    decreases ps
  {
    qs := RemoveUnwanted(ps, target);
    ghost var ks := qs;
    SettledEnds(ps, qs, target);
    var todo := target.Keys;
    while todo != {}
      invariant todo <= target.Keys && Settled(ks, qs, target, target.Keys - todo)
      decreases |todo|
    {
      var key :| key in todo;
      ghost var done := target.Keys - todo;
      assert target.Keys - (todo - {key}) == done + {key};
      var i := Find(qs, key);
      if i.Some? {
        UnsettledFound(ks, qs, target, done, key);
        var q := UpdateProp(ps, qs[i.value], target[key]);
        SettleOld(ks, qs, target, done, key, i.value, q);
        qs := qs[i.value := q];
      } else {
        SettleNew(ks, qs, target, done, key);
        qs := qs + [Prop(key, New(target[key]), "")];
      }
      todo := todo - {key};
    }
    assert target.Keys - {} == target.Keys;
    SettledEnds(ps, qs, target);
  }

  /** Bring one property to its wanted value, skipping the write when it is already there. */
  method UpdateProp(ghost ps: seq<Prop>, p: Prop, v: Json) returns (q: Prop)
    requires p in ps && Parsed(p.value)
    ensures StillThere(p, q) && Becomes(p.value, v, q.value)
    decreases ps, 0
  {
    if Value(p.value) == v {
      return p;
    }
    if v.Obj? && p.value.Node? {
      var qs := ReconcileObject(p.value.props, v.fields);
      q := p.(value := Node(qs, p.value.text));
    } else {
      q := p.(value := New(v));
    }
  }

  /** Apply a clean document onto a parsed tree; nothing when either is not an object. The result has
      the document's value exactly when no repeated name stands in the way. */
  method ReconcilePreservingComments(root: Cst, clean: Json) returns (r: Option<Cst>)
    requires Parsed(root)
    ensures r.Some? <==> clean.Obj? && root.Node?
    ensures r.Some? ==> r.value.Node? && r.value.text == root.text
    ensures r.Some? ==> PropsBecome(root.props, clean.fields, r.value.props)
    ensures r.Some? ==> (Value(r.value) == clean <==> PropsReach(root.props, clean.fields))
  {
    if !clean.Obj? || !root.Node? {
      return None;
    }
    var qs := ReconcileObject(root.props, clean.fields);
    r := Some(Node(qs, root.text));
    PropsHaveValuesIff(root.props, clean.fields, qs);
  }
}
