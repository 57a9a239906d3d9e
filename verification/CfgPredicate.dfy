/**
  The evaluator for `cfg(...)` predicates: a recursive-descent parser that
  moves one cursor over the tokens. Running off the end of the tokens, or
  negating nothing, is an error, given here as `None`.
 */
module CfgPredicate {
  import opened Utils

  type Token = string

  const OPEN: Token := "("
  const CLOSE: Token := ")"
  const COMMA: Token := ","
  const EQUALS: Token := "="

  // ----- Predicates and how they are spelled --------------------------------------------------------

  datatype Op = All | Any | Not

  datatype Cfg = Key(name: Token) | Pair(name: Token, value: Token) | Group(op: Op, items: Items)

  /** What a group holds; a comma may follow any item, the last one too. */
  datatype Items = End | Item(cfg: Cfg, comma: bool, rest: Items)

  function OpWord(op: Op): (r: Token) {
    match op
    case All => "all"
    case Any => "any"
    case Not => "not"
  }

  function Tokens(t: Cfg): (r: seq<Token>) {
    match t
    case Key(name) => [name]
    case Pair(name, value) => [name, EQUALS, value]
    case Group(op, items) => [OpWord(op), OPEN] + (ItemTokens(items) + [CLOSE])
  }

  function ItemTokens(items: Items): (r: seq<Token>) {
    match items
    case End => []
    case Item(cfg, comma, rest) => Tokens(cfg) + ((if comma then [COMMA] else []) + ItemTokens(rest))
  }

  predicate IsWord(w: Token) { w != OPEN && w != CLOSE && w != COMMA && w != EQUALS }

  /** Keys are words, not punctuation; `all`, `any` and `not` may be keys too. */
  predicate Spelled(t: Cfg) {
    match t
    case Key(name) => IsWord(name)
    case Pair(name, _) => IsWord(name)
    case Group(_, items) => AllSpelled(items)
  }

  predicate AllSpelled(items: Items) {
    items.Item? ==> Spelled(items.cfg) && AllSpelled(items.rest)
  }

  // ----- What predicates mean -----------------------------------------------------------------------------

  predicate Holds(t: Cfg, cfgs: set<string>) {
    match t
    case Key(name) => name in cfgs
    case Pair(name, value) => name + "=" + value in cfgs
    case Group(All, items) => AllHold(items, cfgs)
    case Group(Any, items) => SomeHolds(items, cfgs)
    case Group(Not, items) => items.Item? && !Holds(items.cfg, cfgs)
  }

  predicate AllHold(items: Items, cfgs: set<string>) {
    items.Item? ==> Holds(items.cfg, cfgs) && AllHold(items.rest, cfgs)
  }

  predicate SomeHolds(items: Items, cfgs: set<string>) {
    items.Item? && (Holds(items.cfg, cfgs) || SomeHolds(items.rest, cfgs))
  }

  /** Every `not` has something to negate. */
  predicate Sound(t: Cfg) {
    t.Group? ==> (t.op == Not ==> t.items.Item?) && AllSound(t.items)
  }

  predicate AllSound(items: Items) {
    items.Item? ==> Sound(items.cfg) && AllSound(items.rest)
  }

  // ----- Reading tokens --------------------------------------------------------------------------------------

  datatype Read<T> = Read(value: T, rest: seq<Token>)

  predicate IsOp(w: Token) { w == "all" || w == "any" || w == "not" }

  function Combine(word: Token, values: seq<bool>): (r: Option<bool>) {
    if word == "all" then Some(false !in values)
    else if word == "any" then Some(true in values)
    else if values == [] then None
    else Some(!values[0])
  }

  /** The value of the predicate that leads `s`, and what is left after it. */
  function Eval(s: seq<Token>, cfgs: set<string>): (r: Option<Read<bool>>)
    ensures r.Some? ==> |r.value.rest| < |s|
    decreases |s|, 0
  {
    if s == [] then None
    else if |s| > 1 && IsOp(s[0]) && s[1] == OPEN then
      var values := Values(s[2..], cfgs);
      if values.None? then None
      else
        var b := Combine(s[0], values.value.value);
        if b.None? then None else Some(Read(b.value, values.value.rest))
    else if |s| > 1 && s[1] == EQUALS then
      if |s| == 2 then None else Some(Read(s[0] + "=" + s[2] in cfgs, s[3..]))
    else Some(Read(s[0] in cfgs, s[1..]))
  }

  function SkipComma(s: seq<Token>): (r: seq<Token>)
    requires s != []
  {
    if s[0] == COMMA then s[1..] else s
  }

  /** The values up to the closing parenthesis, and what is left after it. */
  function Values(s: seq<Token>, cfgs: set<string>): (r: Option<Read<seq<bool>>>)
    ensures r.Some? ==> |r.value.rest| < |s|
    decreases |s|, 1
  {
    if s == [] then None
    else if s[0] == CLOSE then Some(Read([], s[1..]))
    else
      var first := Eval(s, cfgs);
      if first.None? || first.value.rest == [] then None
      else
        var more := Values(SkipComma(first.value.rest), cfgs);
        if more.None? then None else Some(Read([first.value.value] + more.value.value, more.value.rest))
  }

  // ----- The evaluator gives a predicate its meaning ----------------------------------------------------------

  function Verdicts(items: Items, cfgs: set<string>): (r: seq<bool>) {
    if items.End? then [] else [Holds(items.cfg, cfgs)] + Verdicts(items.rest, cfgs)
  }

  lemma VerdictsDecide(items: Items, cfgs: set<string>)
    ensures AllHold(items, cfgs) <==> false !in Verdicts(items, cfgs)
    ensures SomeHolds(items, cfgs) <==> true in Verdicts(items, cfgs)
  {
  }

  /** What may come after a predicate without changing how it reads. */
  predicate Follows(rest: seq<Token>) {
    rest == [] || (rest[0] != OPEN && rest[0] != EQUALS)
  }

  lemma FirstToken(t: Cfg)
    requires Spelled(t)
    ensures Tokens(t) != [] && IsWord(Tokens(t)[0])
  {
  }

  lemma ItemsFollow(items: Items, rest: seq<Token>)
    requires AllSpelled(items)
    ensures var s := ItemTokens(items) + ([CLOSE] + rest);
            s != [] && s[0] != OPEN && s[0] != EQUALS && s[0] != COMMA
  {
    if items.Item? {
      FirstToken(items.cfg);
      var s := ItemTokens(items) + ([CLOSE] + rest);
      assert s[0] == Tokens(items.cfg)[0];
    }
  }

  /**
    The theorem: on the spelling of any predicate, whatever follows it, the
    evaluator consumes exactly that spelling and returns what the predicate
    means - unless some `not` is empty, and then it is an error.
   */
  lemma {:induction false} EvalSpelled(t: Cfg, rest: seq<Token>, cfgs: set<string>)
    requires Spelled(t) && Follows(rest)
    ensures Eval(Tokens(t) + rest, cfgs) == if Sound(t) then Some(Read(Holds(t, cfgs), rest)) else None
    decreases t
  {
    var s := Tokens(t) + rest;
    match t
    case Key(name) => assert s[1..] == rest;
    case Pair(name, value) => assert s[3..] == rest;
    case Group(op, items) =>
      var inner := ItemTokens(items) + ([CLOSE] + rest);
      assert s[2..] == inner;
      ValuesSpelled(items, rest, cfgs);
      VerdictsDecide(items, cfgs);
      EvalGroup(op, inner, s, cfgs);
  }

  lemma EvalGroup(op: Op, inner: seq<Token>, s: seq<Token>, cfgs: set<string>)
    requires |s| > 1 && s[0] == OpWord(op) && s[1] == OPEN && s[2..] == inner
    ensures var values := Values(inner, cfgs);
            Eval(s, cfgs)
            == if values.None? || (op == Not && values.value.value == []) then None
               else Some(Read(match op
                              case All => false !in values.value.value
                              case Any => true in values.value.value
                              case Not => !values.value.value[0], values.value.rest))
  {
  }

  lemma {:induction false} ValuesSpelled(items: Items, rest: seq<Token>, cfgs: set<string>)
    requires AllSpelled(items)
    ensures
      Values(ItemTokens(items) + ([CLOSE] + rest), cfgs)
      == if AllSound(items) then Some(Read(Verdicts(items, cfgs), rest)) else None
    decreases items
  {
    var s := ItemTokens(items) + ([CLOSE] + rest);
    match items
    case End =>
      assert s == [CLOSE] + rest && s[1..] == rest;
    case Item(cfg, comma, more) =>
      var after := ItemTokens(more) + ([CLOSE] + rest);
      var tail := (if comma then [COMMA] else []) + after;
      assert s == Tokens(cfg) + tail;
      ItemsFollow(more, rest);
      EvalSpelled(cfg, tail, cfgs);
      ValuesSpelled(more, rest, cfgs);
      FirstToken(cfg);
      assert s[0] == Tokens(cfg)[0];
      assert SkipComma(tail) == after by {
        if comma {
          assert tail[1..] == after;
        }
      }
  }

  // ----- Predicates that break off ------------------------------------------------------------------------------

  /** Broken off anywhere, a predicate is an error or all that is left of it is read as a key. */
  lemma {:induction false} EvalCut(t: Cfg, n: nat, cfgs: set<string>)
    requires Spelled(t) && 0 < n < |Tokens(t)|
    ensures var e := Eval(Tokens(t)[..n], cfgs); e.None? || (n == 1 && e.value.rest == [])
    decreases t, 1
  {
    var s := Tokens(t)[..n];
    assert s[0] == Tokens(t)[0];
    if n == 1 {
      assert s[1..] == [];
    } else if t.Group? {
      assert s[1] == OPEN;
      ItemsBreakOff(t, n, cfgs);
    }
  }

  lemma {:induction false} ItemsBreakOff(t: Cfg, n: nat, cfgs: set<string>)
    requires Spelled(t) && t.Group? && 2 <= n < |Tokens(t)|
    ensures Values(Tokens(t)[..n][2..], cfgs) == None
    decreases t, 0
  {
    var all := ItemTokens(t.items);
    assert Tokens(t)[..n][2..] == all[..n - 2];
    ValuesCut(t.items, n - 2, cfgs);
  }

  lemma {:induction false} ValuesCut(items: Items, n: nat, cfgs: set<string>)
    requires AllSpelled(items) && n <= |ItemTokens(items)|
    ensures Values(ItemTokens(items)[..n], cfgs) == None
    decreases items, 2
  {
    if n > 0 {
      var (first, s) := (Tokens(items.cfg), ItemTokens(items)[..n]);
      FirstToken(items.cfg);
      assert s[0] == first[0];
      if n < |first| {
        assert s == first[..n];
        EvalCut(items.cfg, n, cfgs);
      } else {
        TailCut(items, n - |first|, cfgs);
      }
    }
  }

  /** The first item is whole, and the rest breaks off. */
  lemma {:induction false} TailCut(items: Items, m: nat, cfgs: set<string>)
    requires AllSpelled(items) && items.Item? && |Tokens(items.cfg)| + m <= |ItemTokens(items)|
    ensures Values(ItemTokens(items)[..|Tokens(items.cfg)| + m], cfgs) == None
    decreases items, 1
  {
    var (first, more, comma) := (Tokens(items.cfg), ItemTokens(items.rest), if items.comma then [COMMA] else []);
    var tail := comma + more;
    var s := ItemTokens(items)[..|first| + m];
    assert s == first + tail[..m];
    FirstToken(items.cfg);
    assert s[0] == first[0];
    if items.rest.Item? { FirstToken(items.rest.cfg); assert more[0] == Tokens(items.rest.cfg)[0]; }
    assert Follows(tail[..m]);
    EvalSpelled(items.cfg, tail[..m], cfgs);
    if m > 0 {
      var rest := SkipComma(tail[..m]);
      var k := m - |comma|;
      assert rest == more[..k];
      ValuesCut(items.rest, k, cfgs);
    }
  }

  /** A group that is not closed, wherever it breaks off, is an error. */
  lemma UnclosedIsError(t: Cfg, n: nat, cfgs: set<string>)
    requires Spelled(t) && t.Group? && 2 <= n < |Tokens(t)|
    ensures Eval(Tokens(t)[..n], cfgs) == None
  {
    EvalCut(t, n, cfgs);
  }

  // ----- Groups of keys, token by token -------------------------------------------------------------------------

  /** Keys with a comma behind each but the last. */
  function KeyList(ks: seq<Token>): (r: seq<Token>) {
    if ks == [] then [] else if |ks| == 1 then ks else [ks[0], ","] + KeyList(ks[1..])
  }

  predicate AreWords(ks: seq<Token>) {
    forall i :: 0 <= i < |ks| ==> ks[i] != "(" && ks[i] != ")" && ks[i] != "," && ks[i] != "="
  }

  predicate AllSet(ks: seq<Token>, cfgs: set<string>) { forall i :: 0 <= i < |ks| ==> ks[i] in cfgs }

  predicate SomeSet(ks: seq<Token>, cfgs: set<string>) { exists i :: 0 <= i < |ks| && ks[i] in cfgs }

  function KeyItems(ks: seq<Token>): (r: Items) {
    if ks == [] then End else Item(Key(ks[0]), |ks| > 1, KeyItems(ks[1..]))
  }

  lemma {:induction false} KeyItemsAre(ks: seq<Token>, cfgs: set<string>)
    requires AreWords(ks)
    ensures AllSpelled(KeyItems(ks)) && AllSound(KeyItems(ks))
    ensures AllHold(KeyItems(ks), cfgs) <==> AllSet(ks, cfgs)
    ensures SomeHolds(KeyItems(ks), cfgs) <==> SomeSet(ks, cfgs)
    decreases |ks|
  {
    if ks != [] {
      KeyItemsAre(ks[1..], cfgs);
      SetCons(ks, cfgs);
      assert IsWord(ks[0]);
    }
  }

  lemma SetCons(ks: seq<Token>, cfgs: set<string>)
    requires ks != []
    ensures AllSet(ks, cfgs) <==> ks[0] in cfgs && AllSet(ks[1..], cfgs)
    ensures SomeSet(ks, cfgs) <==> ks[0] in cfgs || SomeSet(ks[1..], cfgs)
  {
    assert forall i :: 1 <= i < |ks| ==> ks[i] == ks[1..][i - 1];
  }

  lemma {:induction false} KeyItemsSpell(ks: seq<Token>)
    ensures ItemTokens(KeyItems(ks)) == KeyList(ks)
    decreases |ks|
  {
    if ks != [] {
      KeyItemsSpell(ks[1..]);
      if |ks| == 1 {
        assert ks == [ks[0]] + ([] + KeyList([]));
      } else {
        assert [ks[0]] + ([","] + KeyList(ks[1..])) == [ks[0], ","] + KeyList(ks[1..]);
      }
    }
  }

  /** `all(a, b, ...)`: every key is set. `any(a, b, ...)`: some key is. `not(a)`: the key is not. */
  lemma {:induction false} GroupsOfKeys(ks: seq<Token>, cfgs: set<string>)
    requires AreWords(ks)
    ensures Eval(["all", "("] + (KeyList(ks) + [")"]), cfgs) == Some(Read(AllSet(ks, cfgs), []))
    ensures Eval(["any", "("] + (KeyList(ks) + [")"]), cfgs) == Some(Read(SomeSet(ks, cfgs), []))
    ensures var e := Eval(["not", "("] + (KeyList(ks) + [")"]), cfgs);
            if ks == [] then e == None
            else e.Some? && e.value.rest == [] && (e.value.value <==> ks[0] !in cfgs)
  {
    KeyItemsAre(ks, cfgs);
    GroupOf(All, ks, cfgs);
    GroupOf(Any, ks, cfgs);
    GroupOf(Not, ks, cfgs);
  }

  lemma {:induction false} GroupOf(op: Op, ks: seq<Token>, cfgs: set<string>)
    requires AreWords(ks)
    ensures var t := Group(op, KeyItems(ks));
            Eval([OpWord(op), "("] + (KeyList(ks) + [")"]), cfgs)
            == if Sound(t) then Some(Read(Holds(t, cfgs), [])) else None
  {
    var t := Group(op, KeyItems(ks));
    KeyItemsAre(ks, cfgs);
    KeyItemsSpell(ks);
    EvalSpelled(t, [], cfgs);
    assert Tokens(t) + [] == [OpWord(op), "("] + (KeyList(ks) + [")"]);
  }

  /** `key = "value"`: the pair is set as one word. */
  lemma {:induction false} PairOfWords(key: Token, value: Token, cfgs: set<string>)
    requires AreWords([key])
    ensures var e := Eval([key, "=", value], cfgs);
            e.Some? && e.value.rest == [] && (e.value.value <==> key + "=" + value in cfgs)
    ensures var e := Eval([key], cfgs); e.Some? && e.value.rest == [] && (e.value.value <==> key in cfgs)
  {
    assert IsWord([key][0]);
    EvalSpelled(Pair(key, value), [], cfgs);
    EvalSpelled(Key(key), [], cfgs);
    assert [key, "=", value] + [] == [key, "=", value] && [key] + [] == [key];
  }

  // ----- The evaluator as it runs ------------------------------------------------------------------------------

  function Prepend(values: seq<bool>, r: Option<Read<seq<bool>>>): (q: Option<Read<seq<bool>>>) {
    if r.None? then None else Some(Read(values + r.value.value, r.value.rest))
  }

  lemma PrependEnds(values: seq<bool>, r: Option<Read<seq<bool>>>, rest: seq<Token>)
    ensures Prepend([], r) == r
    ensures Prepend(values, Some(Read([], rest))) == Some(Read(values, rest))
  {
    assert values + [] == values;
    if r.Some? {
      assert [] + r.value.value == r.value.value;
    }
  }

  lemma PrependNext(values: seq<bool>, s: seq<Token>, cfgs: set<string>)
    requires s != [] && s[0] != CLOSE
    ensures var e := Eval(s, cfgs);
            Prepend(values, Values(s, cfgs))
            == if e.None? || e.value.rest == [] then None
               else Prepend(values + [e.value.value], Values(SkipComma(e.value.rest), cfgs))
  {
    var e := Eval(s, cfgs);
    if e.Some? && e.value.rest != [] {
      var more := Values(SkipComma(e.value.rest), cfgs);
      if more.Some? {
        assert values + ([e.value.value] + more.value.value) == values + [e.value.value] + more.value.value;
      }
    }
  }

  class Evaluator {
    const tokens: seq<Token>
    const cfgs: set<string>
    var pos: nat

    constructor (tokens: seq<Token>, cfgs: set<string>)
      ensures this.tokens == tokens && this.cfgs == cfgs && pos == 0
    {
      this.tokens, this.cfgs, pos := tokens, cfgs, 0;
    }

    /** Reads one predicate and leaves the cursor behind it. */
    method Predicate() returns (r: Option<bool>)
      requires pos <= |tokens|
      modifies this`pos
      ensures old(pos) <= pos <= |tokens|
      ensures r.Some? ==> old(pos) < pos
      ensures var e := Eval(tokens[old(pos)..], cfgs);
              if r.None? then e == None else e == Some(Read(r.value, tokens[pos..]))
      decreases |tokens| - pos, 0
    {
      ghost var s := tokens[pos..];
      if pos == |tokens| {
        return None;
      }
      var word := tokens[pos];
      pos := pos + 1;
      if IsOp(word) && pos < |tokens| && tokens[pos] == OPEN {
        pos := pos + 1;
        assert s[2..] == tokens[pos..];
        var values := ReadValues();
        if values.None? {
          return None;
        }
        return Combine(word, values.value);
      }
      if pos < |tokens| && tokens[pos] == EQUALS {
        if pos + 1 == |tokens| {
          return None;
        }
        var value := tokens[pos + 1];
        pos := pos + 2;
        assert s[3..] == tokens[pos..];
        return Some(word + "=" + value in cfgs);
      }
      assert s[1..] == tokens[pos..];
      return Some(word in cfgs);
    }

    /** One item of a group and the comma behind it, if there is one; a group does not end here. */
    method ReadItem() returns (r: Option<bool>)
      requires pos <= |tokens|
      modifies this`pos
      ensures old(pos) <= pos <= |tokens| && (r.Some? ==> old(pos) < pos)
      ensures var e := Eval(tokens[old(pos)..], cfgs);
              if e.None? || e.value.rest == [] then r == None
              else r == Some(e.value.value) && tokens[pos..] == SkipComma(e.value.rest)
      decreases |tokens| - pos, 1
    {
      r := Predicate();
      if r.None? || pos == |tokens| {
        return None;
      }
      if tokens[pos] == COMMA {
        assert tokens[pos..][1..] == tokens[pos + 1..];
        pos := pos + 1;
      }
    }

    /** The loop over the items of a group, past its closing parenthesis. */
    method ReadValues() returns (r: Option<seq<bool>>)
      requires pos <= |tokens|
      modifies this`pos
      ensures old(pos) <= pos <= |tokens|
      ensures var v := Values(tokens[old(pos)..], cfgs);
              if r.None? then v == None else v == Some(Read(r.value, tokens[pos..]))
      decreases |tokens| - pos, 2
    {
      var values: seq<bool> := [];
      ghost var whole := Values(tokens[pos..], cfgs);
      PrependEnds([], whole, []);
      while pos < |tokens| && tokens[pos] != CLOSE
        invariant old(pos) <= pos <= |tokens|
        invariant whole == Prepend(values, Values(tokens[pos..], cfgs))
        decreases |tokens| - pos
      {
        PrependNext(values, tokens[pos..], cfgs);
        var value := ReadItem();
        if value.None? {
          return None;
        }
        values := values + [value.value];
      }
      if pos == |tokens| {
        return None;
      }
      assert tokens[pos..][1..] == tokens[pos + 1..];
      pos := pos + 1;
      PrependEnds(values, None, tokens[pos..]);
      return Some(values);
    }
  }

  /** Evaluating the tokens of a whole predicate. */
  method Evaluate(tokens: seq<Token>, cfgs: set<string>) returns (r: Option<bool>)
    ensures r == (var e := Eval(tokens, cfgs); if e.None? then None else Some(e.value.value))
    ensures forall t | Spelled(t) && tokens == Tokens(t) :: r == if Sound(t) then Some(Holds(t, cfgs)) else None
  {
    var e := new Evaluator(tokens, cfgs);
    assert tokens[0..] == tokens;
    r := e.Predicate();
    forall t | Spelled(t) && tokens == Tokens(t)
      ensures Eval(tokens, cfgs) == if Sound(t) then Some(Read(Holds(t, cfgs), [])) else None
    {
      EvalSpelled(t, [], cfgs);
      assert Tokens(t) + [] == Tokens(t);
    }
  }
}
