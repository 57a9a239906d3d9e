/**
  The text of a dependency's `target`: a plain triple, or a `cfg(...)` predicate that is cut into
  tokens and evaluated.
 */
module CfgText {
  import opened CfgPredicate
  import opened Utils

  // ----- Cutting text into tokens ------------------------------------------------------------------

  predicate IsWordStart(c: char) { 'A' <= c <= 'Z' || 'a' <= c <= 'z' || c == '_' }

  predicate IsWordChar(c: char) { IsWordStart(c) || '0' <= c <= '9' }

  predicate IsMark(c: char) { c == '(' || c == ')' || c == ',' || c == '=' }

  /** Words start with a letter or an underscore, ... */
  lemma WordStartIff(c: char)
    ensures IsWordStart(c)
            <==> c in "ABCDEFGHIJKLMNOPQRSTUVWXYZ" || c in "abcdefghijklmnopqrstuvwxyz" || c in "_"
  {
  }

  /** ... go on with these and digits, and the marks are parentheses, comma and equals sign. */
  lemma WordCharIff(c: char)
    ensures IsWordChar(c) <==> IsWordStart(c) || c in "0123456789"
    ensures IsMark(c) <==> c in "(),="
  {
  }

  /** Where the run of word characters from `n` on ends. */
  function WordEnd(s: string, n: nat): (r: nat)
    requires n <= |s|
    ensures n <= r <= |s|
    decreases |s| - n
  {
    if n < |s| && IsWordChar(s[n]) then WordEnd(s, n + 1) else n
  }

  /** Behind the first quotation mark from `n` on; 0 when there is none. */
  function QuoteEnd(s: string, n: nat): (r: nat)
    requires n <= |s|
    ensures r == 0 || n < r <= |s|
    decreases |s| - n
  {
    if n == |s| then 0 else if s[n] == '"' then n + 1 else QuoteEnd(s, n + 1)
  }

  /** Length of the token that starts `s`; 0 when none does. */
  function TokenLen(s: string): (r: nat)
    ensures r <= |s|
  {
    if s == "" then 0
    else if IsWordStart(s[0]) then WordEnd(s, 1)
    else if s[0] == '"' then QuoteEnd(s, 1)
    else if IsMark(s[0]) then 1
    else 0
  }

  /** All tokens from left to right; characters that start none are skipped. */
  function Lex(s: string): (r: seq<Token>)
    decreases |s|
  {
    if s == "" then []
    else
      var n := TokenLen(s);
      if n == 0 then Lex(s[1..]) else [s[..n]] + Lex(s[n..])
  }

  // ----- Text that spells tokens -----------------------------------------------------------------------

  predicate IsWordToken(t: Token) {
    t != "" && IsWordStart(t[0]) && forall i :: 0 <= i < |t| ==> IsWordChar(t[i])
  }

  predicate IsQuoted(t: Token) {
    |t| >= 2 && t[0] == '"' && t[|t| - 1] == '"' && forall i :: 1 <= i < |t| - 1 ==> t[i] != '"'
  }

  predicate IsLexeme(t: Token) {
    IsWordToken(t) || IsQuoted(t) || (|t| == 1 && IsMark(t[0]))
  }

  /** Space and whatever else no token is made of. */
  predicate IsGap(g: string) {
    forall i :: 0 <= i < |g| ==> !IsWordChar(g[i]) && g[i] != '"' && !IsMark(g[i])
  }

  /** Gaps around tokens, with something between any two words. */
  predicate Separates(gaps: seq<string>, ts: seq<Token>) {
    && |gaps| == |ts| + 1 && (forall i :: 0 <= i < |gaps| ==> IsGap(gaps[i]))
    && (forall i :: 0 <= i < |ts| ==> IsLexeme(ts[i]))
    && (forall i :: 1 <= i < |ts| && gaps[i] == "" ==> !(IsWordToken(ts[i - 1]) && IsWordToken(ts[i])))
  }

  /** The tokens written out with the gaps around them. */
  function Layout(gaps: seq<string>, ts: seq<Token>): (r: string)
    requires |gaps| == |ts| + 1
    decreases |ts|
  {
    if ts == [] then gaps[0] else gaps[0] + (ts[0] + Layout(gaps[1..], ts[1..]))
  }

  lemma {:induction false} LexGap(g: string, s: string)
    requires IsGap(g)
    ensures Lex(g + s) == Lex(s)
    decreases |g|
  {
    if g == "" {
      assert g + s == s;
    } else {
      LexGap(g[1..], s);
      assert (g + s)[0] == g[0] && (g + s)[1..] == g[1..] + s;
      assert TokenLen(g + s) == 0;
    }
  }

  lemma {:induction false} WordEndAt(t: string, s: string, n: nat)
    requires n <= |t| && forall i :: n <= i < |t| ==> IsWordChar(t[i])
    requires s != "" ==> !IsWordChar(s[0])
    ensures WordEnd(t + s, n) == |t|
    decreases |t| - n
  {
    if n < |t| {
      WordEndAt(t, s, n + 1);
      assert (t + s)[n] == t[n];
    } else if s != "" {
      assert (t + s)[n] == s[0];
    }
  }

  lemma {:induction false} QuoteEndAt(t: string, s: string, n: nat)
    requires IsQuoted(t) && 1 <= n < |t|
    ensures QuoteEnd(t + s, n) == |t|
    decreases |t| - n
  {
    assert (t + s)[n] == t[n];
    if n < |t| - 1 { QuoteEndAt(t, s, n + 1); }
  }

  /** A token in front of text that does not prolong it is cut off whole. */
  lemma LexToken(t: Token, s: string)
    requires IsLexeme(t) && (IsWordToken(t) && s != "" ==> !IsWordChar(s[0]))
    ensures Lex(t + s) == [t] + Lex(s)
  {
    assert (t + s)[0] == t[0];
    if IsWordToken(t) {
      WordEndAt(t, s, 1);
    } else if IsQuoted(t) {
      QuoteEndAt(t, s, 1);
    }
    assert TokenLen(t + s) == |t|;
    assert (t + s)[..|t|] == t && (t + s)[|t|..] == s;
  }

  /** What a layout starts with: its first gap, or its first token. */
  lemma LayoutStarts(gaps: seq<string>, ts: seq<Token>)
    requires Separates(gaps, ts) && Layout(gaps, ts) != "" && IsWordChar(Layout(gaps, ts)[0])
    ensures gaps[0] == "" && ts != [] && IsWordToken(ts[0])
  {
    if gaps[0] == "" { assert Layout(gaps, ts)[0] == ts[0][0]; }
  }

  lemma SeparatesTail(gaps: seq<string>, ts: seq<Token>)
    requires Separates(gaps, ts) && ts != []
    ensures Separates(gaps[1..], ts[1..])
  {
    forall i | 1 <= i < |ts[1..]| && gaps[1..][i] == ""
      ensures !(IsWordToken(ts[1..][i - 1]) && IsWordToken(ts[1..][i]))
    {
      assert gaps[i + 1] == "" && ts[1..][i - 1] == ts[i] && ts[1..][i] == ts[i + 1];
    }
  }

  /** Cutting a layout gives its tokens back, however it is spaced. */
  lemma {:induction false} LexLayout(gaps: seq<string>, ts: seq<Token>)
    requires Separates(gaps, ts)
    ensures Lex(Layout(gaps, ts)) == ts
    decreases |ts|
  {
    if ts == [] {
      LexGap(gaps[0], "");
      assert gaps[0] + "" == gaps[0];
    } else {
      var rest := Layout(gaps[1..], ts[1..]);
      SeparatesTail(gaps, ts);
      LexLayout(gaps[1..], ts[1..]);
      if rest != "" && IsWordChar(rest[0]) { LayoutStarts(gaps[1..], ts[1..]); }
      LexToken(ts[0], rest);
      LexGap(gaps[0], ts[0] + rest);
    }
  }

  // ----- The whole target ---------------------------------------------------------------------------------

  const CFG_OPEN: string := "cfg("

  /** White space as `str.strip` takes it off. */
  predicate IsSpace(c: char) {
    var n := c as int;
    || 0x09 <= n <= 0x0D || 0x1C <= n <= 0x20 || n == 0x85 || n == 0xA0 || n == 0x1680
    || 0x2000 <= n <= 0x200A || n == 0x2028 || n == 0x2029 || n == 0x202F || n == 0x205F || n == 0x3000
  }

  function Strip(s: string): (r: string)
    decreases |s|
  {
    if s == "" then s
    else if IsSpace(s[0]) then Strip(s[1..])
    else if IsSpace(s[|s| - 1]) then Strip(s[..|s| - 1])
    else s
  }

  predicate AllSpace(s: string) {
    forall i :: 0 <= i < |s| ==> IsSpace(s[i])
  }

  lemma {:induction false} StripSurrounded(before: string, s: string, after: string)
    requires AllSpace(before) && AllSpace(after) && s != "" && !IsSpace(s[0]) && !IsSpace(s[|s| - 1])
    ensures Strip(before + s + after) == s
    decreases |before| + |after|
  {
    var t := before + s + after;
    if before != "" {
      StripSurrounded(before[1..], s, after);
      assert t[0] == before[0] && t[1..] == before[1..] + s + after;
    } else if after != "" {
      var m := |after| - 1;
      StripSurrounded(before, s, after[..m]);
      assert t[0] == s[0] && t[|t| - 1] == after[m] && t[..|t| - 1] == before + s + after[..m];
    } else {
      assert t == s;
    }
  }

  /** What stands between `cfg(` and the last character. */
  function Inner(s: string): (r: string)
    requires CFG_OPEN <= s
  {
    if |s| == |CFG_OPEN| then "" else s[|CFG_OPEN|..|s| - 1]
  }

  /** The text of a predicate: in any spacing, inside and around `cfg(...)`. */
  ghost predicate Writes(expr: string, t: Cfg, before: string, gaps: seq<string>, after: string) {
    && AllSpace(before) && AllSpace(after) && Separates(gaps, Tokens(t))
    && expr == before + (CFG_OPEN + Layout(gaps, Tokens(t)) + ")") + after
  }

  lemma WrittenIsCut(expr: string, t: Cfg, before: string, gaps: seq<string>, after: string)
    requires Writes(expr, t, before, gaps, after)
    ensures CFG_OPEN <= Strip(expr) && Lex(Inner(Strip(expr))) == Tokens(t)
  {
    var body := Layout(gaps, Tokens(t));
    var s := CFG_OPEN + body + ")";
    assert s[0] == 'c' && s[|s| - 1] == ')';
    StripSurrounded(before, s, after);
    assert Inner(s) == body;
    LexLayout(gaps, Tokens(t));
  }

  /** Evaluate a dependency's target: a plain triple must be the build's own; a predicate, however
      it is spaced, has its meaning, and an empty `not` anywhere in it is an error. */
  method CfgHolds(expr: string, cfgs: set<string>, target: string) returns (r: Option<bool>)
    ensures !(CFG_OPEN <= Strip(expr)) ==> r == Some(Strip(expr) == target)
    ensures CFG_OPEN <= Strip(expr) ==>
      r == (var e := Eval(Lex(Inner(Strip(expr))), cfgs); if e.None? then None else Some(e.value.value))
    ensures forall t, before, gaps, after | Spelled(t) && Writes(expr, t, before, gaps, after) ::
              r == if Sound(t) then Some(Holds(t, cfgs)) else None
  {
    var s := Strip(expr);
    if !(CFG_OPEN <= s) {
      r := Some(s == target);
    } else {
      r := Evaluate(Lex(Inner(s)), cfgs);
    }
    forall t, before, gaps, after | Spelled(t) && Writes(expr, t, before, gaps, after)
      ensures r == if Sound(t) then Some(Holds(t, cfgs)) else None
    {
      WrittenIsCut(expr, t, before, gaps, after);
    }
  }
}
