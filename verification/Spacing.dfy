/** Expressions written with any spaces, or none, between their tokens: exactly when the text is cut
    into its tokens, and exactly when it compiles to what it means. */
module Spacing {
  import opened Tokenizer
  import opened Compiler
  import opened MathExpression

  function Spaces(n: nat): (s: string)
    ensures |s| == n && forall i :: 0 <= i < n ==> s[i] == ' '
  {
    seq(n, _ => ' ')
  }

  /** Every token with the spaces after it. */
  function Spaced(ts: seq<string>, gaps: seq<nat>): string
    requires |gaps| == |ts|
  {
    if ts == [] then "" else ts[0] + Spaces(gaps[0]) + Spaced(ts[1..], gaps[1..])
  }

  predicate Ordinary(c: char) { c != ' ' && !StandsAlone(c) && !StartsOperator(c) }

  // ---------- the conditions ----------

  /** The scanner takes a comparison or logical operator for part of the operand before it: there is
      no space between them (`pending`), and a two-character operator came before with no space since
      (`flag`). */
  predicate Merges(ts: seq<string>, gaps: seq<nat>, pending: bool, flag: bool)
    requires |gaps| == |ts|
    decreases |ts|
  {
    ts != [] &&
    ((IsBoolOperator(ts[0]) && pending && flag) ||
     Merges(ts[1..], gaps[1..], IsOperand(ts[0]) && gaps[0] == 0, FlagAfter(flag, ts[0], gaps[0])))
  }

  function FlagAfter(flag: bool, t: string, gap: nat): bool { gap == 0 && (flag || (IsBoolOperator(t) && |t| == 2)) }

  /** The text ends in `)` with no operand right before it. */
  predicate LoneEnd(ts: seq<string>, gaps: seq<nat>, pending: bool)
    requires |gaps| == |ts| && ts != []
  {
    var n := |ts| - 1;
    ts[n] == ")" && gaps[n] == 0 && !(if n == 0 then pending else IsOperand(ts[n - 1]) && gaps[n - 1] == 0)
  }

  /** Operands and operators take turns, as in every expression. */
  predicate Follows(t: string, u: string) {
    if IsOperand(t) || t == ")" then IsOperator(u) || u == ")" else IsOperand(u) || u == "("
  }

  predicate Chain(ts: seq<string>) { AllTokens(ts) && forall i :: 0 <= i < |ts| - 1 ==> Follows(ts[i], ts[i + 1]) }

  predicate Flows(ts: seq<string>) { Chain(ts) && (ts != [] ==> IsOperand(ts[|ts| - 1]) || ts[|ts| - 1] == ")") }

  // ---------- one token ----------

  lemma {:induction false} ScanSpaces(st: Scan, n: nat, rest: string)
    requires n > 0 && rest != ""
    ensures ScanAll(st, Spaces(n) + rest) == ScanAll(Scan(Push(st.tokens, st.sym), "", false), rest)
    decreases n
  {
    assert Spaces(n) + rest == [' '] + (Spaces(n - 1) + rest);
    ScanStep(st, ' ', Spaces(n - 1) + rest);
    if n > 1 {
      ScanSpaces(Scan(Push(st.tokens, st.sym), "", false), n - 1, rest);
    } else {
      assert Spaces(0) + rest == rest;
    }
  }

  lemma BoolForms(t: string)
    requires IsBoolOperator(t)
    ensures |t| == 1 || |t| == 2
    ensures StartsOperator(t[0]) && !StandsAlone(t[0]) && t[0] != ' '
    ensures |t| == 2 ==> StartsOperator(t[1]) && IsDelim(t[1]) && !StandsAlone(t[1]) && t[1] != ' '
    ensures !IsOperand(t)
  {}

  /** An operator after a pending operand, or after none, when it does not merge. */
  lemma ScanBool(done: seq<string>, pend: string, flag: bool, t: string, rest: string)
    requires IsBoolOperator(t) && rest != "" && !(flag && pend != "")
    ensures ScanAll(Scan(done, pend, flag), t + rest) ==
            ScanAll(if IsDelim(rest[0]) then Scan(Push(done, pend), t, true)
                    else Scan(Push(done, pend) + [t], "", flag || |t| == 2), rest)
  {
    hide ScanAll, IsDelim, IsBoolOperator;
    BoolForms(t);
    assert "" + [t[0]] == [t[0]];
    if |t| == 1 {
      assert t == [t[0]];
      ScanStep(Scan(done, pend, flag), t[0], rest);
    } else {
      assert t + rest == [t[0]] + ([t[1]] + rest) && [t[0]] + [t[1]] == t;
      ScanStep(Scan(done, pend, flag), t[0], [t[1]] + rest);
      ScanStep(Scan(Push(done, pend), [t[0]], true), t[1], rest);
    }
  }

  lemma ScanAlone(done: seq<string>, pend: string, flag: bool, t: string, rest: string)
    requires |t| == 1 && StandsAlone(t[0]) && rest != ""
    ensures ScanAll(Scan(done, pend, flag), t + rest) == ScanAll(Scan(Push(done, pend) + [t], "", flag), rest)
  {
    hide ScanAll;
    assert t == [t[0]];
    ScanStep(Scan(done, pend, flag), t[0], rest);
  }

  lemma TokenKinds(t: string)
    requires IsToken(t)
    ensures IsOperand(t) || IsBoolOperator(t) || (|t| == 1 && StandsAlone(t[0]))
    ensures t != "" && t[0] != ' '
    ensures IsOperand(t) || t == "(" ==> !IsDelim(t[0])
    ensures IsMathOperator(t) || t == "(" || t == ")" ==> !IsOperand(t) && !IsBoolOperator(t)
  {}

  /** A token and the spaces after it: an operand without spaces stays pending, everything else is
      cut off. */
  lemma ScanUnit(done: seq<string>, pend: string, flag: bool, t: string, gap: nat, rest: string)
    requires IsToken(t) && rest != "" && (IsOperand(t) ==> pend == "")
    requires IsBoolOperator(t) ==> !(flag && pend != "") && (gap == 0 ==> !IsDelim(rest[0]))
    ensures ScanAll(Scan(done, pend, flag), t + Spaces(gap) + rest) ==
            ScanAll(if IsOperand(t) && gap == 0 then Scan(done, t, flag)
                    else Scan(Push(done, pend) + [t], "", FlagAfter(flag, t, gap)), rest)
  {
    hide ScanAll, IsToken, IsBoolOperator, IsOperand, StandsAlone, IsDelim;
    TokenKinds(t);
    var more := Spaces(gap) + rest;
    assert t + Spaces(gap) + rest == t + more;
    assert more[0] == (if gap == 0 then rest[0] else ' ') && (gap == 0 ==> more == rest);
    assert IsDelim(' ') by { SpaceDelimits(); }
    var st: Scan;
    if IsOperand(t) {
      ScanOperandChars(done, "", flag, t, more);
      assert "" + t == t;
      st := Scan(done, t, flag);
    } else if IsBoolOperator(t) {
      ScanBool(done, pend, flag, t, more);
      st := if IsDelim(more[0]) then Scan(Push(done, pend), t, true) else Scan(Push(done, pend) + [t], "", flag || |t| == 2);
    } else {
      ScanAlone(done, pend, flag, t, more);
      st := Scan(Push(done, pend) + [t], "", flag);
    }
    if gap > 0 { ScanSpaces(st, gap, rest); }
  }

  lemma SpaceDelimits()
    ensures IsDelim(' ')
  {}

  // ---------- the whole text ----------

  lemma SpacedFirst(ts: seq<string>, gaps: seq<nat>)
    requires |gaps| == |ts| && ts != [] && AllTokens(ts)
    ensures Spaced(ts, gaps) != "" && Spaced(ts, gaps)[0] == ts[0][0]
  {
    TokenKinds(ts[0]);
  }

  lemma {:induction false} SpacedLast(ts: seq<string>, gaps: seq<nat>)
    requires |gaps| == |ts| && ts != [] && AllTokens(ts)
    ensures var s, n := Spaced(ts, gaps), |ts| - 1;
            s != "" && ts[n] != "" && s[|s| - 1] == if gaps[n] > 0 then ' ' else ts[n][|ts[n]| - 1]
    decreases |ts|
  {
    TokenKinds(ts[|ts| - 1]);
    SpacedFirst(ts, gaps);
    hide IsToken;
    if |ts| > 1 {
      SpacedLast(ts[1..], gaps[1..]);
    } else {
      assert Spaced(ts[1..], gaps[1..]) == "";
      assert Spaced(ts, gaps) == ts[0] + Spaces(gaps[0]);
    }
  }

  /** The last token of a text. */
  lemma ScanEnd(done: seq<string>, pend: string, flag: bool, t: string, gap: nat)
    requires IsOperand(t) || t == ")"
    requires IsOperand(t) ==> pend == ""
    ensures var s := t + Spaces(gap);
            s != "" && ScanLast(ScanAll(Scan(done, pend, flag), s), s[|s| - 1]) ==
            if t == ")" && gap == 0 then done + [pend] + [t] else Push(done, pend) + [t]
  {
    var s := t + Spaces(gap);
    if gap > 0 {
      assert s == t + Spaces(gap - 1) + [' '];
      TokenKinds(t);
      ScanUnit(done, pend, flag, t, gap - 1, [' ']);
    } else {
      assert s == t;
      if IsOperand(t) {
        var n := |t| - 1;
        OperandFront(done, "", flag, t);
        assert "" + t[..n] == t[..n] && t[..n] + [t[n]] == t;
        assert Ordinary(t[n]);
      } else {
        assert t[0] == ')' && [t[0]] == t;
      }
    }
  }

  lemma FollowFacts(t: string, u: string)
    requires IsToken(t) && IsToken(u) && Follows(t, u)
    ensures t != "" && u != ""
    ensures IsBoolOperator(t) ==> !IsDelim(u[0])
    ensures IsOperand(t) ==> !IsOperand(u)
  {
    TokenKinds(t);
    TokenKinds(u);
  }

  lemma FlowsOn(ts: seq<string>)
    requires Flows(ts) && |ts| > 1
    ensures Flows(ts[1..]) && IsToken(ts[0]) && IsToken(ts[1]) && Follows(ts[0], ts[1])
  {
    hide IsToken, Follows;
    var rest := ts[1..];
    forall i | 0 <= i < |rest| - 1 ensures Follows(rest[i], rest[i + 1]) {
      assert Follows(ts[i + 1], ts[i + 1 + 1]);
    }
  }

  lemma FlowsAre(ts: seq<string>)
    requires Flows(ts)
    ensures AllTokens(ts)
  {}

  lemma OperandKeepsFlag(flag: bool, t: string)
    requires IsOperand(t)
    ensures FlagAfter(flag, t, 0) == flag
  {
    if IsBoolOperator(t) { BoolForms(t); }
  }

  lemma LoneEndRest(ts: seq<string>, gaps: seq<nat>, pending: bool)
    requires |gaps| == |ts| > 1
    ensures LoneEnd(ts, gaps, pending) <==> LoneEnd(ts[1..], gaps[1..], IsOperand(ts[0]) && gaps[0] == 0)
    ensures ts[..|ts| - 1] == [ts[0]] + ts[1..][..|ts| - 2]
  {
    hide IsOperand;
  }

  /** When nothing merges: the tokens of the text, but for an empty one before a lone final `)`. */
  function Found(ts: seq<string>, gaps: seq<nat>, pending: bool): seq<string>
    requires |gaps| == |ts| && ts != []
  {
    if LoneEnd(ts, gaps, pending) then ts[..|ts| - 1] + ["", ")"] else ts
  }

  lemma FoundRest(done: seq<string>, ts: seq<string>, gaps: seq<nat>, pending: bool)
    requires |gaps| == |ts| > 1
    ensures done + [ts[0]] + Found(ts[1..], gaps[1..], IsOperand(ts[0]) && gaps[0] == 0) == done + Found(ts, gaps, pending)
  {
    hide LoneEnd;
    LoneEndRest(ts, gaps, pending);
    assert ts == [ts[0]] + ts[1..];
  }

  lemma FoundLast(done: seq<string>, pend: string, ts: seq<string>, gaps: seq<nat>)
    requires |gaps| == |ts| == 1
    ensures (if ts[0] == ")" && gaps[0] == 0 then done + [pend] + [ts[0]] else Push(done, pend) + [ts[0]]) ==
            Push(done, pend) + Found(ts, gaps, pend != "")
  {
    assert ts == [ts[0]] && ts[..0] == [];
    if pend == "" { assert done + [""] + [")"] == done + ["", ")"]; }
  }

  lemma {:induction false} ScanSpaced(done: seq<string>, pend: string, flag: bool, ts: seq<string>, gaps: seq<nat>)
    requires |gaps| == |ts| && ts != [] && Flows(ts)
    requires IsOperand(ts[0]) ==> pend == ""
    requires !Merges(ts, gaps, pend != "", flag)
    ensures var s := Spaced(ts, gaps);
            s != "" && ScanLast(ScanAll(Scan(done, pend, flag), s), s[|s| - 1]) ==
            Push(done, pend) + Found(ts, gaps, pend != "")
    decreases |ts|
  {
    hide ScanAll, ScanLast, IsToken, IsOperator, IsBoolOperator, IsOperand, IsDelim, Found, Push;
    SpacedLast(ts, gaps);
    var s := Spaced(ts, gaps);
    var t, gap := ts[0], gaps[0];
    if |ts| == 1 {
      ScanEnd(done, pend, flag, t, gap);
      assert Spaced(ts[1..], gaps[1..]) == "" && s == t + Spaces(gap);
      FoundLast(done, pend, ts, gaps);
    } else {
      FlowsOn(ts);
      hide Flows, Follows;
      var rest := Spaced(ts[1..], gaps[1..]);
      assert AllTokens(ts[1..]) by { FlowsAre(ts[1..]); }
      SpacedFirst(ts[1..], gaps[1..]);
      FollowFacts(t, ts[1]);
      ScanUnit(done, pend, flag, t, gap, rest);
      var stays := IsOperand(t) && gap == 0;
      var next, pend2, flag2 := if stays then done else Push(done, pend) + [t], if stays then t else "", FlagAfter(flag, t, gap);
      if stays { OperandKeepsFlag(flag, t); }
      ScanSpaced(next, pend2, flag2, ts[1..], gaps[1..]);
      PushedOn(done, pend, t, stays);
      FoundRest(Push(done, pend), ts, gaps, pend != "");
      SpacedLast(ts[1..], gaps[1..]);
      assert s[|s| - 1] == rest[|rest| - 1];
    }
  }

  lemma PushedOn(done: seq<string>, pend: string, t: string, stays: bool)
    requires t != "" && (stays ==> pend == "")
    ensures Push(if stays then done else Push(done, pend) + [t], if stays then t else "") == Push(done, pend) + [t]
  {}

  // ---------- when something merges ----------

  /** An operand with an operator grown onto it: no token of any expression. */
  predicate Mixed(s: string) { exists i :: 0 < i < |s| && Ordinary(s[0]) && StartsOperator(s[i]) }

  predicate HasMixed(ts: seq<string>) { exists k :: 0 <= k < |ts| && Mixed(ts[k]) }

  lemma MixedGrows(s: string, c: char)
    requires Mixed(s)
    ensures Mixed(s + [c])
  {
    var i :| 0 < i < |s| && Ordinary(s[0]) && StartsOperator(s[i]);
    assert (s + [c])[i] == s[i] && (s + [c])[0] == s[0];
  }

  lemma HasMixedGrows(ts: seq<string>, more: seq<string>)
    requires HasMixed(ts)
    ensures HasMixed(ts + more)
  {
    var k :| 0 <= k < |ts| && Mixed(ts[k]);
    assert (ts + more)[k] == ts[k];
  }

  lemma HasMixedLast(ts: seq<string>, s: string)
    requires Mixed(s)
    ensures HasMixed(ts + [s])
  {
    assert (ts + [s])[|ts|] == s;
  }

  lemma PushMixed(ts: seq<string>, s: string)
    requires HasMixed(ts) || Mixed(s)
    ensures HasMixed(Push(ts, s))
  {
    if HasMixed(ts) { HasMixedGrows(ts, [s]); } else { HasMixedLast(ts, s); }
  }

  predicate Spoiled(st: Scan) { HasMixed(st.tokens) || Mixed(st.sym) }

  lemma SpoiledChar(st: Scan, c: char, next: char)
    requires Spoiled(st)
    ensures Spoiled(ScanChar(st, c, next))
  {
    PushMixed(st.tokens, st.sym);
    if HasMixed(st.tokens) { HasMixedGrows(st.tokens, [st.sym + [c]]); }
    if Mixed(st.sym) { MixedGrows(st.sym, c); HasMixedLast(st.tokens, st.sym + [c]); }
    var pushed := Push(st.tokens, st.sym);
    HasMixedGrows(pushed, [[c]]);
    HasMixedGrows(pushed, ["" + [c]]);
    hide HasMixed, Mixed, Push;
  }

  lemma {:induction false} SpoiledAll(st: Scan, s: string)
    requires Spoiled(st) && s != ""
    ensures Spoiled(ScanAll(st, s))
    decreases |s|
  {
    hide Spoiled, ScanChar;
    if |s| > 1 {
      SpoiledChar(st, s[0], s[1]);
      SpoiledAll(ScanChar(st, s[0], s[1]), s[1..]);
    }
  }

  lemma SpoiledLast(st: Scan, c: char)
    requires Spoiled(st)
    ensures HasMixed(ScanLast(st, c))
  {
    if HasMixed(st.tokens) { HasMixedGrows(st.tokens, [st.sym] + [[c]]); }
    if Mixed(st.sym) { MixedGrows(st.sym, c); HasMixedLast(st.tokens, st.sym); HasMixedGrows(st.tokens + [st.sym], [[c]]); }
    assert st.tokens + [st.sym] + [[c]] == st.tokens + ([st.sym] + [[c]]);
    PushMixed(st.tokens, st.sym);
    PushMixed(st.tokens, st.sym + [c]);
    hide HasMixed, Mixed, Push;
  }

  lemma MixedStart(done: seq<string>, pend: string, c: char, next: char)
    requires IsOperand(pend) && StartsOperator(c)
    ensures Spoiled(ScanChar(Scan(done, pend, true), c, next))
  {
    var sym := pend + [c];
    assert Ordinary(sym[0]) && sym[|pend|] == c;
    assert Mixed(sym);
    HasMixedLast(done, sym);
    hide HasMixed, Mixed;
    assert c != ' ' && !StandsAlone(c);
  }

  /** When something merges, the merged token is among the tokens of the text. */
  lemma {:induction false} ScanMerged(done: seq<string>, pend: string, flag: bool, ts: seq<string>, gaps: seq<nat>)
    requires |gaps| == |ts| && ts != [] && Flows(ts)
    requires (pend == "" || IsOperand(pend)) && (IsOperand(ts[0]) ==> pend == "")
    requires Merges(ts, gaps, pend != "", flag)
    ensures var s := Spaced(ts, gaps);
            s != "" && HasMixed(ScanLast(ScanAll(Scan(done, pend, flag), s), s[|s| - 1]))
    decreases |ts|
  {
    hide ScanAll, ScanLast, ScanChar, Spoiled, HasMixed, IsToken, IsOperator, IsBoolOperator, IsOperand, IsDelim, Push;
    SpacedLast(ts, gaps);
    var s := Spaced(ts, gaps);
    var t, gap := ts[0], gaps[0];
    if IsBoolOperator(t) && pend != "" && flag {
      BoolForms(t);
      SpacedFirst(ts, gaps);
      NotLast(ts, gaps);
      var st := Scan(done, pend, true);
      assert s == [s[0]] + s[1..];
      ScanStep(st, s[0], s[1..]);
      MixedStart(done, pend, s[0], s[1]);
      SpoiledAll(ScanChar(st, s[0], s[1]), s[1..]);
      SpoiledLast(ScanAll(st, s), s[|s| - 1]);
    } else {
      assert |ts| > 1;
      FlowsOn(ts);
      FlowsAre(ts[1..]);
      hide Flows, Follows;
      var rest := Spaced(ts[1..], gaps[1..]);
      assert s == t + Spaces(gap) + rest;
      SpacedFirst(ts[1..], gaps[1..]);
      FollowFacts(t, ts[1]);
      ScanUnit(done, pend, flag, t, gap, rest);
      var stays := IsOperand(t) && gap == 0;
      if stays { OperandKeepsFlag(flag, t); }
      ScanMerged(if stays then done else Push(done, pend) + [t], if stays then t else "", FlagAfter(flag, t, gap), ts[1..], gaps[1..]);
      SpacedLast(ts[1..], gaps[1..]);
      assert s[|s| - 1] == rest[|rest| - 1];
    }
  }

  /** An operator is not the last token. */
  lemma NotLast(ts: seq<string>, gaps: seq<nat>)
    requires |gaps| == |ts| && ts != [] && Flows(ts) && IsBoolOperator(ts[0])
    ensures |Spaced(ts, gaps)| > 1
  {
    BoolForms(ts[0]);
    FlowsOn(ts);
    SpacedFirst(ts[1..], gaps[1..]);
  }

  // ---------- expressions ----------

  lemma OperatorFacts(op: string)
    requires IsOperator(op)
    ensures IsToken(op) && !IsOperand(op) && op != "(" && op != ")"
  {
    TokenKinds(op);
    if IsBoolOperator(op) { BoolForms(op); }
  }

  lemma ParenthesisFacts()
    ensures IsToken("(") && IsToken(")") && !IsOperand("(") && !IsOperand(")")
  {
    TokenKinds("(");
    TokenKinds(")");
  }

  lemma ChainJoin(a: seq<string>, b: seq<string>)
    requires Chain(a) && Chain(b) && a != [] && b != [] && Follows(a[|a| - 1], b[0])
    ensures Chain(a + b)
  {
    hide IsToken, Follows;
    var ts := a + b;
    forall i | 0 <= i < |ts| - 1 ensures Follows(ts[i], ts[i + 1]) {
      if i < |a| - 1 {
        assert Follows(a[i], a[i + 1]);
      } else if i >= |a| {
        assert Follows(b[i - |a|], b[i - |a| + 1]);
      }
    }
  }

  lemma ChainOne(t: string)
    requires IsToken(t)
    ensures Chain([t])
  {}

  lemma {:induction false} TokensFlow(e: Expr)
    requires Spelled(e)
    ensures Flows(Tokens(e)) && (IsOperand(Tokens(e)[0]) || Tokens(e)[0] == "(")
    decreases e
  {
    hide IsOperand, IsOperator, IsToken, Chain;
    match e
    case Operand(name) =>
      assert IsToken(name) by { OperandIsToken(name); }
      ChainOne(name);
    case Binary(op, l, r) =>
      TokensFlow(l);
      TokensFlow(r);
      OperatorFacts(op);
      var a, b := Tokens(l), Tokens(r);
      ChainOne(op);
      ChainJoin([op], b);
      ChainJoin(a, [op] + b);
      assert Tokens(e) == a + ([op] + b);
    case Paren(inner) =>
      TokensFlow(inner);
      ParenthesisFacts();
      ChainOne("(");
      ChainOne(")");
      ChainJoin(Tokens(inner), [")"]);
      ChainJoin(["("], Tokens(inner) + [")"]);
      assert Tokens(e) == ["("] + (Tokens(inner) + [")"]);
  }

  lemma OperandIsToken(name: string)
    requires IsOperand(name)
    ensures IsToken(name)
  {}

  lemma MixedIsNoToken(s: string)
    requires Mixed(s)
    ensures !IsToken(s) && s != "(" && s != ")"
  {
    var i :| 0 < i < |s| && Ordinary(s[0]) && StartsOperator(s[i]);
    if IsBoolOperator(s) { BoolForms(s); }
  }

  lemma {:induction false} PostorderTokens(e: Expr)
    requires Spelled(e)
    ensures AllTokens(Postorder(e))
    decreases e
  {
    hide IsOperand, IsOperator, IsToken;
    match e
    case Operand(name) => OperandIsToken(name);
    case Binary(op, l, r) =>
      PostorderTokens(l);
      PostorderTokens(r);
      OperatorFacts(op);
    case Paren(inner) => PostorderTokens(inner);
  }

  /** The text of an expression with the given spaces before it and after each of its tokens. */
  function SpacedText(lead: nat, e: Expr, gaps: seq<nat>): string
    requires |gaps| == |Tokens(e)|
  {
    Spaces(lead) + Spaced(Tokens(e), gaps)
  }

  lemma LeadingSpaces(lead: nat, s: string)
    requires s != ""
    ensures Spaces(lead) + s != ""
    ensures TokensOf(Spaces(lead) + s) == ScanLast(ScanAll(Scan([], "", false), s), s[|s| - 1])
  {
    hide ScanAll, ScanLast;
    var text, start := Spaces(lead) + s, Scan([], "", false);
    assert text[|text| - 1] == s[|s| - 1];
    if lead == 0 {
      assert text == s;
    } else {
      ScanSpaces(start, lead, s);
      assert Push([], "") == [];
    }
    hide Push, Spaces;
  }

  /** What the tokenizer makes of the text of an expression, for any spaces: the expression's tokens
      exactly when no operator merges with the operand before it and the text does not end in a
      lone `)`. */
  lemma SpacedTokens(lead: nat, e: Expr, gaps: seq<nat>)
    requires Spelled(e) && |gaps| == |Tokens(e)|
    ensures var ts, text := Tokens(e), SpacedText(lead, e, gaps);
            && text != ""
            && (!Merges(ts, gaps, false, false) ==> TokensOf(text) == Found(ts, gaps, false))
            && (Merges(ts, gaps, false, false) ==> HasMixed(TokensOf(text)))
            && (TokensOf(text) == ts <==> !Merges(ts, gaps, false, false) && !LoneEnd(ts, gaps, false))
  {
    hide TokensOf, ScanAll, ScanLast, Spelled, IsOperand, IsToken, Merges;
    var ts := Tokens(e);
    TokensFlow(e);
    FlowsAre(ts);
    hide Flows;
    SpacedFirst(ts, gaps);
    var s := Spaced(ts, gaps);
    LeadingSpaces(lead, s);
    if Merges(ts, gaps, false, false) {
      ScanMerged([], "", false, ts, gaps);
      if HasMixed(ts) {
        var k :| 0 <= k < |ts| && Mixed(ts[k]);
        MixedIsNoToken(ts[k]);
      }
    } else {
      ScanSpaced([], "", false, ts, gaps);
      assert Push([], "") == [] && [] + Found(ts, gaps, false) == Found(ts, gaps, false);
      hide LoneEnd;
      assert |Found(ts, gaps, false)| == if LoneEnd(ts, gaps, false) then |ts| + 1 else |ts|;
    }
  }

  lemma MergedFails(e: Expr, found: seq<string>)
    requires Spelled(e) && HasMixed(found)
    ensures Translate(found).0 != Postorder(e)
  {
    hide Spelled, Postorder, Translate, IsToken, IsOperator;
    PostorderTokens(e);
    var k :| 0 <= k < |found| && Mixed(found[k]);
    MixedIsNoToken(found[k]);
    assert !IsOperator(found[k]) by { if IsOperator(found[k]) { OperatorFacts(found[k]); } }
    assert found == found[..k] + ([found[k]] + found[k + 1..]);
    OtherTokenGoesOut(found[..k], found[k], found[k + 1..]);
  }

  lemma EmptyFails(e: Expr, front: seq<string>)
    requires Spelled(e)
    ensures Translate(front + ["", ")"]).0 != Postorder(e)
  {
    hide Spelled, Postorder, Translate;
    SpelledIsProper(e);
    assert front + ["", ")"] == front + ([""] + [")"]);
    EmptyTokenGoesOut(front, [")"]);
  }

  /** Compilation of an expression written with any spaces: it compiles to its postorder exactly when
      no operator merges and the text does not end in a lone `)`. */
  lemma SpacedCompiles(lead: nat, e: Expr, gaps: seq<nat>)
    requires Spelled(e) && Bracketed(e) && |gaps| == |Tokens(e)|
    ensures SpacedText(lead, e, gaps) != ""
    ensures CompileText(SpacedText(lead, e, gaps)) == (Postorder(e), true) <==>
            !Merges(Tokens(e), gaps, false, false) && !LoneEnd(Tokens(e), gaps, false)
  {
    hide Spelled, Bracketed, Tokens, Postorder, Translate, TokensOf, Merges, LoneEnd, HasMixed, Proper, SpacedText;
    SpacedTokens(lead, e, gaps);
    var ts, found := Tokens(e), TokensOf(SpacedText(lead, e, gaps));
    if found == ts {
      SpelledIsProper(e);
      TranslatesToPostorder(e);
    } else if Merges(ts, gaps, false, false) {
      MergedFails(e, found);
    } else {
      EmptyFails(e, ts[..|ts| - 1]);
    }
  }

  // ---------- what merging means in the text ----------

  predicate Touching(gaps: seq<nat>, i: nat, j: nat)
    requires j <= |gaps|
  {
    forall k :: i <= k < j ==> gaps[k] == 0
  }

  /** Token `j` is a comparison or logical operator right behind an operand, and a two-character
      operator comes before with no space up to here. */
  predicate MergesAt(ts: seq<string>, gaps: seq<nat>, pending: bool, flag: bool, j: nat)
    requires |gaps| == |ts| && j < |ts|
  {
    && IsBoolOperator(ts[j])
    && (if j == 0 then pending else IsOperand(ts[j - 1]) && gaps[j - 1] == 0)
    && ((flag && Touching(gaps, 0, j)) || exists i :: 0 <= i < j && IsBoolOperator(ts[i]) && |ts[i]| == 2 && Touching(gaps, i, j))
  }

  lemma MergesAtRest(ts: seq<string>, gaps: seq<nat>, pending: bool, flag: bool, j: nat)
    requires |gaps| == |ts| && 0 < j < |ts|
    ensures MergesAt(ts, gaps, pending, flag, j) <==>
            MergesAt(ts[1..], gaps[1..], IsOperand(ts[0]) && gaps[0] == 0, FlagAfter(flag, ts[0], gaps[0]), j - 1)
  {
    hide IsOperand, IsBoolOperator;
    var us, hs := ts[1..], gaps[1..];
    assert forall i :: 0 < i <= j ==> (Touching(gaps, i, j) <==> Touching(hs, i - 1, j - 1)) by {
      forall i | 0 < i <= j ensures Touching(gaps, i, j) <==> Touching(hs, i - 1, j - 1) { TouchingRest(gaps, i, j); }
    }
    assert Touching(gaps, 0, j) <==> gaps[0] == 0 && Touching(gaps, 1, j);
    hide Touching;
    if exists i :: 0 <= i < j && IsBoolOperator(ts[i]) && |ts[i]| == 2 && Touching(gaps, i, j) {
      var i :| 0 <= i < j && IsBoolOperator(ts[i]) && |ts[i]| == 2 && Touching(gaps, i, j);
      if i > 0 { assert us[i - 1] == ts[i] && Touching(hs, i - 1, j - 1); }
    }
    if exists i :: 0 <= i < j - 1 && IsBoolOperator(us[i]) && |us[i]| == 2 && Touching(hs, i, j - 1) {
      var i :| 0 <= i < j - 1 && IsBoolOperator(us[i]) && |us[i]| == 2 && Touching(hs, i, j - 1);
      assert ts[i + 1] == us[i] && Touching(gaps, i + 1, j);
    }
  }

  lemma TouchingRest(gaps: seq<nat>, i: nat, j: nat)
    requires 0 < i <= j <= |gaps|
    ensures Touching(gaps, i, j) <==> Touching(gaps[1..], i - 1, j - 1)
  {
    var hs := gaps[1..];
    if Touching(hs, i - 1, j - 1) {
      forall k | i <= k < j ensures gaps[k] == 0 { assert hs[k - 1] == gaps[k]; }
    }
  }

  /** Something merges exactly at such a token. */
  lemma {:induction false} MergesMeans(ts: seq<string>, gaps: seq<nat>, pending: bool, flag: bool)
    requires |gaps| == |ts|
    ensures Merges(ts, gaps, pending, flag) <==> exists j :: 0 <= j < |ts| && MergesAt(ts, gaps, pending, flag, j)
    decreases |ts|
  {
    if ts != [] {
      assert MergesAt(ts, gaps, pending, flag, 0) <==> IsBoolOperator(ts[0]) && pending && flag;
      hide MergesAt, IsOperand, IsBoolOperator;
      var pending2, flag2 := IsOperand(ts[0]) && gaps[0] == 0, FlagAfter(flag, ts[0], gaps[0]);
      MergesMeans(ts[1..], gaps[1..], pending2, flag2);
      forall j | 0 < j < |ts|
        ensures MergesAt(ts, gaps, pending, flag, j) <==> MergesAt(ts[1..], gaps[1..], pending2, flag2, j - 1)
      {
        MergesAtRest(ts, gaps, pending, flag, j);
      }
      if Merges(ts[1..], gaps[1..], pending2, flag2) {
        var j :| 0 <= j < |ts| - 1 && MergesAt(ts[1..], gaps[1..], pending2, flag2, j);
        assert MergesAt(ts, gaps, pending, flag, j + 1);
      }
    }
  }

  /** "a<=b&&c" loses its second operator to the operand before it. */
  lemma LogicalOperatorMerges()
    ensures Spaced(["a", "<=", "b", "&&", "c"], [0, 0, 0, 0, 0]) == "a<=b&&c"
    ensures Merges(["a", "<=", "b", "&&", "c"], [0, 0, 0, 0, 0], false, false)
    ensures TokensOf("a<=b&&c") == ["a", "<=", "b&&", "c"]
  {
    ExampleText();
    ExampleTokens();
    assert MergesAt(["a", "<=", "b", "&&", "c"], [0, 0, 0, 0, 0], false, false, 3) by {
      var ts := ["a", "<=", "b", "&&", "c"];
      assert IsOperand(ts[2]) && IsBoolOperator(ts[1]) && |ts[1]| == 2 && Touching([0, 0, 0, 0, 0], 1, 3);
    }
    MergesMeans(["a", "<=", "b", "&&", "c"], [0, 0, 0, 0, 0], false, false);
  }

  lemma ExampleText()
    ensures Spaced(["a", "<=", "b", "&&", "c"], [0, 0, 0, 0, 0]) == "a<=b&&c"
  {
    assert Spaces(0) == "";
    assert Spaced(["c"], [0]) == "c";
    assert Spaced(["&&", "c"], [0, 0]) == "&&c";
    assert Spaced(["b", "&&", "c"], [0, 0, 0]) == "b&&c";
    assert Spaced(["<=", "b", "&&", "c"], [0, 0, 0, 0]) == "<=b&&c";
  }

  lemma ExampleTokens()
    ensures TokensOf("a<=b&&c") == ["a", "<=", "b&&", "c"]
  {
    ExampleStart();
    ExampleEnd();
    var st := Scan(["a", "<=", "b&&"], "", true);
    ScanShort(st, "c");
    hide ScanAll;
    assert "" + ['c'] == "c";
    assert ScanLast(st, 'c') == ["a", "<=", "b&&"] + ["c"];
  }

  lemma ExampleEnd()
    ensures ScanAll(Scan(["a", "<="], "", true), "b&&c") == ScanAll(Scan(["a", "<=", "b&&"], "", true), "c")
  {
    assert "b&&c" == ['b'] + "&&c" && "&&c" == ['&'] + "&c" && "&c" == ['&'] + "c";
    var st := Scan(["a", "<="], "", true);
    assert ScanChar(st, 'b', '&') == Scan(["a", "<="], "b", true) by { assert "" + ['b'] == "b"; }
    assert ScanChar(Scan(["a", "<="], "b", true), '&', '&') == Scan(["a", "<="], "b&", true) by { assert "b" + ['&'] == "b&"; }
    assert ScanChar(Scan(["a", "<="], "b&", true), '&', 'c') == Scan(["a", "<=", "b&&"], "", true) by { assert "b&" + ['&'] == "b&&"; }
    hide ScanAll, ScanChar;
    ScanStep(st, 'b', "&&c");
    ScanStep(Scan(["a", "<="], "b", true), '&', "&c");
    ScanStep(Scan(["a", "<="], "b&", true), '&', "c");
  }

  lemma ExampleStart()
    ensures ScanAll(Scan([], "", false), "a<=b&&c") == ScanAll(Scan(["a", "<="], "", true), "b&&c")
  {
    var s := "a<=b&&c";
    assert s == ['a'] + "<=b&&c" && "<=b&&c" == ['<'] + "=b&&c" && "=b&&c" == ['='] + "b&&c";
    assert ScanChar(Scan([], "", false), 'a', '<') == Scan([], "a", false) by { assert "" + ['a'] == "a"; }
    assert ScanChar(Scan([], "a", false), '<', '=') == Scan(["a"], "<", true) by { assert "" + ['<'] == "<"; }
    assert ScanChar(Scan(["a"], "<", true), '=', 'b') == Scan(["a", "<="], "", true) by { assert "<" + ['='] == "<="; }
    hide ScanAll, ScanChar;
    ScanStep(Scan([], "", false), 'a', "<=b&&c");
    ScanStep(Scan([], "a", false), '<', "=b&&c");
    ScanStep(Scan(["a"], "<", true), '=', "b&&c");
  }
}
