/** Cutting an infix expression into tokens, and the joining it undoes. */
module Tokenizer {

  predicate IsMathOperator(s: string) { s == "+" || s == "-" || s == "*" || s == "/" || s == "^" }

  predicate IsBoolOperator(s: string) { s == "<" || s == ">" || s == "==" || s == ">=" || s == "<=" || s == "&&" || s == "||" }

  predicate IsOperator(s: string) { IsMathOperator(s) || IsBoolOperator(s) }

  predicate IsDelim(c: char) { c == ' ' || c == '+' || c == '-' || c == '*' || c == '/' || c == '^' || c == '<' || c == '=' || c == '&' || c == '|' }

  predicate StandsAlone(c: char) { c == '+' || c == '-' || c == '/' || c == '*' || c == '^' || c == '(' || c == ')' }

  predicate StartsOperator(c: char) { c == '<' || c == '>' || c == '&' || c == '|' || c == '=' }

  // ---------- the scanner ----------

  datatype Scan = Scan(tokens: seq<string>, sym: string, flag: bool)

  function Push(tokens: seq<string>, sym: string): seq<string> {
    if sym != "" then tokens + [sym] else tokens
  }

  /** One character `c`, with the one after it in view. */
  function ScanChar(st: Scan, c: char, next: char): Scan {
    if c == ' ' then Scan(Push(st.tokens, st.sym), "", false)
    else if StandsAlone(c) then Scan(Push(st.tokens, st.sym) + [[c]], "", st.flag)
    else if StartsOperator(c) then
      var flushed := if st.flag then st else Scan(Push(st.tokens, st.sym), "", st.flag);
      var sym := flushed.sym + [c];
      if IsDelim(next) then Scan(flushed.tokens, sym, true) else Scan(flushed.tokens + [sym], "", flushed.flag)
    else st.(sym := st.sym + [c])
  }

  /** Scans all characters of `s` but the last. */
  function ScanAll(st: Scan, s: string): Scan
    requires s != ""
    decreases |s|
  {
    if |s| == 1 then st else ScanAll(ScanChar(st, s[0], s[1]), s[1..])
  }

  /** The last character is taken up by a rule of its own. */
  function ScanLast(st: Scan, c: char): seq<string> {
    if !IsDelim(c) && c != ')' then Push(st.tokens, st.sym + [c])
    else if c == ')' then st.tokens + [st.sym] + [[c]]
    else Push(st.tokens, st.sym)
  }

  function TokensOf(s: string): seq<string>
    requires s != ""
  {
    ScanLast(ScanAll(Scan([], "", false), s), s[|s| - 1])
  }

  // ---------- joining ----------

  predicate IsOperand(t: string) {
    t != "" && forall i :: 0 <= i < |t| ==> t[i] != ' ' && !StandsAlone(t[i]) && !StartsOperator(t[i])
  }

  predicate IsToken(t: string) { IsOperand(t) || IsOperator(t) || t == "(" || t == ")" }

  function Join(ts: seq<string>): string {
    if ts == [] then "" else if |ts| == 1 then ts[0] else ts[0] + [' '] + Join(ts[1..])
  }

  /** What becomes of the last token of a joined list. */
  function LastToken(t: string): seq<string> {
    if IsOperand(t) || t == "(" || t == ">" then [t]
    else if t == ")" then ["", ")"]
    else if |t| == 2 then [t[..1]]
    else []
  }

  lemma TokenForms(t: string)
    requires IsToken(t)
    ensures t != ""
    ensures !IsOperand(t) ==> |t| == 1 || |t| == 2
    ensures !IsOperand(t) && |t| == 1 ==> StandsAlone(t[0]) || (StartsOperator(t[0]) && (t[0] == '<' || t[0] == '>'))
    ensures !IsOperand(t) && |t| == 2 ==> StartsOperator(t[0]) && StartsOperator(t[1]) && IsDelim(t[1])
  {}

  lemma {:induction false} ScanOperandChars(tokens: seq<string>, sym: string, flag: bool, t: string, rest: string)
    requires rest != "" && (IsOperand(t) || t == "")
    ensures ScanAll(Scan(tokens, sym, flag), t + rest) == ScanAll(Scan(tokens, sym + t, flag), rest)
    decreases |t|
  {
    if t == "" {
      assert t + rest == rest && sym + t == sym;
    } else {
      assert (t + rest)[1..] == t[1..] + rest;
      assert sym + [t[0]] + t[1..] == sym + t;
      ScanOperandChars(tokens, sym + [t[0]], flag, t[1..], rest);
    }
  }

  lemma ScanStep(st: Scan, c: char, rest: string)
    requires rest != ""
    ensures ScanAll(st, [c] + rest) == ScanAll(ScanChar(st, c, rest[0]), rest)
  {
    assert ([c] + rest)[1..] == rest;
  }

  lemma SpaceEndsSymbol(tokens: seq<string>, t: string, rest: string)
    requires t != "" && rest != ""
    ensures ScanAll(Scan(tokens, t, false), [' '] + rest) == ScanAll(Scan(tokens + [t], "", false), rest)
  {
    ScanStep(Scan(tokens, t, false), ' ', rest);
  }

  lemma ScanSingle(tokens: seq<string>, c: char, rest: string)
    requires rest != "" && (StandsAlone(c) || c == '<' || c == '>')
    ensures ScanAll(Scan(tokens, "", false), [c] + ([' '] + rest)) == ScanAll(Scan(tokens + [[c]], "", false), rest)
  {
    assert "" + [c] == [c];
    ScanStep(Scan(tokens, "", false), c, [' '] + rest);
    ScanStep(ScanChar(Scan(tokens, "", false), c, ' '), ' ', rest);
  }

  lemma ScanDouble(tokens: seq<string>, c: char, d: char, rest: string)
    requires rest != "" && StartsOperator(c) && StartsOperator(d) && IsDelim(d)
    ensures ScanAll(Scan(tokens, "", false), [c] + ([d] + ([' '] + rest))) == ScanAll(Scan(tokens + [[c, d]], "", false), rest)
  {
    hide ScanAll;
    assert "" + [c] == [c] && [c] + [d] == [c, d];
    ScanStep(Scan(tokens, "", false), c, [d] + ([' '] + rest));
    ScanStep(Scan(tokens, [c], true), d, [' '] + rest);
    ScanStep(Scan(tokens, [c, d], true), ' ', rest);
  }

  /** A token and the space after it leave the scanner ready for the next token. */
  lemma ScanToken(tokens: seq<string>, t: string, rest: string)
    requires IsToken(t) && rest != ""
    ensures ScanAll(Scan(tokens, "", false), t + [' '] + rest) == ScanAll(Scan(tokens + [t], "", false), rest)
  {
    hide ScanAll, IsToken, Push;
    TokenForms(t);
    assert t + [' '] + rest == t + ([' '] + rest);
    if IsOperand(t) {
      ScanOperandChars(tokens, "", false, t, [' '] + rest);
      assert "" + t == t;
      SpaceEndsSymbol(tokens, t, rest);
    } else if |t| == 1 {
      ScanSingle(tokens, t[0], rest);
      assert [t[0]] == t;
    } else {
      ScanDouble(tokens, t[0], t[1], rest);
      assert [t[0]] + ([t[1]] + ([' '] + rest)) == t + ([' '] + rest);
      assert [t[0], t[1]] == t;
    }
  }

  lemma ScanFinalSingle(tokens: seq<string>, t: string)
    requires IsToken(t) && !IsOperand(t) && |t| == 1
    ensures ScanLast(Scan(tokens, "", false), t[0]) == tokens + LastToken(t)
  {
    assert t == [t[0]] && "" + [t[0]] == t;
    if t[0] == ')' {
      assert t == ")";
      assert tokens + [""] + [[t[0]]] == tokens + ["", ")"];
    } else if IsDelim(t[0]) {
      assert t != "(" && t != ">" by { assert t[0] != '(' && t[0] != '>'; }
      assert LastToken(t) == [] && tokens + [] == tokens;
    } else {
      assert t == "(" || t == ">";
    }
  }

  lemma ScanFinalDouble(tokens: seq<string>, t: string)
    requires IsToken(t) && !IsOperand(t) && |t| == 2
    ensures ScanLast(ScanChar(Scan(tokens, "", false), t[0], t[1]), t[1]) == tokens + LastToken(t)
  {
    TokenForms(t);
    assert "" + [t[0]] == t[..1];
  }

  lemma ScanShort(st: Scan, t: string)
    requires |t| == 1 || |t| == 2
    ensures ScanAll(st, t) == if |t| == 1 then st else ScanChar(st, t[0], t[1])
  {}

  lemma ScanFinalToken(tokens: seq<string>, t: string)
    requires IsToken(t)
    ensures t != ""
    ensures ScanLast(ScanAll(Scan(tokens, "", false), t), t[|t| - 1]) == tokens + LastToken(t)
  {
    hide ScanAll, ScanLast, ScanChar, IsToken;
    TokenForms(t);
    if IsOperand(t) {
      ScanFinalOperand(tokens, t);
    } else {
      ScanShort(Scan(tokens, "", false), t);
      if |t| == 1 {
        ScanFinalSingle(tokens, t);
      } else {
        ScanFinalDouble(tokens, t);
      }
    }
  }

  lemma ScanFinalOperand(tokens: seq<string>, t: string)
    requires IsOperand(t)
    ensures ScanLast(ScanAll(Scan(tokens, "", false), t), t[|t| - 1]) == tokens + [t]
  {
    hide ScanAll, ScanChar;
    var n := |t| - 1;
    OperandFront(tokens, "", false, t);
    assert "" + t[..n] == t[..n] && t[..n] + [t[n]] == t;
    assert !StartsOperator(t[n]) && !StandsAlone(t[n]) && !IsDelim(t[n]);
    hide IsOperand, IsDelim, StandsAlone, StartsOperator;
  }

  /** An operand up to its last character. */
  lemma OperandFront(tokens: seq<string>, sym: string, flag: bool, t: string)
    requires IsOperand(t)
    ensures ScanAll(Scan(tokens, sym, flag), t) == Scan(tokens, sym + t[..|t| - 1], flag)
  {
    hide ScanAll, ScanChar;
    var n := |t| - 1;
    assert t == t[..n] + [t[n]];
    assert IsOperand(t[..n]) || t[..n] == "";
    hide IsOperand;
    ScanOperandChars(tokens, sym, flag, t[..n], [t[n]]);
    ScanShort(Scan(tokens, sym + t[..n], flag), [t[n]]);
  }

  predicate AllTokens(ts: seq<string>) { forall i :: 0 <= i < |ts| ==> IsToken(ts[i]) }

  lemma JoinCons(first: string, rest: seq<string>)
    requires rest != []
    ensures Join([first] + rest) == first + [' '] + Join(rest)
  {
    assert ([first] + rest)[1..] == rest;
  }

  lemma {:induction false} JoinEnd(front: seq<string>, last: string)
    requires last != ""
    ensures var s := Join(front + [last]); s != "" && s[|s| - 1] == last[|last| - 1]
    decreases |front|
  {
    if front == [] {
      assert front + [last] == [last];
    } else {
      JoinEnd(front[1..], last);
      JoinCons(front[0], front[1..] + [last]);
      assert [front[0]] + (front[1..] + [last]) == front + [last];
    }
  }

  lemma {:induction false} ScanJoined(tokens: seq<string>, front: seq<string>, last: string)
    requires AllTokens(front) && IsToken(last)
    ensures var s := Join(front + [last]);
            s != "" && ScanLast(ScanAll(Scan(tokens, "", false), s), s[|s| - 1]) == tokens + front + LastToken(last)
    decreases |front|
  {
    hide IsToken, LastToken, ScanLast, ScanAll;
    TokenForms(last);
    JoinEnd(front, last);
    if front == [] {
      ScanFinalToken(tokens, last);
      assert front + [last] == [last] && tokens + front == tokens;
    } else {
      var rest := front[1..] + [last];
      JoinEnd(front[1..], last);
      JoinCons(front[0], rest);
      assert [front[0]] + rest == front + [last];
      hide Join;
      ScanToken(tokens, front[0], Join(rest));
      ScanJoined(tokens + [front[0]], front[1..], last);
      assert tokens + [front[0]] + front[1..] == tokens + front;
    }
  }

  predicate SurvivesLast(t: string)
    requires t != ""
  {
    !IsDelim(t[|t| - 1]) && t != ")"
  }

  lemma LastTokenKept(t: string)
    requires IsToken(t)
    ensures t != "" && (LastToken(t) == [t] <==> SurvivesLast(t))
  {
    TokenForms(t);
    if IsOperand(t) {
      assert !StartsOperator(t[|t| - 1]) && !StandsAlone(t[|t| - 1]);
    } else if |t| == 1 {
      assert t == [t[0]];
    } else {
      assert LastToken(t)[0] != t;
    }
  }

  /** Tokenizer round trip: joining any tokens with single spaces and cutting the result gives
      every token back but possibly the last, which survives exactly when it is not `)` and does
      not end in a delimiter. */
  lemma TokenizerRoundTrip(front: seq<string>, last: string)
    requires AllTokens(front) && IsToken(last)
    ensures last != "" && Join(front + [last]) != ""
    ensures TokensOf(Join(front + [last])) == front + LastToken(last)
    ensures TokensOf(Join(front + [last])) == front + [last] <==> SurvivesLast(last)
  {
    LastTokenKept(last);
    hide LastToken, SurvivesLast, ScanAll, ScanLast, Join, IsToken;
    ScanJoined([], front, last);
    assert [] + front == front;
    SuffixDecides(front, LastToken(last), [last]);
  }

  lemma SuffixDecides(front: seq<string>, a: seq<string>, b: seq<string>)
    ensures front + a == front + b <==> a == b
  {
    if front + a == front + b {
      assert (front + a)[|front|..] == a && (front + b)[|front|..] == b;
    }
  }

  /** The shortest input that does not come back: the final parenthesis gains an empty token. */
  lemma FinalParenthesisGainsToken()
    ensures Join(["(", "a", ")"]) == "( a )"
    ensures TokensOf("( a )") == ["(", "a", "", ")"]
  {
    hide TokensOf, Join, LastToken;
    assert IsOperand("a");
    assert Join([")"]) == ")" && LastToken(")") == ["", ")"] by { FinalParenthesisForms(); }
    JoinCons("a", [")"]);
    JoinCons("(", ["a", ")"]);
    assert ["a"] + [")"] == ["a", ")"] && ["("] + ["a", ")"] == ["(", "a"] + [")"] == ["(", "a", ")"];
    TokenizerRoundTrip(["(", "a"], ")");
  }

  lemma FinalParenthesisForms()
    ensures Join([")"]) == ")" && LastToken(")") == ["", ")"]
  {
    assert StandsAlone(")"[0]);
  }
}
