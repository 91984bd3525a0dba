/** The expression object: from the text of an expression to its value. */
module MathExpression {
  import opened Tokenizer
  import opened Compiler

  /** What `parse` makes of a text, given the items the object already holds. */
  function CompileText(text: string): (seq<string>, bool)
    requires text != ""
  {
    Translate(TokensOf(text))
  }

  predicate Spelled(e: Expr) {
    match e
    case Operand(name) => IsOperand(name)
    case Binary(op, l, r) => IsOperator(op) && Spelled(l) && Spelled(r)
    case Paren(inner) => Spelled(inner)
  }

  function Text(e: Expr): string { Join(Tokens(e)) }

  function LastOf(ts: seq<string>): string
    requires ts != []
  {
    ts[|ts| - 1]
  }

  predicate EndsInParenthesis(e: Expr) { LastOf(Tokens(e)) == ")" }

  // ---------- tokens of an expression ----------

  lemma OperandIsPlain(name: string)
    requires IsOperand(name)
    ensures PlainName(name) && name != ""
  {
    assert !StandsAlone(name[0]) && !StartsOperator(name[0]);
  }

  lemma OperatorIsNotEmpty(op: string)
    requires IsOperator(op)
    ensures op != ""
  {}

  lemma {:induction false} SpelledIsProper(e: Expr)
    requires Spelled(e)
    ensures Proper(e)
    ensures AllTokens(Tokens(e))
    ensures forall i :: 0 <= i < |Postorder(e)| ==> Postorder(e)[i] != ""
  {
    match e
    case Operand(name) => OperandIsPlain(name);
    case Binary(op, l, r) =>
      SpelledIsProper(l);
      SpelledIsProper(r);
      OperatorIsNotEmpty(op);
      hide IsOperator, IsOperand;
    case Paren(inner) =>
      SpelledIsProper(inner);
      hide IsOperator, IsOperand;
  }

  lemma {:induction false} LastIsOperandOrParenthesis(e: Expr)
    requires Spelled(e)
    ensures IsOperand(LastOf(Tokens(e))) || LastOf(Tokens(e)) == ")"
  {
    hide IsOperand, IsOperator;
    if e.Binary? { LastIsOperandOrParenthesis(e.right); }
  }

  // ---------- output only grows ----------

  lemma {:induction false} PoppingGrows(st: Shunt, op: string)
    ensures st.out <= PopYielding(st, op).out
    decreases |st.stack|
  {
    hide Precedence;
    if st.stack != [] && Top(st.stack) != "(" && Yields(Top(st.stack), op) { PoppingGrows(PopOne(st), op); }
  }

  lemma {:induction false} EmptyingGrows(st: Shunt)
    ensures st.out <= PopToParenthesis(st).out
    decreases |st.stack|
  {
    if st.stack != [] && Top(st.stack) != "(" { EmptyingGrows(PopOne(st)); }
  }

  lemma {:induction false} OutputGrows(st: Shunt, tokens: seq<string>)
    ensures st.out <= TakeAll(st, tokens).out
    decreases |tokens|
  {
    hide IsOperator, PopYielding, PopToParenthesis;
    if tokens != [] {
      PoppingGrows(st, tokens[0]);
      EmptyingGrows(st);
      OutputGrows(Take(st, tokens[0]), tokens[1..]);
    }
  }

  /** A token that is neither an operator nor a parenthesis ends up in the output, wherever it is. */
  lemma OtherTokenGoesOut(front: seq<string>, token: string, rest: seq<string>)
    requires !IsOperator(token) && token != "(" && token != ")"
    ensures token in Translate(front + ([token] + rest)).0
  {
    hide IsOperator, PopToParenthesis;
    var st := TakeAll(Shunt([], []), front);
    var next := Take(st, token);
    assert next.out[|st.out|] == token;
    TakeAllAppend(Shunt([], []), front, [token] + rest);
    assert ([token] + rest)[1..] == rest;
    OutputGrows(next, rest);
    EmptyingGrows(TakeAll(next, rest));
    assert Translate(front + ([token] + rest)).0[|st.out|] == token;
  }

  /** An empty token anywhere ends up in the output. */
  lemma EmptyTokenGoesOut(front: seq<string>, rest: seq<string>)
    ensures "" in Translate(front + ([""] + rest)).0
  {
    EmptyIsNoOperator();
    OtherTokenGoesOut(front, "", rest);
  }

  lemma EmptyIsNoOperator()
    ensures !IsOperator("")
  {}

  /** From text to reverse Polish notation: an expression with the parentheses it needs, its
      tokens joined by single spaces, compiles to its postorder exactly when its last token is
      not a closing parenthesis. */
  lemma TextCompiles(e: Expr)
    requires Spelled(e) && Bracketed(e)
    ensures Text(e) != ""
    ensures CompileText(Text(e)) == (Postorder(e), true) <==> !EndsInParenthesis(e)
  {
    hide Spelled, Bracketed, Proper, IsOperand, IsOperator, Tokens, Postorder, Translate, TokensOf, Join, LastToken;
    SpelledIsProper(e);
    LastIsOperandOrParenthesis(e);
    var ts := Tokens(e);
    var front, last := ts[..|ts| - 1], LastOf(ts);
    assert front + [last] == ts;
    LastForms(last);
    TokenizerRoundTrip(front, last);
    if last == ")" {
      assert front + ["", ")"] == front + ([""] + [")"]);
      EmptyTokenGoesOut(front, [")"]);
    } else {
      TranslatesToPostorder(e);
    }
  }

  lemma LastForms(last: string)
    requires IsOperand(last) || last == ")"
    ensures IsToken(last) && LastToken(last) == if last == ")" then ["", ")"] else [last]
  {
    if last == ")" { assert StandsAlone(last[0]); }
  }

  // ---------- the object ----------

  /** The symbol table after looking the names up: an unknown name is entered with value zero. */
  function Touch(symbols: Symbols, name: string): Symbols {
    if name in symbols then symbols else symbols[name := 0.0]
  }

  class MathExpression {
    var items: seq<string>

    constructor ()
      ensures items == []
    {
      items := [];
    }

    method Tokenize(text: string) returns (tokens: seq<string>)
      requires text != ""
      ensures tokens == TokensOf(text)
    {
      hide ScanChar, ScanLast;
      tokens := [];
      var sym, flag, j := "", false, 0;
      assert text[0..] == text;
      while j < |text| - 1
        invariant 0 <= j < |text|
        invariant ScanAll(Scan(tokens, sym, flag), text[j..]) == ScanAll(Scan([], "", false), text)
      {
        assert text[j..][1] == text[j + 1] && text[j..][1..] == text[j + 1..];
        tokens, sym, flag := TakeChar(tokens, sym, flag, text[j], text[j + 1]);
        j := j + 1;
      }
      assert |text[j..]| == 1;
      tokens := TakeLast(tokens, sym, flag, text[j]);
    }

    /** The body of the scanning loop. */
    static method TakeChar(tokens0: seq<string>, sym0: string, flag0: bool, c: char, next: char)
      returns (tokens: seq<string>, sym: string, flag: bool)
      ensures Scan(tokens, sym, flag) == ScanChar(Scan(tokens0, sym0, flag0), c, next)
    {
      tokens, sym, flag := tokens0, sym0, flag0;
      match c {
        case ' ' =>
          if sym != "" { tokens := tokens + [sym]; }
          sym := "";
          flag := false;
        case '+' | '-' | '/' | '*' | '^' | '(' | ')' =>
          if sym != "" { tokens := tokens + [sym]; }
          sym := "";
          sym := sym + [c];
          assert sym == [c];
          tokens := tokens + [sym];
          sym := "";
        case '<' | '>' | '&' | '|' | '=' =>
          if !flag {
            if sym != "" { tokens := tokens + [sym]; }
            sym := "";
          }
          sym := sym + [c];
          if !IsDelim(next) {
            tokens := tokens + [sym];
            sym := "";
          } else {
            flag := true;
          }
        case _ =>
          sym := sym + [c];
      }
    }

    /** What follows the scanning loop. */
    static method TakeLast(tokens0: seq<string>, sym0: string, flag: bool, c: char) returns (tokens: seq<string>)
      ensures tokens == ScanLast(Scan(tokens0, sym0, flag), c)
    {
      tokens := tokens0;
      var sym := sym0;
      if !IsDelim(c) && c != ')' {
        sym := sym + [c];
      } else if c == ')' {
        tokens := tokens + [sym];
        sym := "";
        sym := sym + [c];
        assert sym == [c];
      }
      if sym != "" { tokens := tokens + [sym]; }
    }

    /** Appends the translation of the text to the items. */
    method Parse(text: string) returns (ok: bool)
      requires text != ""
      modifies this
      ensures (items, ok) == (old(items) + CompileText(text).0, CompileText(text).1)
    {
      hide TokensOf, Take, IsOperator;
      var tokens := Tokenize(text);
      var stack: seq<string> := [];
      ghost var start := items;
      ghost var out: seq<string> := [];
      var i := 0;
      assert tokens[0..] == tokens && start + [] == start;
      while i < |tokens|
        invariant 0 <= i <= |tokens|
        invariant items == start + out
        invariant TakeAll(Shunt(out, stack), tokens[i..]) == TakeAll(Shunt([], []), tokens)
      {
        assert tokens[i..][1..] == tokens[i + 1..];
        stack, out := TakeToken(tokens[i], stack, out, start);
        i := i + 1;
      }
      out, stack := PopOut(stack, out, start);
      ok := stack == [];
    }

    /** One token: moves strings between it, the stack and the items. */
    method TakeToken(token: string, stack0: seq<string>, ghost out0: seq<string>, ghost start: seq<string>)
      returns (stack: seq<string>, ghost out: seq<string>)
      requires items == start + out0
      modifies this
      ensures items == start + out
      ensures Shunt(out, stack) == Take(Shunt(out0, stack0), token)
    {
      hide IsOperator, Precedence;
      stack, out := stack0, out0;
      if token == "(" {
        stack := stack + [token];
      } else if IsOperator(token) && stack == [] {
        stack := stack + [token];
      } else if IsOperator(token) && stack != [] {
        while stack != [] && stack[|stack| - 1] != "(" && Precedence(stack[|stack| - 1], token) >= 0
          invariant items == start + out
          invariant PopYielding(Shunt(out, stack), token) == PopYielding(Shunt(out0, stack0), token)
          decreases |stack|
        {
          items := items + [stack[|stack| - 1]];
          out := out + [stack[|stack| - 1]];
          stack := stack[..|stack| - 1];
        }
        stack := stack + [token];
      } else if token == ")" {
        out, stack := PopOut(stack, out, start);
        if stack != [] { stack := stack[..|stack| - 1]; }
      } else {
        items := items + [token];
        out := out + [token];
      }
    }

    method PopOut(stack0: seq<string>, ghost out0: seq<string>, ghost start: seq<string>)
      returns (ghost out: seq<string>, stack: seq<string>)
      requires items == start + out0
      modifies this
      ensures items == start + out
      ensures Shunt(out, stack) == PopToParenthesis(Shunt(out0, stack0))
    {
      stack, out := stack0, out0;
      while stack != [] && stack[|stack| - 1] != "("
        invariant items == start + out
        invariant PopToParenthesis(Shunt(out, stack)) == PopToParenthesis(Shunt(out0, stack0))
        decreases |stack|
      {
        items := items + [stack[|stack| - 1]];
        out := out + [stack[|stack| - 1]];
        stack := stack[..|stack| - 1];
      }
    }

    /** Runs the items on a stack of numbers; names looked up but missing enter the table as 0. */
    method Evaluate(pow: (real, real) -> real, symbols0: Symbols) returns (value: real, symbols: Symbols)
      ensures var stack := EvalAll(pow, symbols0, [], items);
              value == if stack == [] then 0.0 else stack[|stack| - 1]
      ensures forall name :: Lookup(symbols, name) == Lookup(symbols0, name)
      ensures symbols0.Keys <= symbols.Keys
    {
      hide IsOperator, EvalOp;
      symbols := symbols0;
      var stack: seq<real> := [];
      var i := 0;
      assert items[0..] == items;
      while i < |items|
        invariant 0 <= i <= |items|
        invariant EvalAll(pow, symbols0, stack, items[i..]) == EvalAll(pow, symbols0, [], items)
        invariant forall name :: Lookup(symbols, name) == Lookup(symbols0, name)
        invariant symbols0.Keys <= symbols.Keys
      {
        assert items[i..][0] == items[i] && items[i..][1..] == items[i + 1..];
        ghost var before := stack;
        if IsOperator(items[i]) && |stack| > 1 {
          var a := stack[|stack| - 1];
          stack := stack[..|stack| - 1];
          var b := stack[|stack| - 1];
          stack := stack[..|stack| - 1];
          assert stack == before[..|before| - 2];
          stack := stack + [EvalOp(pow, items[i], b, a)];
        } else {
          symbols := Touch(symbols, items[i]);
          stack := stack + [symbols[items[i]]];
        }
        i := i + 1;
      }
      value := if stack == [] then 0.0 else stack[|stack| - 1];
    }
  }

  /** The whole pipeline on a new object: the text of an expression that does not end in a
      closing parenthesis evaluates to the value of its tree. */
  method EvaluateText(pow: (real, real) -> real, symbols: Symbols, e: Expr) returns (ok: bool, value: real)
    requires Spelled(e) && Bracketed(e) && !EndsInParenthesis(e)
    ensures ok && value == Value(pow, symbols, e)
  {
    hide Spelled, Bracketed, Tokens, Proper, Value, CompileText;
    TextCompiles(e);
    SpelledIsProper(e);
    var m := new MathExpression();
    ok := m.Parse(Text(e));
    assert m.items == Postorder(e);
    EvaluatesPostorder(pow, symbols, [], e);
    var table;
    value, table := m.Evaluate(pow, symbols);
  }
}
