/** What texts evaluate to, in arithmetic: each operator on two operands, how operators group, and which
    texts are accepted. */
module Operators {
  import opened Tokenizer
  import opened Compiler
  import opened MathExpression

  type Power = (real, real) -> real

  /** What evaluating the items of a text returns. */
  function ValueOf(pow: Power, symbols: Symbols, text: string): real
    requires text != ""
  {
    var stack := EvalAll(pow, symbols, [], CompileText(text).0);
    if stack == [] then 0.0 else stack[|stack| - 1]
  }

  lemma ValueOfExpression(pow: Power, symbols: Symbols, e: Expr)
    requires Spelled(e) && Bracketed(e) && !EndsInParenthesis(e)
    ensures Text(e) != "" && CompileText(Text(e)).1 && ValueOf(pow, symbols, Text(e)) == Value(pow, symbols, e)
  {
    hide Spelled, Bracketed, EndsInParenthesis, Value, CompileText, Text, EvalAll, Postorder;
    TextCompiles(e);
    SpelledIsProper(e);
    EvaluatesPostorder(pow, symbols, [], e);
  }

  // ---------- two operands ----------

  function Apply(a: string, op: string, b: string): string { a + " " + op + " " + b }

  /** A name may be looked up: it is spelled as an operand and has a value. */
  predicate Known(symbols: Symbols, a: string) { IsOperand(a) && a in symbols }

  lemma TwoOperands(pow: Power, symbols: Symbols, a: string, op: string, b: string)
    requires IsOperand(a) && IsOperand(b) && IsOperator(op)
    ensures Apply(a, op, b) != ""
    ensures ValueOf(pow, symbols, Apply(a, op, b)) == EvalOp(pow, op, Lookup(symbols, a), Lookup(symbols, b))
  {
    var e := Binary(op, Operand(a), Operand(b));
    hide IsOperator, IsOperand, ValueOf, EvalOp, Lookup, CompileText;
    assert Tokens(e) == [a, op, b];
    assert Text(e) == Apply(a, op, b) by { JoinThree(a, op, b); }
    assert !EndsInParenthesis(e) by { NoParenthesis(b); }
    ValueOfExpression(pow, symbols, e);
  }

  lemma JoinThree(a: string, op: string, b: string)
    ensures Join([a, op, b]) == Apply(a, op, b)
  {
    assert [a, op, b][1..] == [op, b] && [op, b][1..] == [b];
    assert Join([b]) == b;
    assert Join([op, b]) == op + [' '] + b;
  }

  lemma NoParenthesis(name: string)
    requires IsOperand(name)
    ensures name != ")" && name != "("
  {
    if name == ")" || name == "(" { assert StandsAlone(name[0]); }
  }

  /** The arithmetic operators, by what undoes them: what is subtracted can be added back, and what is
      divided by something multiplied back; dividing by zero gives zero. */
  lemma Arithmetic(pow: Power, symbols: Symbols, a: string, b: string)
    requires Known(symbols, a) && Known(symbols, b)
    ensures var x, y := symbols[a], symbols[b];
            && ValueOf(pow, symbols, Apply(a, "+", b)) - y == x
            && ValueOf(pow, symbols, Apply(a, "-", b)) + y == x
            && ValueOf(pow, symbols, Apply(a, "*", b)) == x * y
            && (y != 0.0 ==> ValueOf(pow, symbols, Apply(a, "/", b)) * y == x)
            && (y == 0.0 ==> ValueOf(pow, symbols, Apply(a, "/", b)) == 0.0)
            && ValueOf(pow, symbols, Apply(a, "^", b)) == pow(x, y)
  {
    hide ValueOf, IsOperand;
    TwoOperands(pow, symbols, a, "+", b);
    TwoOperands(pow, symbols, a, "-", b);
    TwoOperands(pow, symbols, a, "*", b);
    TwoOperands(pow, symbols, a, "/", b);
    TwoOperands(pow, symbols, a, "^", b);
    if symbols[b] != 0.0 { DivideBack(symbols[a], symbols[b]); }
  }

  lemma DivideBack(x: real, y: real)
    requires y != 0.0
    ensures (x / y) * y == x
  {}

  /** The comparisons are 1 when they hold and 0 otherwise, numbers closer than a millionth of a
      millionth counting as equal; and the logical operators take what is positive for true. */
  lemma Comparisons(pow: Power, symbols: Symbols, a: string, b: string)
    requires Known(symbols, a) && Known(symbols, b)
    ensures var x, y := symbols[a], symbols[b];
            && ValueOf(pow, symbols, Apply(a, "<", b)) == (if x < y then 1.0 else 0.0)
            && ValueOf(pow, symbols, Apply(a, "<=", b)) == (if x <= y then 1.0 else 0.0)
            && ValueOf(pow, symbols, Apply(a, ">", b)) == (if y < x then 1.0 else 0.0)
            && ValueOf(pow, symbols, Apply(a, ">=", b)) == (if y <= x then 1.0 else 0.0)
            && ValueOf(pow, symbols, Apply(a, "==", b)) == (if -0.000000000001 < x - y < 0.000000000001 then 1.0 else 0.0)
            && ValueOf(pow, symbols, Apply(a, "&&", b)) == (if x > 0.0 && y > 0.0 then 1.0 else 0.0)
            && ValueOf(pow, symbols, Apply(a, "||", b)) == (if x > 0.0 || y > 0.0 then 1.0 else 0.0)
  {
    hide ValueOf, IsOperand;
    TwoOperands(pow, symbols, a, "<", b);
    TwoOperands(pow, symbols, a, "<=", b);
    TwoOperands(pow, symbols, a, ">", b);
    TwoOperands(pow, symbols, a, ">=", b);
    TwoOperands(pow, symbols, a, "==", b);
    TwoOperands(pow, symbols, a, "&&", b);
    TwoOperands(pow, symbols, a, "||", b);
  }

  /** A name without a value counts as zero. */
  lemma MissingIsZero(pow: Power, symbols: Symbols, a: string, b: string)
    requires IsOperand(a) && a !in symbols && Known(symbols, b)
    ensures ValueOf(pow, symbols, Apply(a, "+", b)) == symbols[b]
  {
    hide ValueOf, IsOperand;
    TwoOperands(pow, symbols, a, "+", b);
  }

  // ---------- three operands ----------

  function ApplyTwice(a: string, op1: string, b: string, op2: string, c: string): string {
    a + " " + op1 + " " + b + " " + op2 + " " + c
  }

  lemma JoinFive(a: string, op1: string, b: string, op2: string, c: string)
    ensures Join([a, op1, b, op2, c]) == ApplyTwice(a, op1, b, op2, c)
  {
    JoinThree(b, op2, c);
    var rest := [b, op2, c];
    assert [a, op1, b, op2, c][1..] == [op1] + rest && ([op1] + rest)[1..] == rest;
    assert Join([op1] + rest) == op1 + [' '] + Join(rest);
  }

  lemma ThreeOperands(pow: Power, symbols: Symbols, a: string, op1: string, b: string, op2: string, c: string)
    requires Known(symbols, a) && Known(symbols, b) && Known(symbols, c) && IsOperator(op1) && IsOperator(op2)
    ensures ApplyTwice(a, op1, b, op2, c) != ""
    ensures var x, y, z := symbols[a], symbols[b], symbols[c];
            ValueOf(pow, symbols, ApplyTwice(a, op1, b, op2, c)) ==
            if Yields(op1, op2) then EvalOp(pow, op2, EvalOp(pow, op1, x, y), z) else EvalOp(pow, op1, x, EvalOp(pow, op2, y, z))
  {
    hide IsOperator, IsOperand, Precedence, ValueOf, EvalOp, CompileText;
    var left := Yields(op1, op2);
    var inner := if left then Binary(op1, Operand(a), Operand(b)) else Binary(op2, Operand(b), Operand(c));
    TreeOfTwo(pow, symbols, inner);
    var e := if left then Binary(op2, inner, Operand(c)) else Binary(op1, Operand(a), inner);
    assert Tokens(e) == [a, op1, b, op2, c];
    assert LeftFits(e.left, e.op) && RightFits(e.op, e.right);
    BracketedBinary(e);
    JoinFive(a, op1, b, op2, c);
    assert !EndsInParenthesis(e) by { NoParenthesis(c); }
    ValueOfExpression(pow, symbols, e);
  }

  lemma BracketedBinary(e: Expr)
    requires e.Binary? && LeftFits(e.left, e.op) && RightFits(e.op, e.right) && Bracketed(e.left) && Bracketed(e.right)
    requires IsOperator(e.op) && Spelled(e.left) && Spelled(e.right)
    ensures Spelled(e) && Bracketed(e)
  {
    hide IsOperator, IsOperand, Precedence;
  }

  lemma TreeOfTwo(pow: Power, symbols: Symbols, e: Expr)
    requires e.Binary? && e.left.Operand? && e.right.Operand?
    requires IsOperator(e.op) && IsOperand(e.left.name) && IsOperand(e.right.name)
    ensures Tokens(e) == [e.left.name, e.op, e.right.name] && Spelled(e) && Bracketed(e)
    ensures Spelled(e.left) && Spelled(e.right) && Bracketed(e.left) && Bracketed(e.right)
    ensures Value(pow, symbols, e) == EvalOp(pow, e.op, Lookup(symbols, e.left.name), Lookup(symbols, e.right.name))
  {
    hide IsOperator, IsOperand, EvalOp;
  }

  /** Sums and differences group to the left, and products bind closer. */
  lemma SumsGroup(pow: Power, symbols: Symbols, a: string, b: string, c: string)
    requires Known(symbols, a) && Known(symbols, b) && Known(symbols, c)
    ensures var x, y, z := symbols[a], symbols[b], symbols[c];
            && ValueOf(pow, symbols, ApplyTwice(a, "-", b, "-", c)) == x - y - z
            && ValueOf(pow, symbols, ApplyTwice(a, "-", b, "+", c)) == x - y + z
            && ValueOf(pow, symbols, ApplyTwice(a, "+", b, "*", c)) == x + y * z
            && ValueOf(pow, symbols, ApplyTwice(a, "*", b, "+", c)) == x * y + z
  {
    GroupsLeft();
    hide ValueOf, IsOperand, EvalOp, Precedence, IsOperator;
    ThreeOperands(pow, symbols, a, "-", b, "-", c);
    ThreeOperands(pow, symbols, a, "-", b, "+", c);
    ThreeOperands(pow, symbols, a, "+", b, "*", c);
    ThreeOperands(pow, symbols, a, "*", b, "+", c);
    var x, y, z := symbols[a], symbols[b], symbols[c];
    ArithmeticValues(pow, x, y);
    ArithmeticValues(pow, y, z);
    ArithmeticValues(pow, x - y, z);
    ArithmeticValues(pow, x, y * z);
    ArithmeticValues(pow, x * y, z);
  }

  lemma GroupsLeft()
    ensures Yields("-", "-") && Yields("-", "+") && !Yields("+", "*") && Yields("*", "+") && Yields("/", "/") && !Yields("-", "/")
    ensures IsOperator("+") && IsOperator("-") && IsOperator("*") && IsOperator("/")
  {}

  lemma SelfQuotient(y: real)
    requires y != 0.0
    ensures y / y == 1.0
  {}

  /** Quotients group to the left and bind closer than differences. */
  lemma QuotientsGroup(pow: Power, symbols: Symbols, a: string, b: string, c: string)
    requires Known(symbols, a) && Known(symbols, b) && Known(symbols, c)
    ensures var x, y, z := symbols[a], symbols[b], symbols[c];
            && (y != 0.0 && z != 0.0 ==> ValueOf(pow, symbols, ApplyTwice(a, "/", b, "/", c)) * z * y == x)
            && (y != 0.0 ==> ValueOf(pow, symbols, ApplyTwice(a, "-", b, "/", b)) == x - 1.0)
  {
    GroupsLeft();
    hide ValueOf, IsOperand, EvalOp, Precedence, IsOperator;
    ThreeOperands(pow, symbols, a, "/", b, "/", c);
    ThreeOperands(pow, symbols, a, "-", b, "/", b);
    var x, y, z := symbols[a], symbols[b], symbols[c];
    if y != 0.0 {
      ArithmeticValues(pow, x, y);
      ArithmeticValues(pow, y, y);
      SelfQuotient(y);
      ArithmeticValues(pow, x, 1.0);
      if z != 0.0 {
        ArithmeticValues(pow, x / y, z);
        DivideBack(x / y, z);
        DivideBack(x, y);
      }
    }
  }

  lemma ArithmeticValues(pow: Power, x: real, y: real)
    ensures EvalOp(pow, "+", x, y) == x + y && EvalOp(pow, "-", x, y) == x - y && EvalOp(pow, "*", x, y) == x * y
    ensures EvalOp(pow, "^", x, y) == pow(x, y)
    ensures y != 0.0 ==> EvalOp(pow, "/", x, y) == x / y
  {}

  /** Powers too group to the left and bind closest; comparisons bind less than sums; and of the logical
      operators the later one is applied first, whichever they are. */
  lemma OtherGroups(pow: Power, symbols: Symbols, a: string, b: string, c: string)
    requires Known(symbols, a) && Known(symbols, b) && Known(symbols, c)
    ensures var x, y, z := symbols[a], symbols[b], symbols[c];
            && ValueOf(pow, symbols, ApplyTwice(a, "^", b, "^", c)) == pow(pow(x, y), z)
            && ValueOf(pow, symbols, ApplyTwice(a, "*", b, "^", c)) == x * pow(y, z)
            && ValueOf(pow, symbols, ApplyTwice(a, "<", b, "+", c)) == (if x < y + z then 1.0 else 0.0)
            && ValueOf(pow, symbols, ApplyTwice(a, "&&", b, "<", c)) == (if x > 0.0 && y < z then 1.0 else 0.0)
            && ValueOf(pow, symbols, ApplyTwice(a, "<", b, "||", c)) == (if x < y || z > 0.0 then 1.0 else 0.0)
            && ValueOf(pow, symbols, ApplyTwice(a, "&&", b, "||", c)) == (if x > 0.0 && (y > 0.0 || z > 0.0) then 1.0 else 0.0)
            && ValueOf(pow, symbols, ApplyTwice(a, "||", b, "&&", c)) == (if x > 0.0 || (y > 0.0 && z > 0.0) then 1.0 else 0.0)
  {
    hide ValueOf, IsOperand;
    ThreeOperands(pow, symbols, a, "^", b, "^", c);
    ThreeOperands(pow, symbols, a, "*", b, "^", c);
    ThreeOperands(pow, symbols, a, "<", b, "+", c);
    ThreeOperands(pow, symbols, a, "&&", b, "<", c);
    ThreeOperands(pow, symbols, a, "<", b, "||", c);
    ThreeOperands(pow, symbols, a, "&&", b, "||", c);
    ThreeOperands(pow, symbols, a, "||", b, "&&", c);
  }

  // ---------- which tokens are accepted ----------

  /** Parentheses open at the end; one that closes nothing is passed over. */
  function Open(ts: seq<string>): nat {
    if ts == [] then 0
    else
      var d, t := Open(ts[..|ts| - 1]), ts[|ts| - 1];
      if t == "(" then d + 1 else if t == ")" && d > 0 then d - 1 else d
  }

  function Waits(stack: seq<string>): nat {
    if stack == [] then 0 else Waits(stack[..|stack| - 1]) + if Top(stack) == "(" then 1 else 0
  }

  lemma {:induction false} PoppingKeeps(st: Shunt, op: string)
    ensures Waits(PopYielding(st, op).stack) == Waits(st.stack)
    decreases |st.stack|
  {
    hide Precedence;
    if st.stack != [] && Top(st.stack) != "(" && Yields(Top(st.stack), op) { PoppingKeeps(PopOne(st), op); }
  }

  lemma {:induction false} EmptyingKeeps(st: Shunt)
    ensures Waits(PopToParenthesis(st).stack) == Waits(st.stack)
    ensures PopToParenthesis(st).stack == [] <==> Waits(st.stack) == 0
    decreases |st.stack|
  {
    if st.stack != [] && Top(st.stack) != "(" { EmptyingKeeps(PopOne(st)); }
  }

  lemma WaitsOneMore(stack: seq<string>, t: string)
    ensures Waits(stack + [t]) == Waits(stack) + if t == "(" then 1 else 0
  {
    assert (stack + [t])[..|stack|] == stack;
  }

  lemma TakeWaits(st: Shunt, t: string)
    ensures var d := Waits(st.stack);
            Waits(Take(st, t).stack) == if t == "(" then d + 1 else if t == ")" && d > 0 then d - 1 else d
  {
    ParenthesisIsNoOperator();
    if IsOperator(t) { OperatorIsNoParenthesis(t); }
    hide IsOperator, PopYielding, PopToParenthesis;
    PoppingKeeps(st, t);
    EmptyingKeeps(st);
    WaitsOneMore(st.stack, t);
    WaitsOneMore(PopYielding(st, t).stack, t);
  }

  lemma {:induction false} TakeAllWaits(ts: seq<string>)
    ensures Waits(TakeAll(Shunt([], []), ts).stack) == Open(ts)
    decreases |ts|
  {
    hide Take;
    if ts != [] {
      var front, last := ts[..|ts| - 1], ts[|ts| - 1];
      TakeAllWaits(front);
      assert ts == front + [last];
      TakeAllAppend(Shunt([], []), front, [last]);
      TakeSingle(TakeAll(Shunt([], []), front), last);
      TakeWaits(TakeAll(Shunt([], []), front), last);
    }
  }

  /** A list of tokens, well formed or not, is accepted exactly when no parenthesis stays open. */
  lemma AcceptedWhenClosed(ts: seq<string>)
    ensures Translate(ts).1 <==> Open(ts) == 0
  {
    hide TakeAll, Open, Waits, PopToParenthesis;
    TakeAllWaits(ts);
    EmptyingKeeps(TakeAll(Shunt([], []), ts));
  }
}
