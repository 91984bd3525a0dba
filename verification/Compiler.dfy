/** Infix tokens to reverse Polish notation and its evaluation, against expression trees. */
module Compiler {
  import opened Tokenizer

  // ---------- translation to reverse Polish notation ----------

  /** Negative: the operator `s1` on the stack waits for `s2`; otherwise it goes out first. */
  function Precedence(s1: string, s2: string): int {
    if s1 == "^" then
      if s2 == "^" then 0 else 1
    else if s1 == "*" || s1 == "/" then
      if s2 == "^" then -1 else if s2 == "*" || s2 == "/" then 0 else 1
    else if s1 == "+" || s1 == "-" then
      if s2 == "^" || s2 == "*" || s2 == "/" then -1 else if s2 == "+" || s2 == "-" then 0 else 1
    else if s1 == "<" || s1 == ">" || s1 == "==" || s1 == ">=" || s1 == "<=" then
      if s2 == "<" || s2 == ">" || s2 == "==" || s2 == ">=" || s2 == "<=" then 0
      else if s2 == "||" || s2 == "&&" then 1 else -1
    else -1
  }

  predicate Yields(s1: string, s2: string) { Precedence(s1, s2) >= 0 }

  datatype Shunt = Shunt(out: seq<string>, stack: seq<string>)

  function Top(stack: seq<string>): string
    requires stack != []
  {
    stack[|stack| - 1]
  }

  function PopOne(st: Shunt): Shunt
    requires st.stack != []
  {
    Shunt(st.out + [Top(st.stack)], st.stack[..|st.stack| - 1])
  }

  function PopYielding(st: Shunt, op: string): Shunt
    decreases |st.stack|
  {
    if st.stack != [] && Top(st.stack) != "(" && Yields(Top(st.stack), op) then PopYielding(PopOne(st), op) else st
  }

  function PopToParenthesis(st: Shunt): (r: Shunt)
    decreases |st.stack|
    ensures r.stack != [] ==> Top(r.stack) == "("
  {
    if st.stack != [] && Top(st.stack) != "(" then PopToParenthesis(PopOne(st)) else st
  }

  function Take(st: Shunt, token: string): Shunt {
    if token == "(" then st.(stack := st.stack + [token])
    else if IsOperator(token) && st.stack == [] then st.(stack := st.stack + [token])
    else if IsOperator(token) then
      var popped := PopYielding(st, token);
      popped.(stack := popped.stack + [token])
    else if token == ")" then
      var popped := PopToParenthesis(st);
      if popped.stack != [] then popped.(stack := popped.stack[..|popped.stack| - 1]) else popped
    else st.(out := st.out + [token])
  }

  function TakeAll(st: Shunt, tokens: seq<string>): Shunt
    decreases |tokens|
  {
    if tokens == [] then st else TakeAll(Take(st, tokens[0]), tokens[1..])
  }

  /** The output, and whether nothing but it is left at the end. */
  function Translate(tokens: seq<string>): (seq<string>, bool) {
    var st := PopToParenthesis(TakeAll(Shunt([], []), tokens));
    (st.out, st.stack == [])
  }

  // ---------- evaluation ----------

  type Symbols = map<string, real>

  const EPSILON := 0.000000000001

  function Lookup(symbols: Symbols, name: string): real { if name in symbols then symbols[name] else 0.0 }

  function Truth(b: bool): real { if b then 1.0 else 0.0 }

  function EvalOp(pow: (real, real) -> real, op: string, a: real, b: real): real {
    if op == "+" then a + b
    else if op == "-" then a - b
    else if op == "*" then a * b
    else if op == "/" then (if b != 0.0 then a / b else 0.0)
    else if op == "^" then pow(a, b)
    else if op == "<" then Truth(a < b)
    else if op == "<=" then Truth(a <= b)
    else if op == ">" then Truth(a > b)
    else if op == ">=" then Truth(a >= b)
    else if op == "==" then Truth(a + EPSILON > b && a < b + EPSILON)
    else if op == "&&" then Truth(a > 0.0 && b > 0.0)
    else if op == "||" then Truth(a > 0.0 || b > 0.0)
    else 0.0
  }

  function EvalItem(pow: (real, real) -> real, symbols: Symbols, stack: seq<real>, item: string): seq<real> {
    var n := |stack|;
    if IsOperator(item) && n > 1 then stack[..n - 2] + [EvalOp(pow, item, stack[n - 2], stack[n - 1])]
    else stack + [Lookup(symbols, item)]
  }

  function EvalAll(pow: (real, real) -> real, symbols: Symbols, stack: seq<real>, items: seq<string>): seq<real>
    decreases |items|
  {
    if items == [] then stack else EvalAll(pow, symbols, EvalItem(pow, symbols, stack, items[0]), items[1..])
  }

  // ---------- expression trees ----------

  datatype Expr = Operand(name: string) | Binary(op: string, left: Expr, right: Expr) | Paren(inner: Expr)

  function Tokens(e: Expr): (ts: seq<string>)
    ensures ts != []
  {
    match e
    case Operand(name) => [name]
    case Binary(op, l, r) => Tokens(l) + [op] + Tokens(r)
    case Paren(inner) => ["("] + Tokens(inner) + [")"]
  }

  function Postorder(e: Expr): seq<string> {
    match e
    case Operand(name) => [name]
    case Binary(op, l, r) => Postorder(l) + Postorder(r) + [op]
    case Paren(inner) => Postorder(inner)
  }

  function Value(pow: (real, real) -> real, symbols: Symbols, e: Expr): real {
    match e
    case Operand(name) => Lookup(symbols, name)
    case Binary(op, l, r) => EvalOp(pow, op, Value(pow, symbols, l), Value(pow, symbols, r))
    case Paren(inner) => Value(pow, symbols, inner)
  }

  predicate PlainName(name: string) { !IsOperator(name) && name != "(" && name != ")" }

  predicate Proper(e: Expr) {
    match e
    case Operand(name) => PlainName(name)
    case Binary(op, l, r) => IsOperator(op) && Proper(l) && Proper(r)
    case Paren(inner) => Proper(inner)
  }

  /** An operand of an operator may stand without parentheses: on the left when its own operator
      goes out before this one, on the right when this one waits for it. */
  predicate LeftFits(l: Expr, op: string) { l.Binary? ==> Yields(l.op, op) }

  predicate RightFits(op: string, r: Expr) { r.Binary? ==> !Yields(op, r.op) }

  /** Every parenthesis that precedence and associativity require is there. */
  predicate Bracketed(e: Expr) {
    match e
    case Operand(_) => true
    case Binary(op, l, r) => LeftFits(l, op) && RightFits(op, r) && Bracketed(l) && Bracketed(r)
    case Paren(inner) => Bracketed(inner)
  }

  // ---------- correctness of the translation ----------

  /** Operators still on the stack after the tokens of `e`, and what has gone out before them. */
  function Waiting(e: Expr): seq<string> {
    if e.Binary? then [e.op] + Waiting(e.right) else []
  }

  function Emitted(e: Expr): seq<string> {
    match e
    case Operand(name) => [name]
    case Binary(op, l, r) => Postorder(l) + Emitted(r)
    case Paren(inner) => Postorder(inner)
  }

  function Reverse(s: seq<string>): seq<string> { if s == [] then [] else Reverse(s[1..]) + [s[0]] }

  lemma {:induction false} PostorderSplits(e: Expr)
    ensures Postorder(e) == Emitted(e) + Reverse(Waiting(e))
  {
    if e.Binary? {
      PostorderSplits(e.right);
      assert Waiting(e)[1..] == Waiting(e.right);
    }
  }

  function Level(op: string): nat {
    if op == "^" then 4 else if op == "*" || op == "/" then 3 else if op == "+" || op == "-" then 2
    else if op == "&&" || op == "||" then 0 else 1
  }

  lemma YieldsByLevel(s1: string, s2: string)
    requires IsOperator(s1) && IsOperator(s2)
    ensures Yields(s1, s2) <==> Level(s1) >= 1 && Level(s1) >= Level(s2)
  {}

  lemma YieldsThrough(a: string, b: string, c: string)
    requires IsOperator(a) && IsOperator(b) && IsOperator(c)
    ensures !Yields(a, b) && Yields(a, c) ==> Yields(b, c)
    ensures !Yields(a, c) && Yields(b, c) ==> !Yields(a, b)
  {
    YieldsByLevel(a, b);
    YieldsByLevel(a, c);
    YieldsByLevel(b, c);
  }

  /** `next` forces out everything `e` left waiting. */
  lemma {:induction false} WaitingYields(e: Expr, next: string)
    requires Proper(e) && Bracketed(e) && IsOperator(next) && LeftFits(e, next)
    ensures forall i :: 0 <= i < |Waiting(e)| ==> Waiting(e)[i] != "(" && Yields(Waiting(e)[i], next)
  {
    if e.Binary? {
      if e.right.Binary? { YieldsThrough(e.op, e.right.op, next); }
      hide IsOperator, Yields;
      WaitingYields(e.right, next);
      OperatorIsNoParenthesis(e.op);
    }
  }

  lemma OperatorIsNoParenthesis(op: string)
    requires IsOperator(op)
    ensures op != "(" && op != ")"
  {}

  lemma {:induction false} WaitingAreOperators(e: Expr)
    requires Proper(e)
    ensures forall i :: 0 <= i < |Waiting(e)| ==> Waiting(e)[i] != "("
  {
    if e.Binary? {
      OperatorIsNoParenthesis(e.op);
      hide IsOperator;
      WaitingAreOperators(e.right);
    }
  }

  lemma {:induction false} PopYieldingAll(out: seq<string>, stack: seq<string>, ops: seq<string>, next: string)
    requires forall i :: 0 <= i < |ops| ==> ops[i] != "(" && Yields(ops[i], next)
    ensures PopYielding(Shunt(out, stack + ops), next) == PopYielding(Shunt(out + Reverse(ops), stack), next)
    decreases |ops|
  {
    hide Yields;
    if ops == [] {
      assert stack + ops == stack && out + Reverse(ops) == out;
    } else {
      PopYieldingAll(out, stack + [ops[0]], ops[1..], next);
      assert stack + [ops[0]] + ops[1..] == stack + ops;
      assert (stack + [ops[0]])[..|stack|] == stack;
      assert out + Reverse(ops[1..]) + [ops[0]] == out + Reverse(ops);
    }
  }

  lemma {:induction false} PopAll(out: seq<string>, stack: seq<string>, ops: seq<string>)
    requires forall i :: 0 <= i < |ops| ==> ops[i] != "("
    ensures PopToParenthesis(Shunt(out, stack + ops)) == PopToParenthesis(Shunt(out + Reverse(ops), stack))
    decreases |ops|
  {
    if ops == [] {
      assert stack + ops == stack && out + Reverse(ops) == out;
    } else {
      PopAll(out, stack + [ops[0]], ops[1..]);
      assert stack + [ops[0]] + ops[1..] == stack + ops;
      assert (stack + [ops[0]])[..|stack|] == stack;
      assert out + Reverse(ops[1..]) + [ops[0]] == out + Reverse(ops);
    }
  }

  lemma {:induction false} TakeAllAppend(st: Shunt, a: seq<string>, b: seq<string>)
    ensures TakeAll(st, a + b) == TakeAll(TakeAll(st, a), b)
    decreases |a|
  {
    hide Take;
    if a == [] {
      assert a + b == b;
    } else {
      assert (a + b)[1..] == a[1..] + b;
      TakeAllAppend(Take(st, a[0]), a[1..], b);
    }
  }

  lemma TakeSingle(st: Shunt, t: string)
    ensures TakeAll(st, [t]) == Take(st, t)
  {
    hide Take;
  }

  /** The stack lets `e` be taken on top of it: nothing below is forced out by `e`'s operators. */
  predicate Holds(stack: seq<string>, e: Expr) {
    stack == [] || Top(stack) == "(" || (IsOperator(Top(stack)) && RightFits(Top(stack), e))
  }

  lemma {:induction false} TakesExpression(out: seq<string>, stack: seq<string>, e: Expr)
    requires Proper(e) && Bracketed(e) && Holds(stack, e)
    ensures TakeAll(Shunt(out, stack), Tokens(e)) == Shunt(out + Emitted(e), stack + Waiting(e))
    decreases e, 2
  {
    match e
    case Operand(name) =>
      assert stack + [] == stack;
    case Binary(op, l, r) => TakesBinary(out, stack, op, l, r);
    case Paren(inner) => TakesParen(out, stack, inner);
  }

  lemma TakeYielding(out: seq<string>, stack: seq<string>, ops: seq<string>, op: string)
    requires forall i :: 0 <= i < |ops| ==> ops[i] != "(" && Yields(ops[i], op)
    requires stack == [] || Top(stack) == "(" || !Yields(Top(stack), op)
    requires IsOperator(op)
    ensures Take(Shunt(out, stack + ops), op) == Shunt(out + Reverse(ops), stack + [op])
  {
    OperatorIsNoParenthesis(op);
    hide IsOperator, Yields, Reverse;
    PopYieldingAll(out, stack, ops, op);
    assert PopYielding(Shunt(out + Reverse(ops), stack), op) == Shunt(out + Reverse(ops), stack);
    hide PopYielding;
    if stack + ops == [] { NothingWaits(out, stack, ops); }
  }

  lemma NothingWaits(out: seq<string>, stack: seq<string>, ops: seq<string>)
    requires stack + ops == []
    ensures stack == [] && out + Reverse(ops) == out
  {
    assert |stack + ops| == |stack| + |ops|;
  }

  /** An operator after its left operand sends out all of the operand and waits itself. */
  lemma TakesOperator(out: seq<string>, stack: seq<string>, op: string, l: Expr)
    requires Proper(l) && Bracketed(l) && IsOperator(op) && LeftFits(l, op)
    requires stack == [] || Top(stack) == "(" || !Yields(Top(stack), op)
    ensures Take(Shunt(out + Emitted(l), stack + Waiting(l)), op) == Shunt(out + Postorder(l), stack + [op])
  {
    hide IsOperator, Precedence, Take, Postorder, Emitted, Waiting, Reverse;
    WaitingYields(l, op);
    TakeYielding(out + Emitted(l), stack, Waiting(l), op);
    PostorderSplits(l);
    assert out + Emitted(l) + Reverse(Waiting(l)) == out + Postorder(l);
  }

  lemma {:induction false} TakesBinary(out: seq<string>, stack: seq<string>, op: string, l: Expr, r: Expr)
    requires var e := Binary(op, l, r); Proper(e) && Bracketed(e) && Holds(stack, e)
    ensures TakeAll(Shunt(out, stack), Tokens(l) + [op] + Tokens(r)) ==
            Shunt(out + (Postorder(l) + Emitted(r)), stack + ([op] + Waiting(r)))
    decreases Binary(op, l, r), 1
  {
    hide IsOperator, Precedence, Take, TakeAll, Tokens, Postorder, Emitted, Waiting;
    if l.Binary? && stack != [] && Top(stack) != "(" { YieldsThrough(Top(stack), l.op, op); }
    TakesExpression(out, stack, l);
    TakesOperator(out, stack, op, l);
    var mid := Shunt(out + Postorder(l), stack + [op]);
    assert Top(mid.stack) == op;
    TakesExpression(mid.out, mid.stack, r);
    TakeAllAppend(Shunt(out, stack), Tokens(l) + [op], Tokens(r));
    TakeAllAppend(Shunt(out, stack), Tokens(l), [op]);
    TakeSingle(Shunt(out + Emitted(l), stack + Waiting(l)), op);
    assert mid.out + Emitted(r) == out + (Postorder(l) + Emitted(r));
    assert mid.stack + Waiting(r) == stack + ([op] + Waiting(r));
  }

  lemma TakeClosing(out: seq<string>, stack: seq<string>, ops: seq<string>)
    requires forall i :: 0 <= i < |ops| ==> ops[i] != "("
    ensures Take(Shunt(out, stack + ["("] + ops), ")") == Shunt(out + Reverse(ops), stack)
  {
    ParenthesisIsNoOperator();
    hide IsOperator, Reverse, PopYielding;
    PopAll(out, stack + ["("], ops);
    assert (stack + ["("])[..|stack|] == stack;
  }

  lemma TakeOpening(out: seq<string>, stack: seq<string>)
    ensures Take(Shunt(out, stack), "(") == Shunt(out, stack + ["("])
  {
    ParenthesisIsNoOperator();
  }

  lemma {:induction false} TakesParen(out: seq<string>, stack: seq<string>, inner: Expr)
    requires Proper(inner) && Bracketed(inner)
    ensures TakeAll(Shunt(out, stack), ["("] + Tokens(inner) + [")"]) == Shunt(out + Postorder(inner), stack)
    decreases Paren(inner), 1
  {
    hide IsOperator, Precedence, Take, TakeAll, Tokens, Postorder, Emitted, Waiting, Reverse;
    var st := Shunt(out, stack);
    var inside := stack + ["("];
    TakeOpening(out, stack);
    TakesExpression(out, inside, inner);
    WaitingAreOperators(inner);
    TakeClosing(out + Emitted(inner), stack, Waiting(inner));
    PostorderSplits(inner);
    assert out + Emitted(inner) + Reverse(Waiting(inner)) == out + Postorder(inner);
    TakeAllAppend(st, ["("] + Tokens(inner), [")"]);
    TakeAllAppend(st, ["("], Tokens(inner));
    TakeSingle(st, "(");
    TakeSingle(Shunt(out + Emitted(inner), inside + Waiting(inner)), ")");
  }

  lemma ParenthesisIsNoOperator()
    ensures !IsOperator(")") && !IsOperator("(")
  {}

  /** Compiler correctness, first half: an expression written with the parentheses it needs (and
      any more) is translated to its postorder, and the translation reports success. */
  lemma TranslatesToPostorder(e: Expr)
    requires Proper(e) && Bracketed(e)
    ensures Translate(Tokens(e)) == (Postorder(e), true)
  {
    TakesExpression([], [], e);
    WaitingAreOperators(e);
    hide IsOperator, Yields, TakeAll;
    assert [] + Emitted(e) == Emitted(e) && [] + Waiting(e) == Waiting(e);
    PopAll(Emitted(e), [], Waiting(e));
    PostorderSplits(e);
  }

  lemma {:induction false} EvalAppend(pow: (real, real) -> real, symbols: Symbols, stack: seq<real>, a: seq<string>, b: seq<string>)
    ensures EvalAll(pow, symbols, stack, a + b) == EvalAll(pow, symbols, EvalAll(pow, symbols, stack, a), b)
    decreases |a|
  {
    hide EvalItem;
    if a == [] {
      assert a + b == b;
    } else {
      assert (a + b)[1..] == a[1..] + b;
      EvalAppend(pow, symbols, EvalItem(pow, symbols, stack, a[0]), a[1..], b);
    }
  }

  /** Second half: evaluating the postorder of an expression on any stack pushes exactly the
      expression's value. */
  lemma {:induction false} EvaluatesPostorder(pow: (real, real) -> real, symbols: Symbols, stack: seq<real>, e: Expr)
    requires Proper(e)
    ensures EvalAll(pow, symbols, stack, Postorder(e)) == stack + [Value(pow, symbols, e)]
    decreases e
  {
    hide EvalOp, IsOperator, Lookup;
    match e
    case Operand(name) =>
    case Paren(inner) => EvaluatesPostorder(pow, symbols, stack, inner);
    case Binary(op, l, r) =>
      var a, b := Value(pow, symbols, l), Value(pow, symbols, r);
      EvaluatesPostorder(pow, symbols, stack, l);
      EvaluatesPostorder(pow, symbols, stack + [a], r);
      EvalAppend(pow, symbols, stack, Postorder(l) + Postorder(r), [op]);
      EvalAppend(pow, symbols, stack, Postorder(l), Postorder(r));
      var full := stack + [a] + [b];
      assert full[..|full| - 2] == stack && full[|full| - 2] == a && full[|full| - 1] == b;
      assert EvalAll(pow, symbols, full, [op]) == EvalItem(pow, symbols, full, op);
  }

  // ---------- printing trees ----------

  function WrapIf(required: bool, e: Expr): Expr { if required then Paren(e) else e }

  /** The tree with a parenthesis exactly where one of its operands does not fit. */
  function AddParentheses(e: Expr): Expr {
    match e
    case Operand(_) => e
    case Paren(inner) => Paren(AddParentheses(inner))
    case Binary(op, l, r) =>
      Binary(op, WrapIf(!LeftFits(l, op), AddParentheses(l)), WrapIf(!RightFits(op, r), AddParentheses(r)))
  }

  lemma {:induction false} AddParenthesesMeans(pow: (real, real) -> real, symbols: Symbols, e: Expr)
    requires Proper(e)
    ensures var p := AddParentheses(e);
            && Bracketed(p) && Proper(p) && Postorder(p) == Postorder(e)
            && Value(pow, symbols, p) == Value(pow, symbols, e)
            && (e.Binary? <==> p.Binary?) && (e.Binary? ==> p.op == e.op)
            && (Bracketed(e) ==> p == e)
  {
    hide IsOperator, Yields, EvalOp, PlainName;
    match e
    case Operand(_) =>
    case Paren(inner) => AddParenthesesMeans(pow, symbols, inner);
    case Binary(op, l, r) =>
      AddParenthesesMeans(pow, symbols, l);
      AddParenthesesMeans(pow, symbols, r);
  }

  /** Compiler correctness: any expression tree, printed to tokens with the parentheses it needs,
      translates to the tree's postorder, whose evaluation leaves one value, the tree's own. */
  lemma CompilerCorrect(pow: (real, real) -> real, symbols: Symbols, e: Expr)
    requires Proper(e)
    ensures var (items, ok) := Translate(Tokens(AddParentheses(e)));
            && items == Postorder(e) && ok
            && EvalAll(pow, symbols, [], items) == [Value(pow, symbols, e)]
  {
    hide Proper, Bracketed, Translate, EvalAll;
    AddParenthesesMeans(pow, symbols, e);
    TranslatesToPostorder(AddParentheses(e));
    EvaluatesPostorder(pow, symbols, [], e);
    assert [] + [Value(pow, symbols, e)] == [Value(pow, symbols, e)];
  }
}
