/** What a text that ends in a lone `)` evaluates to: the empty token before the parenthesis goes out as
    one more operand, and every operand that waits at the end is moved up by one place. */
module LastParenthesis {
  import opened Tokenizer
  import opened Compiler
  import opened MathExpression
  import opened Spacing

  // ---------- the end of an expression ----------

  /** Operators and operands along the right edge, not entering parentheses ... */
  function EdgeOperands(e: Expr): (xs: seq<Expr>)
    ensures xs != [] && |xs| == |Waiting(e)| + 1
  {
    if e.Binary? then [e.left] + EdgeOperands(e.right) else [e]
  }

  /** ... and entering the one parenthesis that closes the expression. */
  function LastOperators(e: Expr): seq<string> {
    match e
    case Operand(_) => []
    case Binary(op, _, r) => [op] + LastOperators(r)
    case Paren(inner) => Waiting(inner)
  }

  function LastOperands(e: Expr): (xs: seq<Expr>)
    ensures xs != [] && |xs| == |LastOperators(e)| + 1
  {
    match e
    case Operand(_) => [e]
    case Binary(_, l, r) => [l] + LastOperands(r)
    case Paren(inner) => EdgeOperands(inner)
  }

  function Values(pow: (real, real) -> real, symbols: Symbols, xs: seq<Expr>): (vs: seq<real>)
    ensures |vs| == |xs|
  {
    if xs == [] then [] else [Value(pow, symbols, xs[0])] + Values(pow, symbols, xs[1..])
  }

  /** Each operator applied to an operand and to what all later ones come to. */
  function FoldRight(pow: (real, real) -> real, ops: seq<string>, vs: seq<real>): real
    requires |vs| == |ops| + 1
    decreases |ops|
  {
    if ops == [] then vs[0] else EvalOp(pow, ops[0], vs[0], FoldRight(pow, ops[1..], vs[1..]))
  }

  lemma {:induction false} EdgeValue(pow: (real, real) -> real, symbols: Symbols, e: Expr)
    ensures Value(pow, symbols, e) == FoldRight(pow, Waiting(e), Values(pow, symbols, EdgeOperands(e)))
    decreases e
  {
    hide EvalOp, Lookup;
    if e.Binary? {
      EdgeValue(pow, symbols, e.right);
      assert EdgeOperands(e)[1..] == EdgeOperands(e.right) && Waiting(e)[1..] == Waiting(e.right);
    } else {
      assert EdgeOperands(e)[1..] == [];
    }
  }

  /** The value an expression means, in terms of the operators and operands at its end. */
  lemma {:induction false} LastValue(pow: (real, real) -> real, symbols: Symbols, e: Expr)
    ensures Value(pow, symbols, e) == FoldRight(pow, LastOperators(e), Values(pow, symbols, LastOperands(e)))
    decreases e
  {
    hide EvalOp, Lookup;
    match e
    case Operand(_) =>
      assert LastOperands(e)[1..] == [];
    case Binary(op, l, r) =>
      LastValue(pow, symbols, r);
      assert LastOperands(e)[1..] == LastOperands(r) && LastOperators(e)[1..] == LastOperators(r);
    case Paren(inner) => EdgeValue(pow, symbols, inner);
  }

  /** The value it gets instead: the first of those operands is dropped and the value of the empty
      name stands in the last place. */
  function ShiftedValue(pow: (real, real) -> real, symbols: Symbols, e: Expr): real {
    FoldRight(pow, LastOperators(e), Values(pow, symbols, LastOperands(e))[1..] + [Lookup(symbols, "")])
  }

  // ---------- translation ----------

  /** What has gone out, and the operators waiting outside the last parenthesis, before it closes. */
  function Early(e: Expr): seq<string> {
    match e
    case Operand(_) => []
    case Binary(_, l, r) => Postorder(l) + Early(r)
    case Paren(inner) => Emitted(inner)
  }

  function Outside(e: Expr): seq<string> { if e.Binary? then [e.op] + Outside(e.right) else [] }

  function Inside(e: Expr): seq<string> {
    match e
    case Operand(_) => []
    case Binary(_, _, r) => Inside(r)
    case Paren(inner) => Waiting(inner)
  }

  lemma {:induction false} OutsideInside(e: Expr)
    ensures LastOperators(e) == Outside(e) + Inside(e)
  {
    match e
    case Operand(_) =>
    case Binary(op, _, r) =>
      OutsideInside(r);
      assert [op] + (Outside(r) + Inside(r)) == [op] + Outside(r) + Inside(r);
    case Paren(inner) => assert [] + Inside(e) == Inside(e);
  }

  lemma {:induction false} NoParenthesisWaits(e: Expr)
    requires Proper(e)
    ensures forall i :: 0 <= i < |Outside(e)| ==> Outside(e)[i] != "("
    ensures forall i :: 0 <= i < |Inside(e)| ==> Inside(e)[i] != "("
  {
    match e
    case Operand(_) =>
    case Binary(op, _, r) =>
      OperatorIsNoParenthesis(op);
      hide IsOperator;
      NoParenthesisWaits(r);
    case Paren(inner) => WaitingAreOperators(inner);
  }

  function AllButLast(e: Expr): seq<string> { Tokens(e)[..|Tokens(e)| - 1] }

  lemma {:induction false} TakesAllButLast(out: seq<string>, stack: seq<string>, e: Expr)
    requires Proper(e) && Bracketed(e) && Holds(stack, e) && EndsInParenthesis(e)
    ensures TakeAll(Shunt(out, stack), AllButLast(e)) == Shunt(out + Early(e), stack + Outside(e) + ["("] + Inside(e))
    decreases e
  {
    match e
    case Operand(name) => assert false;
    case Binary(op, l, r) => AllButLastBinary(out, stack, op, l, r);
    case Paren(inner) =>
      hide TakeAll, Take, IsOperator, Tokens, Emitted, Waiting, Precedence;
      var st := Shunt(out, stack);
      assert AllButLast(e) == ["("] + Tokens(inner) by { ParenFront(inner); }
      TakeOpening(out, stack);
      TakesExpression(out, stack + ["("], inner);
      TakeAllAppend(st, ["("], Tokens(inner));
      TakeSingle(st, "(");
      assert stack + [] == stack;
  }

  lemma ParenFront(inner: Expr)
    ensures AllButLast(Paren(inner)) == ["("] + Tokens(inner)
  {}

  lemma BinaryFront(op: string, l: Expr, r: Expr)
    ensures AllButLast(Binary(op, l, r)) == Tokens(l) + [op] + AllButLast(r)
    ensures EndsInParenthesis(Binary(op, l, r)) <==> EndsInParenthesis(r)
  {}

  lemma {:induction false} AllButLastBinary(out: seq<string>, stack: seq<string>, op: string, l: Expr, r: Expr)
    requires var e := Binary(op, l, r); Proper(e) && Bracketed(e) && Holds(stack, e) && EndsInParenthesis(e)
    ensures TakeAll(Shunt(out, stack), AllButLast(Binary(op, l, r))) ==
            Shunt(out + (Postorder(l) + Early(r)), stack + ([op] + Outside(r)) + ["("] + Inside(r))
    decreases Binary(op, l, r), 1
  {
    BinaryFront(op, l, r);
    hide IsOperator, Precedence, Take, TakeAll, Tokens, Postorder, Emitted, Waiting, EndsInParenthesis, AllButLast, Early, Outside, Inside;
    if l.Binary? && stack != [] && Top(stack) != "(" { YieldsThrough(Top(stack), l.op, op); }
    TakesExpression(out, stack, l);
    TakesOperator(out, stack, op, l);
    var mid := Shunt(out + Postorder(l), stack + [op]);
    assert Top(mid.stack) == op;
    TakesAllButLast(mid.out, mid.stack, r);
    TakeAllAppend(Shunt(out, stack), Tokens(l) + [op], AllButLast(r));
    TakeAllAppend(Shunt(out, stack), Tokens(l), [op]);
    TakeSingle(Shunt(out + Emitted(l), stack + Waiting(l)), op);
    assert mid.out + Early(r) == out + (Postorder(l) + Early(r));
    assert mid.stack + Outside(r) == stack + ([op] + Outside(r));
    assert Tokens(l) + [op] + AllButLast(r) == AllButLast(Binary(op, l, r));
  }

  lemma {:induction false} ReverseJoin(a: seq<string>, b: seq<string>)
    ensures Reverse(a + b) == Reverse(b) + Reverse(a)
    decreases |a|
  {
    if a == [] {
      assert a + b == b && Reverse(b) + [] == Reverse(b);
    } else {
      assert (a + b)[1..] == a[1..] + b;
      ReverseJoin(a[1..], b);
    }
  }

  lemma TakeEmpty(out: seq<string>, stack: seq<string>)
    ensures Take(Shunt(out, stack), "") == Shunt(out + [""], stack)
  {
    EmptyIsNoOperator();
    hide IsOperator, PopYielding;
  }

  lemma TakesEmptyAndClosing(out: seq<string>, outside: seq<string>, inside: seq<string>)
    requires forall i :: 0 <= i < |inside| ==> inside[i] != "("
    ensures TakeAll(Shunt(out, outside + ["("] + inside), ["", ")"]) == Shunt(out + [""] + Reverse(inside), outside)
  {
    hide TakeAll, Take, Reverse;
    var stack := outside + ["("] + inside;
    assert ["", ")"] == [""] + [")"];
    TakeAllAppend(Shunt(out, stack), [""], [")"]);
    TakeSingle(Shunt(out, stack), "");
    TakeEmpty(out, stack);
    TakeSingle(Shunt(out + [""], stack), ")");
    TakeClosing(out + [""], outside, inside);
  }

  /** With the empty token the translation still succeeds, and puts it after the finished operands. */
  lemma TranslatesWithEmpty(e: Expr)
    requires Proper(e) && Bracketed(e) && EndsInParenthesis(e)
    ensures Translate(AllButLast(e) + ["", ")"]) == (Early(e) + [""] + Reverse(LastOperators(e)), true)
  {
    hide TakeAll, Take, Tokens, Reverse, EndsInParenthesis, Proper, Bracketed, Early, Outside, Inside, LastOperators, AllButLast;
    var out, outside, inside := Early(e), Outside(e), Inside(e);
    TakesAllButLast([], [], e);
    assert [] + out == out && [] + outside == outside;
    TakeAllAppend(Shunt([], []), AllButLast(e), ["", ")"]);
    NoParenthesisWaits(e);
    TakesEmptyAndClosing(out, outside, inside);
    PopAll(out + [""] + Reverse(inside), [], outside);
    OutsideInside(e);
    ReverseJoin(outside, inside);
    assert out + [""] + Reverse(inside) + Reverse(outside) == out + [""] + Reverse(LastOperators(e));
  }

  // ---------- evaluation ----------

  lemma {:induction false} EmittedValues(pow: (real, real) -> real, symbols: Symbols, stack: seq<real>, e: Expr)
    requires Proper(e)
    ensures EvalAll(pow, symbols, stack, Emitted(e)) == stack + Values(pow, symbols, EdgeOperands(e))
    decreases e
  {
    hide EvalItem, IsOperator, EvalOp;
    EvaluatesPostorder(pow, symbols, stack, e);
    if e.Binary? {
      var v := Value(pow, symbols, e.left);
      EvaluatesPostorder(pow, symbols, stack, e.left);
      EvalAppend(pow, symbols, stack, Postorder(e.left), Emitted(e.right));
      EmittedValues(pow, symbols, stack + [v], e.right);
      assert EdgeOperands(e)[1..] == EdgeOperands(e.right);
      assert stack + [v] + Values(pow, symbols, EdgeOperands(e.right)) == stack + Values(pow, symbols, EdgeOperands(e));
    } else {
      assert EdgeOperands(e)[1..] == [] && Emitted(e) == Postorder(e);
      assert Values(pow, symbols, [e]) == [Value(pow, symbols, e)];
    }
  }

  lemma NoOperandEnds(e: Expr)
    requires Proper(e) && EndsInParenthesis(e)
    ensures !e.Operand?
  {}

  lemma ValuesFirst(pow: (real, real) -> real, symbols: Symbols, x: Expr, xs: seq<Expr>)
    ensures Values(pow, symbols, [x] + xs) == [Value(pow, symbols, x)] + Values(pow, symbols, xs)
  {
    hide Value;
    assert ([x] + xs)[1..] == xs;
  }

  lemma EarlyBinary(pow: (real, real) -> real, symbols: Symbols, stack: seq<real>, op: string, l: Expr, r: Expr)
    requires Proper(l)
    requires var v := Value(pow, symbols, l);
             EvalAll(pow, symbols, stack + [v], Early(r)) == stack + [v] + Values(pow, symbols, LastOperands(r))
    ensures EvalAll(pow, symbols, stack, Early(Binary(op, l, r))) == stack + Values(pow, symbols, LastOperands(Binary(op, l, r)))
  {
    hide EvalAll, Values, Value, Postorder, Proper;
    var v := Value(pow, symbols, l);
    EvaluatesPostorder(pow, symbols, stack, l);
    EvalAppend(pow, symbols, stack, Postorder(l), Early(r));
    ValuesFirst(pow, symbols, l, LastOperands(r));
    assert stack + [v] + Values(pow, symbols, LastOperands(r)) == stack + ([v] + Values(pow, symbols, LastOperands(r)));
  }

  lemma {:induction false} EarlyValues(pow: (real, real) -> real, symbols: Symbols, stack: seq<real>, e: Expr)
    requires Proper(e) && EndsInParenthesis(e)
    ensures EvalAll(pow, symbols, stack, Early(e)) == stack + Values(pow, symbols, LastOperands(e))
    decreases e
  {
    hide EvalAll, IsOperator, Tokens, EndsInParenthesis, Value, Values;
    NoOperandEnds(e);
    match e
    case Binary(op, l, r) =>
      BinaryFront(op, l, r);
      EarlyValues(pow, symbols, stack + [Value(pow, symbols, l)], r);
      EarlyBinary(pow, symbols, stack, op, l, r);
    case Paren(inner) => EmittedValues(pow, symbols, stack, inner);
  }

  predicate AllOperators(ops: seq<string>) { forall i :: 0 <= i < |ops| ==> IsOperator(ops[i]) }

  /** Operators in reverse order fold the top of the stack. */
  lemma {:induction false} EvalReverse(pow: (real, real) -> real, symbols: Symbols, stack: seq<real>, ops: seq<string>, vs: seq<real>)
    requires |vs| == |ops| + 1 && AllOperators(ops)
    ensures EvalAll(pow, symbols, stack + vs, Reverse(ops)) == stack + [FoldRight(pow, ops, vs)]
    decreases |ops|
  {
    hide EvalOp, IsOperator;
    if ops == [] {
      assert vs == [vs[0]];
    } else {
      var rest := FoldRight(pow, ops[1..], vs[1..]);
      assert stack + vs == stack + [vs[0]] + vs[1..];
      EvalReverse(pow, symbols, stack + [vs[0]], ops[1..], vs[1..]);
      EvalAppend(pow, symbols, stack + vs, Reverse(ops[1..]), [ops[0]]);
      var full := stack + [vs[0]] + [rest];
      assert full[..|full| - 2] == stack && full[|full| - 2] == vs[0] && full[|full| - 1] == rest;
      EvalOne(pow, symbols, full, ops[0]);
    }
  }

  lemma EvalOne(pow: (real, real) -> real, symbols: Symbols, stack: seq<real>, item: string)
    ensures EvalAll(pow, symbols, stack, [item]) == EvalItem(pow, symbols, stack, item)
  {
    hide EvalItem;
    assert [item][1..] == [];
  }

  lemma {:induction false} LastAreOperators(e: Expr)
    requires Proper(e)
    ensures AllOperators(LastOperators(e)) && AllOperators(Waiting(e))
    decreases e
  {
    hide IsOperator;
    match e
    case Operand(_) =>
    case Binary(_, _, r) => LastAreOperators(r);
    case Paren(inner) => LastAreOperators(inner);
  }

  lemma EvalEmpty(pow: (real, real) -> real, symbols: Symbols, stack: seq<real>)
    ensures EvalAll(pow, symbols, stack, [""]) == stack + [Lookup(symbols, "")]
  {
    EmptyIsNoOperator();
    hide IsOperator;
    EvalOne(pow, symbols, stack, "");
  }

  /** What is left on the stack: an operand too many, and the shifted value on top. */
  lemma EvaluatesShifted(pow: (real, real) -> real, symbols: Symbols, e: Expr)
    requires Proper(e) && EndsInParenthesis(e)
    ensures EvalAll(pow, symbols, [], Early(e) + [""] + Reverse(LastOperators(e))) ==
            [Value(pow, symbols, LastOperands(e)[0])] + [ShiftedValue(pow, symbols, e)]
  {
    hide EvalAll, EvalItem, IsOperator, EvalOp, Tokens, Reverse, FoldRight, Lookup;
    var vs := Values(pow, symbols, LastOperands(e));
    var z := Lookup(symbols, "");
    EarlyValues(pow, symbols, [], e);
    assert [] + vs == vs;
    EvalAppend(pow, symbols, [], Early(e), [""]);
    EvalEmpty(pow, symbols, vs);
    EvalAppend(pow, symbols, [], Early(e) + [""], Reverse(LastOperators(e)));
    assert vs + [z] == [vs[0]] + (vs[1..] + [z]);
    LastAreOperators(e);
    EvalReverse(pow, symbols, [vs[0]], LastOperators(e), vs[1..] + [z]);
  }

  /** The whole pipeline on a new object, for any spaces under which nothing merges: the text
      evaluates to the value of its expression, or, if it ends in a lone `)`, to the shifted one. */
  method EvaluateSpaced(pow: (real, real) -> real, symbols: Symbols, lead: nat, e: Expr, gaps: seq<nat>) returns (ok: bool, value: real)
    requires Spelled(e) && Bracketed(e) && |gaps| == |Tokens(e)| && !Merges(Tokens(e), gaps, false, false)
    ensures ok
    ensures value == if LoneEnd(Tokens(e), gaps, false) then ShiftedValue(pow, symbols, e) else Value(pow, symbols, e)
  {
    hide Spelled, Bracketed, Tokens, Proper, Value, CompileText, ShiftedValue, LoneEnd, Merges, EvalAll, SpacedText;
    SpacedTokens(lead, e, gaps);
    SpacedCompiles(lead, e, gaps);
    SpelledIsProper(e);
    var m := new MathExpression();
    ok := m.Parse(SpacedText(lead, e, gaps));
    if LoneEnd(Tokens(e), gaps, false) {
      LoneEndEnds(e, gaps);
      TranslatesWithEmpty(e);
      assert CompileText(SpacedText(lead, e, gaps)) == Translate(AllButLast(e) + ["", ")"]) by { TextTranslates(SpacedText(lead, e, gaps)); }
      EvaluatesShifted(pow, symbols, e);
      assert m.items == Early(e) + [""] + Reverse(LastOperators(e));
    } else {
      EvaluatesPostorder(pow, symbols, [], e);
      assert m.items == Postorder(e);
    }
    var table;
    value, table := m.Evaluate(pow, symbols);
  }

  lemma TextTranslates(text: string)
    requires text != ""
    ensures CompileText(text) == Translate(TokensOf(text))
  {}

  lemma LoneEndEnds(e: Expr, gaps: seq<nat>)
    requires |gaps| == |Tokens(e)| && LoneEnd(Tokens(e), gaps, false)
    ensures EndsInParenthesis(e)
  {}

  /** "( a )" evaluates to the value of the empty name, not of a. */
  lemma ParenthesizedNameIsLost(pow: (real, real) -> real, symbols: Symbols)
    ensures ShiftedValue(pow, symbols, Paren(Operand("a"))) == Lookup(symbols, "")
  {
    var vs := Values(pow, symbols, [Operand("a")]);
    assert vs[1..] == [];
  }
}
