/**
  The first calculator: infix tokens become postfix tokens with the help of an operator stack,
  and a number stack evaluates the postfix tokens. The last element of a sequence is the top of
  a stack. Reading an empty stack throws.
*/
module ShuntingYard {
  import opened Wrappers
  import opened Helpers
  import opened Numerals
  import opened Infix

  const OPERATORS := {'+', '-', '*', '/'}

  predicate IsNumeral(item: string) {
    exists i :: 0 <= i < |item| && IsNumber(item[i])
  }

  function OperPriority(oper: string): int {
    if oper == "*" || oper == "/" then 2 else if oper == "+" || oper == "-" then 1 else -1
  }

  // ---------------------------------------------------------------- infix to postfix

  datatype Yard = Yard(output: seq<string>, stack: seq<string>)

  function PopToParen(y: Yard): Result<Yard>
    decreases |y.stack|
  {
    if y.stack == [] then Err
    else if Last(y.stack) == "(" then Ok(y.(stack := Front(y.stack)))
    else PopToParen(Yard(y.output + [Last(y.stack)], Front(y.stack)))
  }

  function PopWhile(priority: int, y: Yard): Yard
    decreases |y.stack|
  {
    if y.stack != [] && priority <= OperPriority(Last(y.stack))
    then PopWhile(priority, Yard(y.output + [Last(y.stack)], Front(y.stack)))
    else y
  }

  function Feed(item: string, y: Yard): Result<Yard> {
    if IsNumeral(item) then Ok(y.(output := y.output + [item]))
    else if y.stack == [] || item == "(" then Ok(y.(stack := y.stack + [item]))
    else if item == ")" then PopToParen(y)
    else
      var y' := PopWhile(OperPriority(item), y);
      Ok(y'.(stack := y'.stack + [item]))
  }

  function FeedAll(tokens: seq<string>, y: Yard): Result<Yard> {
    if tokens == [] then Ok(y)
    else
      match Feed(tokens[0], y)
      case Ok(y') => FeedAll(tokens[1..], y')
      case Err => Err
  }

  function Drain(y: Yard): seq<string>
    decreases |y.stack|
  {
    if y.stack == [] then y.output else Drain(Yard(y.output + [Last(y.stack)], Front(y.stack)))
  }

  function Suffix(tokens: seq<string>): Result<seq<string>> {
    match FeedAll(tokens, Yard([], []))
    case Ok(y) => Ok(Drain(y))
    case Err => Err
  }

  method ToSuffixExpression(tokens: seq<string>) returns (r: Result<seq<string>>)
    ensures r == Suffix(tokens)
  {
    var result: seq<string> := [];
    var operStack: seq<string> := [];
    ghost var start := Yard([], []);
    for k := 0 to |tokens|
      invariant FeedAll(tokens[k..], Yard(result, operStack)) == FeedAll(tokens, start)
    {
      var item := tokens[k];
      ghost var before := Yard(result, operStack);
      assert tokens[k..][1..] == tokens[k + 1..];
      if IsNumeral(item) {
        result := result + [item];
      } else if |operStack| == 0 || item == "(" {
        operStack := operStack + [item];
      } else if item == ")" {
        while |operStack| > 0 && Last(operStack) != "("
          invariant PopToParen(Yard(result, operStack)) == PopToParen(before)
          decreases |operStack|
        {
          result := result + [Last(operStack)];
          operStack := Front(operStack);
        }
        if |operStack| == 0 {
          return Err;
        }
        operStack := Front(operStack);
      } else {
        while |operStack| > 0 && OperPriority(item) <= OperPriority(Last(operStack))
          invariant PopWhile(OperPriority(item), Yard(result, operStack)) == PopWhile(OperPriority(item), before)
          decreases |operStack|
        {
          result := result + [Last(operStack)];
          operStack := Front(operStack);
        }
        operStack := operStack + [item];
      }
    }
    assert tokens[|tokens|..] == [];
    ghost var fed := Yard(result, operStack);
    while |operStack| > 0
      invariant Drain(Yard(result, operStack)) == Drain(fed)
      decreases |operStack|
    {
      result := result + [Last(operStack)];
      operStack := Front(operStack);
    }
    return Ok(result);
  }

  // ---------------------------------------------------------------- postorder

  function Postorder(e: Expr): seq<string> {
    match e
    case Num(digits) => [digits]
    case Paren(inner) => Postorder(inner)
    case Bin(op, l, r) => Postorder(l) + Postorder(r) + [[op]]
  }

  function Reversed(s: seq<string>): (r: seq<string>)
    ensures |r| == |s|
  {
    if s == [] then [] else [Last(s)] + Reversed(Front(s))
  }

  /** Operators waiting on the stack, all of at least the given priority. */
  ghost predicate Waiting(p: seq<string>, level: int) {
    forall i :: 0 <= i < |p| ==> OperPriority(p[i]) >= level
  }

  /** Nothing below is popped by an operator of the given level. */
  ghost predicate Below(stack: seq<string>, level: int) {
    stack == [] || OperPriority(Last(stack)) < level
  }

  lemma {:induction false} PopWhileWaiting(level: int, out: seq<string>, stack: seq<string>, p: seq<string>)
    requires Waiting(p, level) && Below(stack, level)
    ensures PopWhile(level, Yard(out, stack + p)) == Yard(out + Reversed(p), stack)
    decreases |p|
  {
    if p == [] {
      assert stack + p == stack && out + [] == out;
    } else {
      var s := stack + p;
      assert Last(s) == Last(p) && Front(s) == stack + Front(p);
      PopWhileWaiting(level, out + [Last(p)], stack, Front(p));
      assert out + [Last(p)] + Reversed(Front(p)) == out + Reversed(p);
    }
  }

  lemma {:induction false} PopToParenWaiting(out: seq<string>, stack: seq<string>, p: seq<string>)
    requires Waiting(p, 1)
    ensures PopToParen(Yard(out, stack + ["("] + p)) == Ok(Yard(out + Reversed(p), stack))
    decreases |p|
  {
    var s := stack + ["("] + p;
    if p == [] {
      assert s == stack + ["("] && Front(s) == stack && out + [] == out;
    } else {
      assert Last(s) == Last(p) && Front(s) == stack + ["("] + Front(p);
      PopToParenWaiting(out + [Last(p)], stack, Front(p));
      assert out + [Last(p)] + Reversed(Front(p)) == out + Reversed(p);
    }
  }

  lemma {:induction false} DrainAll(out: seq<string>, p: seq<string>)
    ensures Drain(Yard(out, p)) == out + Reversed(p)
    decreases |p|
  {
    if p == [] {
      assert out + [] == out;
    } else {
      DrainAll(out + [Last(p)], Front(p));
      Associative(out, [Last(p)], Reversed(Front(p)));
    }
  }

  lemma {:induction false} FeedAllConcat(a: seq<string>, b: seq<string>, y: Yard)
    ensures FeedAll(a + b, y) == match FeedAll(a, y) case Ok(y') => FeedAll(b, y') case Err => Err
  {
    if a == [] {
      assert a + b == b;
    } else {
      assert (a + b)[1..] == a[1..] + b;
      match Feed(a[0], y)
      case Ok(y') => FeedAllConcat(a[1..], b, y');
      case Err =>
    }
  }

  lemma FeedThree(a: seq<string>, b: seq<string>, c: seq<string>, y: Yard, y1: Yard, y2: Yard)
    requires FeedAll(a, y) == Ok(y1) && FeedAll(b, y1) == Ok(y2)
    ensures FeedAll(a + b + c, y) == FeedAll(c, y2)
  {
    FeedAllConcat(a, b, y);
    FeedAllConcat(a + b, c, y);
  }

  lemma Associative(a: seq<string>, b: seq<string>, c: seq<string>)
    ensures a + b + c == a + (b + c)
  {
  }

  lemma FeedOne(item: string, y: Yard)
    ensures FeedAll([item], y) == Feed(item, y)
  {
    assert [item][1..] == [];
  }

  lemma {:induction false} ReversedCons(x: string, p: seq<string>)
    ensures Reversed([x] + p) == Reversed(p) + [x]
    decreases |p|
  {
    var s := [x] + p;
    if p == [] {
      assert s == [x] && Front(s) == [];
    } else {
      assert Last(s) == Last(p) && Front(s) == [x] + Front(p);
      ReversedCons(x, Front(p));
    }
  }

  /** An expression turns into output `o` and waiting operators `p` that complete its postorder. */
  ghost predicate Emits(e: Expr, y: Yard, o: seq<string>, p: seq<string>) {
    && FeedAll(Tokens(e), y) == Ok(Yard(y.output + o, y.stack + p))
    && o + Reversed(p) == Postorder(e)
    && Waiting(p, if Level(e) == 3 then 1 else Level(e)) && (Level(e) == 3 ==> p == [])
  }

  lemma NumeralIsNumeral(digits: string)
    requires digits != "" && forall c :: c in digits ==> IsNumber(c)
    ensures IsNumeral(digits)
  {
    assert digits[0] in digits;
  }

  lemma EmitNum(e: Expr, y: Yard)
    requires WellFormed(e, OPERATORS) && e.Num?
    ensures Emits(e, y, [e.digits], [])
  {
    NumeralIsNumeral(e.digits);
    FeedOne(e.digits, y);
    assert y.stack + [] == y.stack && [e.digits] + [] == [e.digits];
  }

  lemma EmitParen(e: Expr, y: Yard, o: seq<string>, p: seq<string>)
    requires WellFormed(e, OPERATORS) && e.Paren? && Emits(e.inner, Yard(y.output, y.stack + ["("]), o, p)
    ensures Emits(e, y, Postorder(e), [])
  {
    var y1, y2 := Yard(y.output, y.stack + ["("]), Yard(y.output + o, y.stack + ["("] + p);
    FeedOne("(", y);
    FeedThree(["("], Tokens(e.inner), [")"], y, y1, y2);
    FeedOne(")", y2);
    PopToParenWaiting(y.output + o, y.stack, p);
    Associative(y.output, o, Reversed(p));
    assert y.stack + [] == y.stack && Postorder(e) + [] == Postorder(e);
  }

  lemma EmitBin(e: Expr, y: Yard, o1: seq<string>, p1: seq<string>, o2: seq<string>, p2: seq<string>)
    requires WellFormed(e, OPERATORS) && e.Bin? && Below(y.stack, Level(e))
    requires Emits(e.left, y, o1, p1)
    requires Emits(e.right, Yard(y.output + Postorder(e.left), y.stack + [[e.op]]), o2, p2)
    ensures Emits(e, y, Postorder(e.left) + o2, [[e.op]] + p2)
  {
    var op, post := [e.op], Postorder(e.left);
    var y1, y2 := Yard(y.output + o1, y.stack + p1), Yard(y.output + post, y.stack + [op]);
    OperatorFed(op, y, o1, p1, post);
    FeedOne(op, y1);
    FeedThree(Tokens(e.left), [op], Tokens(e.right), y, y1, y2);
    Associative(y.stack, [op], p2);
    Associative(y.output, post, o2);
    BinCompletes(e, o2, p2);
  }

  /** The waiting operators and the output of the right operand complete the postorder. */
  lemma BinCompletes(e: Expr, o: seq<string>, p: seq<string>)
    requires e.Bin? && o + Reversed(p) == Postorder(e.right)
    ensures Postorder(e.left) + o + Reversed([[e.op]] + p) == Postorder(e)
  {
    ReversedCons([e.op], p);
    Associative(Postorder(e.left), o, Reversed(p));
    Associative(Postorder(e.left) + o, Reversed(p), [[e.op]]);
  }

  /** An operator first completes the output of everything that binds at least as tightly. */
  lemma OperatorFed(op: string, y: Yard, o: seq<string>, p: seq<string>, post: seq<string>)
    requires OperPriority(op) >= 1 && Waiting(p, OperPriority(op)) && Below(y.stack, OperPriority(op))
    requires o + Reversed(p) == post
    ensures Feed(op, Yard(y.output + o, y.stack + p)) == Ok(Yard(y.output + post, y.stack + [op]))
  {
    assert !IsNumeral(op) && op != "(" && op != ")";
    PopWhileWaiting(OperPriority(op), y.output + o, y.stack, p);
    assert y.output + o + Reversed(p) == y.output + post;
    if y.stack + p == [] {
      assert p == [] && o + [] == o;
    }
  }

  /** Reading an expression emits its postorder, whatever waits below on the stack. */
  lemma {:induction false} EmitExpr(e: Expr, y: Yard) returns (o: seq<string>, p: seq<string>)
    requires WellFormed(e, OPERATORS) && Below(y.stack, Level(e))
    ensures Emits(e, y, o, p)
    decreases e
  {
    match e
    case Num(_) =>
      o, p := [e.digits], [];
      EmitNum(e, y);
    case Paren(inner) =>
      var o1, p1 := EmitExpr(inner, Yard(y.output, y.stack + ["("]));
      o, p := Postorder(e), [];
      EmitParen(e, y, o1, p1);
    case Bin(op, l, r) =>
      var o1, p1 := EmitExpr(l, y);
      var o2, p2 := EmitExpr(r, Yard(y.output + Postorder(l), y.stack + [[op]]));
      o, p := Postorder(l) + o2, [[op]] + p2;
      EmitBin(e, y, o1, p1, o2, p2);
  }

  /** Shunting-yard: the postfix tokens are the postorder of the expression. */
  lemma SuffixIsPostorder(e: Expr)
    requires WellFormed(e, OPERATORS)
    ensures Suffix(Tokens(e)) == Ok(Postorder(e))
  {
    var o, p := EmitExpr(e, Yard([], []));
    DrainAll([] + o, [] + p);
    assert [] + o == o && [] + p == p;
  }

  // ---------------------------------------------------------------- evaluation

  /**
    The number stack, for any numbers: `parse` reads a numeral, `apply` takes an operator and its
    left and right operands; either may throw.
  */
  function EvalPostfix<N>(items: seq<string>, stack: seq<N>, parse: string -> Result<N>,
                          apply: (string, N, N) -> Result<N>): Result<N>
    decreases |items|
  {
    if items == [] then if stack == [] then Err else Ok(Last(stack))
    else if IsNumeral(items[0]) then
      match parse(items[0])
      case Ok(v) => EvalPostfix(items[1..], stack + [v], parse, apply)
      case Err => Err
    else if |stack| < 2 then Err
    else
      match apply(items[0], stack[|stack| - 2], stack[|stack| - 1])
      case Ok(v) => EvalPostfix(items[1..], stack[..|stack| - 2] + [v], parse, apply)
      case Err => Err
  }

  /** What an expression is worth. */
  function ValueOf<N>(e: Expr, parse: string -> Result<N>, apply: (string, N, N) -> Result<N>): Result<N> {
    match e
    case Num(digits) => parse(digits)
    case Paren(inner) => ValueOf(inner, parse, apply)
    case Bin(op, l, r) =>
      match (ValueOf(l, parse, apply), ValueOf(r, parse, apply))
      case (Ok(a), Ok(b)) => apply([op], a, b)
      case _ => Err
  }

  lemma {:induction false} EvalPostorder<N>(e: Expr, rest: seq<string>, stack: seq<N>, parse: string -> Result<N>,
                                            apply: (string, N, N) -> Result<N>)
    requires WellFormed(e, OPERATORS)
    ensures EvalPostfix(Postorder(e) + rest, stack, parse, apply) ==
            match ValueOf(e, parse, apply)
            case Ok(v) => EvalPostfix(rest, stack + [v], parse, apply)
            case Err => Err
    decreases e
  {
    match e
    case Num(digits) =>
      NumeralIsNumeral(digits);
      assert ([digits] + rest)[1..] == rest;
    case Paren(inner) => EvalPostorder(inner, rest, stack, parse, apply);
    case Bin(op, l, r) =>
      var tail := [[op]] + rest;
      assert Postorder(e) + rest == Postorder(l) + (Postorder(r) + tail);
      EvalPostorder(l, Postorder(r) + tail, stack, parse, apply);
      match ValueOf(l, parse, apply)
      case Err =>
      case Ok(a) =>
        EvalPostorder(r, tail, stack + [a], parse, apply);
        match ValueOf(r, parse, apply)
        case Err =>
        case Ok(b) =>
          var s := stack + [a] + [b];
          assert s[|s| - 2] == a && s[|s| - 1] == b && s[..|s| - 2] == stack;
          assert tail[1..] == rest && !IsNumeral([op]);
  }

  /** Tokenize, convert, evaluate. */
  function Evaluated<N>(formula: string, parse: string -> Result<N>, apply: (string, N, N) -> Result<N>): Result<N> {
    if RemoveSpaces(formula) == "" then Err
    else
      match Suffix(Tokenize(RemoveSpaces(formula)))
      case Ok(items) => EvalPostfix(items, [], parse, apply)
      case Err => Err
  }

  method EvalRPN<N>(formula: string, parse: string -> Result<N>, apply: (string, N, N) -> Result<N>)
    returns (r: Result<N>)
    ensures r == Evaluated(formula, parse, apply)
  {
    var tokens := ToExpressionList(formula);
    if tokens.Err? {
      return Err;
    }
    var suffixExpression := ToSuffixExpression(tokens.value);
    if suffixExpression.Err? {
      return Err;
    }
    var items := suffixExpression.value;
    var numStack: seq<N> := [];
    for k := 0 to |items|
      invariant EvalPostfix(items[k..], numStack, parse, apply) == EvalPostfix(items, [], parse, apply)
    {
      assert items[k..][1..] == items[k + 1..];
      if IsNumeral(items[k]) {
        var v := parse(items[k]);
        if v.Err? {
          return Err;
        }
        numStack := numStack + [v.value];
      } else {
        if |numStack| < 2 {
          return Err;
        }
        var n := |numStack|;
        var v := apply(items[k], numStack[n - 2], numStack[n - 1]);
        if v.Err? {
          return Err;
        }
        numStack := numStack[..n - 2] + [v.value];
      }
    }
    assert items[|items|..] == [];
    return if numStack == [] then Err else Ok(Last(numStack));
  }

  /** A well-formed formula is worth what its expression is, for any meaning of the operators. */
  lemma EvaluationIsCorrect<N>(e: Expr, formula: string, parse: string -> Result<N>, apply: (string, N, N) -> Result<N>)
    requires WellFormed(e, OPERATORS) && WithBlanks(formula, Text(e))
    ensures Evaluated(formula, parse, apply) == ValueOf(e, parse, apply)
  {
    TokenizerRecoversTokens(e, OPERATORS, formula);
    SuffixIsPostorder(e);
    EvalPostorder(e, [], [], parse, apply);
    assert Postorder(e) + [] == Postorder(e);
  }
}
