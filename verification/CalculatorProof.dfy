/**
  When the second calculator is right. Additions may pile up on the operator stack, since they can
  be grouped either way; a subtraction that is covered by a later operator is grouped wrongly.
*/
module CalculatorProof {
  import opened Wrappers
  import opened Helpers
  import opened Numerals
  import opened Infix
  import opened Calculator

  /** The grammar's value: operators of equal priority group to the left. */
  function ValueOf(e: Expr): Result<int> {
    match e
    case Num(digits) => if AllDigits(digits) then Ok(DigitsValue(digits)) else Err
    case Paren(inner) => ValueOf(inner)
    case Bin(op, l, r) =>
      match (ValueOf(l), ValueOf(r))
      case (Ok(a), Ok(b)) => Meaning(op, a, b)
      case _ => Err
  }

  /** What the operators mean; there is no quotient by zero. */
  function Meaning(op: char, a: int, b: int): Result<int> {
    match op
    case '+' => Ok(a + b)
    case '-' => Ok(a - b)
    case '/' => if b == 0 then Err else Ok(Quotient(a, b))
    case _ => Ok(a * b)
  }

  /** The quotient is rounded toward zero: the remainder is smaller than the divisor and has the dividend's sign. */
  ghost predicate IsTruncated(a: int, b: int, q: int) {
    var r := a - q * b;
    Abs(r) < Abs(b) && (r == 0 || (r < 0 <==> a < 0))
  }

  lemma QuotientTruncates(a: int, b: int, q: int)
    requires b != 0
    ensures q == Quotient(a, b) <==> IsTruncated(a, b, q)
  {
    QuotientIsTruncated(a, b);
    if IsTruncated(a, b, q) {
      OneTruncation(a, b, q, Quotient(a, b));
    }
  }

  lemma QuotientIsTruncated(a: int, b: int)
    requires b != 0
    ensures IsTruncated(a, b, Quotient(a, b))
  {
    var n: int, d: int := Abs(a), Abs(b);
    var p: int := n / d;
    assert n == p * d + n % d;
    Signs(p, d);
    assert Quotient(a, b) * b == if a < 0 then -(p * d) else p * d;
  }

  lemma Signs(p: int, d: int)
    ensures (-p) * d == -(p * d) && p * (-d) == -(p * d) && (-p) * (-d) == p * d
  {
  }

  lemma OneTruncation(a: int, b: int, q: int, q': int)
    requires b != 0 && IsTruncated(a, b, q) && IsTruncated(a, b, q')
    ensures q == q'
  {
    var d: int, n: int := q - q', Abs(b);
    assert d * b == (a - q' * b) - (a - q * b);
    assert 0 - n < d * b < n;
    if d >= 1 {
      AtLeast(d, n);
    } else if d <= -1 {
      AtLeast(-d, n);
    }
    Signs(d, n);
  }

  lemma AtLeast(d: int, n: int)
    requires d >= 1 && n >= 0
    ensures d * n >= n
  {
  }

  /** A difference with an unparenthesised product as its subtrahend, and a further sum operator. */
  predicate CoversMinus(e: Expr) {
    e.Bin? && Priority(e.op) == 1 && e.left.Bin? && e.left.op == '-' && Level(e.left.right) == 2
  }

  /** No difference whose subtrahend is an unparenthesised product or quotient is added to or subtracted from. */
  predicate MinusSafe(e: Expr) {
    match e
    case Num(_) => true
    case Paren(inner) => MinusSafe(inner)
    case Bin(_, l, r) => MinusSafe(l) && MinusSafe(r) && !CoversMinus(e)
  }

  predicate HasMinus(e: Expr) {
    match e
    case Num(_) => false
    case Paren(inner) => HasMinus(inner)
    case Bin(op, l, r) => op == '-' || HasMinus(l) || HasMinus(r)
  }

  lemma {:induction false} WithoutMinusIsSafe(e: Expr)
    ensures !HasMinus(e) ==> MinusSafe(e)
  {
    match e
    case Num(_) =>
    case Paren(inner) => WithoutMinusIsSafe(inner);
    case Bin(_, l, r) =>
      WithoutMinusIsSafe(l);
      WithoutMinusIsSafe(r);
  }

  // ---------------------------------------------------------------- what waits on the stacks

  /** Waiting operators are applied from the top down, that is, grouped to the right. */
  function Collapse(ops: seq<string>, vals: seq<int>): Result<int>
    requires |vals| == |ops| + 1
  {
    if ops == [] then Ok(vals[0])
    else
      match Collapse(ops[1..], vals[1..])
      case Ok(b) => CalcByOper(ops[0], vals[0], b)
      case Err => Err
  }

  ghost predicate Holds(texts: seq<string>, vals: seq<int>) {
    |texts| == |vals| && forall i :: 0 <= i < |texts| ==> Parse(texts[i]) == Ok(vals[i])
  }

  lemma ReduceTop(nums: seq<string>, opers: seq<string>, a: string, b: string, x: int, y: int, op: string)
    requires Parse(a) == Ok(x) && Parse(b) == Ok(y)
    ensures Reduce(Stacks(nums + [a, b], opers + [op])) ==
            match CalcByOper(op, x, y)
            case Ok(v) => Ok(Stacks(nums + [ToText(v)], opers))
            case Err => Err
  {
    var s := nums + [a, b];
    assert s[|s| - 2] == a && s[|s| - 1] == b && s[..|s| - 2] == nums;
    assert Front(opers + [op]) == opers;
  }

  /** Reducing once does not change what the waiting operators collapse to. */
  lemma {:induction false} CollapseTop(ops: seq<string>, vals: seq<int>)
    requires |vals| == |ops| + 1 && ops != []
    ensures Collapse(ops, vals) ==
            match CalcByOper(Last(ops), vals[|ops| - 1], vals[|ops|])
            case Ok(v) => Collapse(Front(ops), vals[..|ops| - 1] + [v])
            case Err => Err
    decreases |ops|
  {
    var n := |ops|;
    if n == 1 {
      assert ops[1..] == [] && Front(ops) == [];
    } else {
      CollapseTop(ops[1..], vals[1..]);
      assert Last(ops[1..]) == Last(ops) && Front(ops)[1..] == Front(ops[1..]);
      match CalcByOper(Last(ops), vals[n - 1], vals[n])
      case Err =>
      case Ok(v) => assert (vals[..n - 1] + [v])[1..] == vals[1..][..n - 2] + [v];
    }
  }

  /** One reduction of the waiting part, in the middle of the stacks. */
  lemma ReduceWaiting(s: Stacks, ops: seq<string>, texts: seq<string>, vals: seq<int>)
    returns (texts': seq<string>, vals': seq<int>)
    requires ops != [] && |vals| == |ops| + 1 && Holds(texts, vals)
    ensures match Reduce(Stacks(s.nums + texts, s.opers + ops))
            case Ok(s') =>
              && s' == Stacks(s.nums + texts', s.opers + Front(ops))
              && |vals'| == |ops| && Holds(texts', vals') && Collapse(Front(ops), vals') == Collapse(ops, vals)
            case Err => Collapse(ops, vals) == Err
  {
    var n := |ops|;
    var x, y, op := vals[n - 1], vals[n], Last(ops);
    assert texts == texts[..n - 1] + [texts[n - 1], texts[n]];
    Regroup(s.nums, texts[..n - 1], [texts[n - 1], texts[n]], []);
    assert ops == Front(ops) + [op];
    Regroup(s.opers, Front(ops), [op], []);
    ReduceTop(s.nums + texts[..n - 1], s.opers + Front(ops), texts[n - 1], texts[n], x, y, op);
    CollapseTop(ops, vals);
    match CalcByOper(op, x, y)
    case Err => texts', vals' := [], [];
    case Ok(v) =>
      ParseToText(v);
      texts', vals' := texts[..n - 1] + [ToText(v)], vals[..n - 1] + [v];
      Regroup(s.nums, texts[..n - 1], [ToText(v)], []);
  }

  ghost predicate Operators(ops: seq<string>) {
    forall i :: 0 <= i < |ops| ==> OperPriority(ops[i]) >= 1
  }

  lemma {:induction false} ReduceToParenWaiting(s: Stacks, ops: seq<string>, texts: seq<string>, vals: seq<int>)
    returns (text: string)
    requires |vals| == |ops| + 1 && Holds(texts, vals) && Operators(ops)
    ensures match Collapse(ops, vals)
            case Ok(v) =>
              && ReduceToParen(Stacks(s.nums + texts, s.opers + ["("] + ops)) == Ok(Stacks(s.nums + [text], s.opers))
              && Parse(text) == Ok(v)
            case Err => ReduceToParen(Stacks(s.nums + texts, s.opers + ["("] + ops)) == Err
    decreases |ops|
  {
    var t := Stacks(s.nums, s.opers + ["("]);
    if ops == [] {
      text := texts[0];
      assert texts == [text];
      assert t.opers + ops == t.opers && Front(t.opers) == s.opers;
    } else {
      assert Last(t.opers + ops) == Last(ops);
      var texts', vals' := ReduceWaiting(t, ops, texts, vals);
      match Reduce(Stacks(t.nums + texts, t.opers + ops))
      case Err => text := "";
      case Ok(s') => text := ReduceToParenWaiting(s, Front(ops), texts', vals');
    }
  }

  lemma {:induction false} ReduceAllWaiting(ops: seq<string>, texts: seq<string>, vals: seq<int>) returns (text: string)
    requires |vals| == |ops| + 1 && Holds(texts, vals)
    ensures match Collapse(ops, vals)
            case Ok(v) => ReduceAll(Stacks(texts, ops)) == Ok(Stacks([text], [])) && Parse(text) == Ok(v)
            case Err => ReduceAll(Stacks(texts, ops)) == Err
    decreases |ops|
  {
    if ops == [] {
      text := texts[0];
      assert texts == [text];
    } else {
      assert [] + texts == texts && [] + ops == ops;
      var texts', vals' := ReduceWaiting(Stacks([], []), ops, texts, vals);
      match Reduce(Stacks(texts, ops))
      case Err => text := "";
      case Ok(s') =>
        assert [] + texts' == texts' && [] + Front(ops) == Front(ops);
        text := ReduceAllWaiting(Front(ops), texts', vals');
    }
  }

  // ---------------------------------------------------------------- piled-up additions

  ghost predicate AllPlus(ops: seq<string>) {
    forall i :: 0 <= i < |ops| ==> ops[i] == "+"
  }

  /** Additions below a sum operator can be regrouped to the left. */
  lemma {:induction false} PlusRegroups(plus: seq<string>, op: string, ops: seq<string>, xs: seq<int>, bs: seq<int>)
    requires |xs| == |plus| + 1 && |bs| == |ops| + 1 && AllPlus(plus)
    requires plus == [] || op == "+" || op == "-"
    ensures Collapse(plus, xs).Ok?
    ensures Collapse(plus + [op] + ops, xs + bs) ==
            match Collapse(ops, bs)
            case Ok(b) => CalcByOper(op, Collapse(plus, xs).value, b)
            case Err => Err
    decreases |plus|
  {
    var all := plus + [op] + ops;
    if plus == [] {
      assert all[0] == op && all[1..] == ops && (xs + bs)[1..] == bs;
    } else {
      PlusRegroups(plus[1..], op, ops, xs[1..], bs);
      assert all[0] == "+" && all[1..] == plus[1..] + [op] + ops && (xs + bs)[1..] == xs[1..] + bs;
    }
  }

  // ---------------------------------------------------------------- reading an expression

  ghost predicate Below(opers: seq<string>, level: int) {
    opers == [] || OperPriority(Last(opers)) < level
  }

  /** The operators an expression leaves waiting: piled-up additions, its own sum operator, one product. */
  ghost predicate Waiting(e: Expr, ops: seq<string>) {
    if Level(e) == 3 then ops == []
    else if Level(e) == 2 then |ops| == 1 && OperPriority(ops[0]) == 2
    else
      var k := |ops| - if Level(e.right) == 2 then 2 else 1;
      && e.Bin? && k >= 0 && AllPlus(ops[..k]) && ops[k] == [e.op]
      && (Level(e.right) == 2 ==> OperPriority(ops[k + 1]) == 2)
  }

  /** Reading e leaves numbers and operators that collapse to its value; or both throw. */
  ghost predicate Leaves(e: Expr, s: Stacks, ops: seq<string>, texts: seq<string>, vals: seq<int>) {
    match FeedAll(Tokens(e), s)
    case Err => ValueOf(e) == Err
    case Ok(s') =>
      && s' == Stacks(s.nums + texts, s.opers + ops) && |vals| == |ops| + 1 && Holds(texts, vals)
      && Waiting(e, ops) && Collapse(ops, vals) == ValueOf(e)
  }

  lemma {:induction false} FeedAllConcat(a: seq<string>, b: seq<string>, s: Stacks)
    ensures FeedAll(a + b, s) == match FeedAll(a, s) case Ok(s') => FeedAll(b, s') case Err => Err
  {
    if a == [] {
      assert a + b == b;
    } else {
      assert (a + b)[1..] == a[1..] + b;
      match Feed(a[0], s)
      case Ok(s') => FeedAllConcat(a[1..], b, s');
      case Err =>
    }
  }

  lemma FeedOne(item: string, s: Stacks)
    ensures FeedAll([item], s) == Feed(item, s)
  {
    assert [item][1..] == [];
  }

  lemma NumeralIsNoOper(digits: string)
    requires digits != "" && AllDigits(digits)
    ensures !IsOper(digits) && Parse(digits) == Ok(DigitsValue(digits))
  {
    assert IsNumber(digits[0]);
  }

  lemma LeavesNum(e: Expr, s: Stacks)
    requires WellFormed(e, OPERATORS) && e.Num?
    ensures Leaves(e, s, [], [e.digits], [DigitsValue(e.digits)])
  {
    NumeralIsNoOper(e.digits);
    FeedOne(e.digits, s);
    assert s.opers + [] == s.opers;
  }

  lemma WaitingAreOperators(e: Expr, ops: seq<string>)
    requires WellFormed(e, OPERATORS) && Waiting(e, ops)
    ensures Operators(ops)
  {
    if Level(e) == 1 {
      var k := |ops| - if Level(e.right) == 2 then 2 else 1;
      forall i | 0 <= i < |ops| ensures OperPriority(ops[i]) >= 1 {
        assert i < k ==> ops[i] == ops[..k][i];
      }
    }
  }

  lemma LeavesParen(e: Expr, s: Stacks, ops: seq<string>, texts: seq<string>, vals: seq<int>) returns (text: string)
    requires WellFormed(e, OPERATORS) && e.Paren? && Leaves(e.inner, Stacks(s.nums, s.opers + ["("]), ops, texts, vals)
    ensures match ValueOf(e)
            case Ok(v) => Leaves(e, s, [], [text], [v])
            case Err => Leaves(e, s, [], [], [0])
  {
    var t := Stacks(s.nums, s.opers + ["("]);
    FeedOne("(", s);
    FeedAllConcat(["("], Tokens(e.inner), s);
    FeedAllConcat(["("] + Tokens(e.inner), [")"], s);
    text := "";
    if FeedAll(Tokens(e.inner), t).Ok? {
      WaitingAreOperators(e.inner, ops);
      FeedOne(")", Stacks(t.nums + texts, t.opers + ops));
      text := ReduceToParenWaiting(s, ops, texts, vals);
      assert s.opers + [] == s.opers;
    }
  }

  /** What an operator leaves of its left operand: additions only, and none below a product. */
  ghost predicate Piled(e: Expr, plus: seq<string>)
    requires e.Bin?
  {
    AllPlus(plus) && (Priority(e.op) == 2 ==> plus == [])
  }

  lemma FrontIsPiled(e: Expr, ops: seq<string>)
    requires WellFormed(e, OPERATORS) && !CoversMinus(e) && e.Bin? && Waiting(e.left, ops) && ops != []
    ensures Piled(e, Front(ops))
  {
    var l := e.left;
    if Level(l) == 1 {
      var k := |ops| - if Level(l.right) == 2 then 2 else 1;
      forall i | 0 <= i < |ops| - 1 ensures Front(ops)[i] == "+" {
        if i < k {
          assert ops[i] == ops[..k][i];
        } else {
          assert l.op == '+';
        }
      }
    }
  }

  /** An operator reduces what waits below it once, if there is anything. */
  lemma FeedOperator(op: string, s: Stacks, ops: seq<string>, texts: seq<string>, vals: seq<int>)
    returns (below: seq<string>, texts': seq<string>, vals': seq<int>)
    requires OperPriority(op) >= 1 && |vals| == |ops| + 1 && Holds(texts, vals)
    requires if ops == [] then Below(s.opers, OperPriority(op)) else OperPriority(op) <= OperPriority(Last(ops))
    ensures below == if ops == [] then [] else Front(ops)
    ensures match Feed(op, Stacks(s.nums + texts, s.opers + ops))
            case Err => Collapse(ops, vals) == Err
            case Ok(s') =>
              && s' == Stacks(s.nums + texts', s.opers + below + [op])
              && |vals'| == |below| + 1 && Holds(texts', vals') && Collapse(below, vals') == Collapse(ops, vals)
  {
    if ops == [] {
      assert s.opers + ops == s.opers;
      below, texts', vals' := [], texts, vals;
    } else {
      assert Last(s.opers + ops) == Last(ops);
      below := Front(ops);
      texts', vals' := ReduceWaiting(s, ops, texts, vals);
    }
  }

  /** The operator between the operands. */
  lemma OperatorFed(e: Expr, s: Stacks, ops: seq<string>, texts: seq<string>, vals: seq<int>)
    returns (plus: seq<string>, texts': seq<string>, vals': seq<int>)
    requires WellFormed(e, OPERATORS) && MinusSafe(e) && e.Bin? && Below(s.opers, Level(e))
    requires |vals| == |ops| + 1 && Holds(texts, vals) && Waiting(e.left, ops)
    ensures match Feed([e.op], Stacks(s.nums + texts, s.opers + ops))
            case Err => Collapse(ops, vals) == Err
            case Ok(s') =>
              && s' == Stacks(s.nums + texts', s.opers + plus + [[e.op]]) && Piled(e, plus)
              && |vals'| == |plus| + 1 && Holds(texts', vals') && Collapse(plus, vals') == Collapse(ops, vals)
  {
    if ops != [] {
      LastBinds(e, ops);
      FrontIsPiled(e, ops);
    }
    plus, texts', vals' := FeedOperator([e.op], s, ops, texts, vals);
  }

  lemma LastBinds(e: Expr, ops: seq<string>)
    requires WellFormed(e, OPERATORS) && e.Bin? && Waiting(e.left, ops) && ops != []
    ensures Priority(e.op) <= OperPriority(Last(ops))
  {
    WaitingAreOperators(e.left, ops);
  }

  lemma WaitingBin(e: Expr, plus: seq<string>, ops: seq<string>)
    requires WellFormed(e, OPERATORS) && e.Bin? && Piled(e, plus) && Waiting(e.right, ops)
    ensures Waiting(e, plus + [[e.op]] + ops)
  {
    var all := plus + [[e.op]] + ops;
    assert all[..|plus|] == plus && all[|plus|] == [e.op];
  }

  lemma HoldsConcat(texts1: seq<string>, vals1: seq<int>, texts2: seq<string>, vals2: seq<int>)
    requires Holds(texts1, vals1) && Holds(texts2, vals2)
    ensures Holds(texts1 + texts2, vals1 + vals2)
  {
  }

  lemma Regroup<T>(a: seq<T>, b: seq<T>, c: seq<T>, d: seq<T>)
    ensures a + b + c + d == a + (b + c + d) && a + b + c == a + (b + c)
  {
  }

  lemma LeavesBin(e: Expr, s: Stacks, plus: seq<string>, texts1: seq<string>, vals1: seq<int>, mid: Stacks,
                  ops: seq<string>, texts2: seq<string>, vals2: seq<int>)
    requires WellFormed(e, OPERATORS) && e.Bin? && Piled(e, plus)
    requires |vals1| == |plus| + 1 && Holds(texts1, vals1) && Collapse(plus, vals1) == ValueOf(e.left)
    requires mid == Stacks(s.nums + texts1, s.opers + plus + [[e.op]])
    requires FeedAll(Tokens(e), s) == FeedAll(Tokens(e.right), mid)
    requires Leaves(e.right, mid, ops, texts2, vals2)
    ensures Leaves(e, s, plus + [[e.op]] + ops, texts1 + texts2, vals1 + vals2)
  {
    if FeedAll(Tokens(e.right), mid).Ok? {
      PlusRegroups(plus, [e.op], ops, vals1, vals2);
      WaitingBin(e, plus, ops);
      HoldsConcat(texts1, vals1, texts2, vals2);
      Regroup(s.nums, texts1, texts2, []);
      Regroup(s.opers, plus, [[e.op]], ops);
    }
  }

  lemma SplitTokens(e: Expr, s: Stacks)
    requires e.Bin?
    ensures FeedAll(Tokens(e), s) ==
            match FeedAll(Tokens(e.left), s)
            case Err => Err
            case Ok(s1) => match Feed([e.op], s1) case Err => Err case Ok(s2) => FeedAll(Tokens(e.right), s2)
  {
    FeedAllConcat(Tokens(e.left) + [[e.op]], Tokens(e.right), s);
    FeedAllConcat(Tokens(e.left), [[e.op]], s);
    if FeedAll(Tokens(e.left), s).Ok? {
      FeedOne([e.op], FeedAll(Tokens(e.left), s).value);
    }
  }

  /** Reading a minus-safe expression leaves exactly its value to be collapsed. */
  lemma {:induction false} ReadExpr(e: Expr, s: Stacks) returns (ops: seq<string>, texts: seq<string>, vals: seq<int>)
    requires WellFormed(e, OPERATORS) && MinusSafe(e) && Below(s.opers, Level(e))
    ensures Leaves(e, s, ops, texts, vals)
    decreases e, 1
  {
    match e
    case Num(digits) =>
      ops, texts, vals := [], [digits], [DigitsValue(digits)];
      LeavesNum(e, s);
    case Paren(inner) =>
      var ops0, texts0, vals0 := ReadExpr(inner, Stacks(s.nums, s.opers + ["("]));
      var text := LeavesParen(e, s, ops0, texts0, vals0);
      var v := ValueOf(e);
      ops, texts, vals := [], if v.Ok? then [text] else [], [if v.Ok? then v.value else 0];
    case Bin(_, l, _) =>
      ops, texts, vals := ReadExpr(l, s);
      SplitTokens(e, s);
      if FeedAll(Tokens(l), s).Ok? {
        ops, texts, vals := ReadRight(e, s, ops, texts, vals);
      }
  }

  /** The operator and the right operand, after the left one. */
  lemma {:induction false} ReadRight(e: Expr, s: Stacks, ops1: seq<string>, texts1: seq<string>, vals1: seq<int>)
    returns (ops: seq<string>, texts: seq<string>, vals: seq<int>)
    requires WellFormed(e, OPERATORS) && MinusSafe(e) && e.Bin? && Below(s.opers, Level(e))
    requires FeedAll(Tokens(e.left), s).Ok? && Leaves(e.left, s, ops1, texts1, vals1)
    ensures Leaves(e, s, ops, texts, vals)
    decreases e, 0
  {
    SplitTokens(e, s);
    var plus, texts2, vals2 := OperatorFed(e, s, ops1, texts1, vals1);
    var fed := Feed([e.op], Stacks(s.nums + texts1, s.opers + ops1));
    ops, texts, vals := [], [], [0];
    if fed.Ok? {
      var ops3, texts3, vals3 := ReadExpr(e.right, fed.value);
      LeavesBin(e, s, plus, texts2, vals2, fed.value, ops3, texts3, vals3);
      ops, texts, vals := plus + [[e.op]] + ops3, texts2 + texts3, vals2 + vals3;
    }
  }

  /**
    On every minus-safe formula the calculator computes the grammar's value, throws exactly when
    that divides by zero, and leaves both stacks empty.
  */
  lemma CalculationIsCorrect(e: Expr, formula: string)
    requires WellFormed(e, OPERATORS) && MinusSafe(e) && WithBlanks(formula, Text(e))
    ensures Calculated(formula, Stacks([], [])) ==
            match ValueOf(e)
            case Ok(v) => Ok((v, Stacks([], [])))
            case Err => Err
  {
    TokenizerRecoversTokens(e, OPERATORS, formula);
    var ops, texts, vals := ReadExpr(e, Stacks([], []));
    if FeedAll(Tokens(e), Stacks([], [])).Ok? {
      assert [] + texts == texts && [] + ops == ops;
      var text := ReduceAllWaiting(ops, texts, vals);
      assert Last([text]) == text && Front([text]) == [];
    }
  }

  /** In particular on every formula without a minus sign. */
  lemma CalculationWithoutMinus(e: Expr, formula: string)
    requires WellFormed(e, OPERATORS) && !HasMinus(e) && WithBlanks(formula, Text(e))
    ensures Calculated(formula, Stacks([], [])) ==
            match ValueOf(e)
            case Ok(v) => Ok((v, Stacks([], [])))
            case Err => Err
  {
    WithoutMinusIsSafe(e);
    CalculationIsCorrect(e, formula);
  }
}
