/**
  Which formulas the second calculator gets right whatever the numerals are: exactly the
  minus-safe ones. In every other formula the numerals can be chosen so that the grammar gives one
  or minus one and the calculator gives the opposite.
*/
module CalculatorExact {
  import opened Wrappers
  import opened Helpers
  import opened Numerals
  import opened Infix
  import opened Calculator
  import opened CalculatorProof

  /** The same formula up to the numerals. */
  ghost predicate SameShape(e: Expr, e': Expr) {
    match (e, e')
    case (Num(_), Num(_)) => true
    case (Paren(inner), Paren(inner')) => SameShape(inner, inner')
    case (Bin(op, l, r), Bin(op', l', r')) => op == op' && SameShape(l, l') && SameShape(r, r')
    case _ => false
  }

  /** The calculator gives the value by the grammar, or throws where that does. */
  ghost predicate IsRight(e: Expr, formula: string) {
    Calculated(formula, Stacks([], [])) ==
    match ValueOf(e)
    case Ok(v) => Ok((v, Stacks([], [])))
    case Err => Err
  }

  ghost predicate AlwaysRight(e: Expr) {
    forall e', formula ::
      SameShape(e, e') && WellFormed(e', OPERATORS) && WithBlanks(formula, Text(e')) ==> IsRight(e', formula)
  }

  // ---------------------------------------------------------------- waiting sum operators

  ghost predicate AllSums(ops: seq<string>) {
    forall i :: 0 <= i < |ops| ==> ops[i] == "+" || ops[i] == "-"
  }

  /** What any expression leaves waiting: sum operators, and at most one product on top. */
  ghost predicate WaitingSums(e: Expr, ops: seq<string>) {
    if Level(e) == 3 then ops == []
    else if Level(e) == 2 then |ops| == 1 && OperPriority(ops[0]) == 2
    else
      && e.Bin? && ops != [] && AllSums(Front(ops))
      && if Level(e.right) == 2 then OperPriority(Last(ops)) == 2 else AllSums(ops)
  }

  lemma WaitingIsWaitingSums(e: Expr, ops: seq<string>)
    requires WellFormed(e, OPERATORS) && Waiting(e, ops)
    ensures WaitingSums(e, ops)
  {
    if Level(e) == 1 {
      var k := |ops| - if Level(e.right) == 2 then 2 else 1;
      forall i | 0 <= i <= k ensures ops[i] == "+" || ops[i] == "-" {
        assert i < k ==> ops[i] == ops[..k][i];
      }
    }
  }

  lemma WaitingSumsBind(e: Expr, ops: seq<string>)
    requires WellFormed(e, OPERATORS) && WaitingSums(e, ops)
    ensures Operators(ops)
  {
    if Level(e) == 1 {
      forall i | 0 <= i < |ops| ensures OperPriority(ops[i]) >= 1 {
        assert i < |ops| - 1 ==> ops[i] == Front(ops)[i];
      }
    }
  }

  /** Reading e succeeds and leaves numbers and operators that collapse to c. */
  ghost predicate Reads(e: Expr, s: Stacks, ops: seq<string>, texts: seq<string>, vals: seq<int>, c: int) {
    && FeedAll(Tokens(e), s) == Ok(Stacks(s.nums + texts, s.opers + ops))
    && |vals| == |ops| + 1 && Holds(texts, vals) && WaitingSums(e, ops) && Collapse(ops, vals) == Ok(c)
  }

  lemma SafeReads(e: Expr, s: Stacks, c: int)
    returns (ops: seq<string>, texts: seq<string>, vals: seq<int>)
    requires WellFormed(e, OPERATORS) && MinusSafe(e) && Below(s.opers, Level(e)) && ValueOf(e) == Ok(c)
    ensures Reads(e, s, ops, texts, vals, c) && Waiting(e, ops)
  {
    ops, texts, vals := ReadExpr(e, s);
    WaitingIsWaitingSums(e, ops);
  }

  lemma ReadsParen(e: Expr, s: Stacks, ops: seq<string>, texts: seq<string>, vals: seq<int>, c: int)
    returns (text: string)
    requires WellFormed(e, OPERATORS) && e.Paren?
    requires Reads(e.inner, Stacks(s.nums, s.opers + ["("]), ops, texts, vals, c)
    ensures Reads(e, s, [], [text], [c], c)
  {
    var t := Stacks(s.nums, s.opers + ["("]);
    FeedOne("(", s);
    FeedAllConcat(["("], Tokens(e.inner), s);
    FeedAllConcat(["("] + Tokens(e.inner), [")"], s);
    WaitingSumsBind(e.inner, ops);
    FeedOne(")", Stacks(t.nums + texts, t.opers + ops));
    text := ReduceToParenWaiting(s, ops, texts, vals);
    assert s.opers + [] == s.opers;
  }

  /** What an operator leaves of its left operand. */
  ghost predicate LeftBelow(e: Expr, below: seq<string>)
    requires e.Bin?
  {
    AllSums(below) && (Priority(e.op) == 2 ==> below == [])
  }

  lemma FrontIsSums(e: Expr, ops: seq<string>)
    requires WellFormed(e, OPERATORS) && e.Bin? && WaitingSums(e.left, ops) && ops != []
    ensures LeftBelow(e, Front(ops)) && Priority(e.op) <= OperPriority(Last(ops))
  {
    WaitingSumsBind(e.left, ops);
  }

  /** The operator between the operands reduces the left one once, if there is anything to reduce. */
  lemma OperatorRead(e: Expr, s: Stacks, ops: seq<string>, texts: seq<string>, vals: seq<int>, c: int)
    returns (below: seq<string>, texts': seq<string>, vals': seq<int>)
    requires WellFormed(e, OPERATORS) && e.Bin? && Below(s.opers, Level(e))
    requires |vals| == |ops| + 1 && Holds(texts, vals) && WaitingSums(e.left, ops) && Collapse(ops, vals) == Ok(c)
    ensures below == if ops == [] then [] else Front(ops)
    ensures Feed([e.op], Stacks(s.nums + texts, s.opers + ops)) ==
        Ok(Stacks(s.nums + texts', s.opers + below + [[e.op]]))
    ensures |vals'| == |below| + 1 && Holds(texts', vals') && Collapse(below, vals') == Ok(c) && LeftBelow(e, below)
  {
    if ops != [] {
      FrontIsSums(e, ops);
    }
    below, texts', vals' := FeedOperator([e.op], s, ops, texts, vals);
  }

  /** The right operand is read on top of what the operator left. */
  lemma ReadsBin(e: Expr, s: Stacks, below: seq<string>, texts1: seq<string>, vals1: seq<int>, mid: Stacks,
                 ops: seq<string>, texts2: seq<string>, vals2: seq<int>, c2: int, c: int)
    requires WellFormed(e, OPERATORS) && e.Bin? && LeftBelow(e, below)
    requires |vals1| == |below| + 1 && Holds(texts1, vals1)
    requires mid == Stacks(s.nums + texts1, s.opers + below + [[e.op]])
    requires FeedAll(Tokens(e), s) == FeedAll(Tokens(e.right), mid)
    requires Reads(e.right, mid, ops, texts2, vals2, c2)
    requires Collapse(below + [[e.op]] + ops, vals1 + vals2) == Ok(c)
    ensures Reads(e, s, below + [[e.op]] + ops, texts1 + texts2, vals1 + vals2, c)
  {
    HoldsConcat(texts1, vals1, texts2, vals2);
    CalculatorProof.Regroup(s.nums, texts1, texts2, []);
    CalculatorProof.Regroup(s.opers, below, [[e.op]], ops);
    WaitingSumsBin(e, below, ops);
  }

  lemma WaitingSumsBin(e: Expr, below: seq<string>, ops: seq<string>)
    requires WellFormed(e, OPERATORS) && e.Bin? && LeftBelow(e, below) && WaitingSums(e.right, ops)
    ensures WaitingSums(e, below + [[e.op]] + ops)
  {
    var all := below + [[e.op]] + ops;
    if Level(e) == 2 {
      assert all == [[e.op]];
    } else if Level(e.right) == 2 {
      assert Front(all) == below + [[e.op]] && Last(all) == ops[0];
    } else {
      assert all == below + [[e.op]];
    }
  }

  // ---------------------------------------------------------------- adding nothing

  /** An operand that is worth nothing does not matter, wherever it is grouped. */
  lemma {:induction false} NothingAdded(below: seq<string>, op: string, ops: seq<string>, xs: seq<int>, bs: seq<int>)
    requires |xs| == |below| + 1 && |bs| == |ops| + 1 && AllSums(below) && (op == "+" || op == "-")
    requires Collapse(ops, bs) == Ok(0)
    ensures Collapse(below + [op] + ops, xs + bs) == Collapse(below, xs)
    decreases |below|
  {
    var all := below + [op] + ops;
    if below == [] {
      assert all[0] == op && all[1..] == ops && (xs + bs)[1..] == bs;
    } else {
      NothingAdded(below[1..], op, ops, xs[1..], bs);
      assert all[0] == below[0] && all[1..] == below[1..] + [op] + ops && (xs + bs)[1..] == xs[1..] + bs;
    }
  }

  /** The operand on the right that changes nothing: zero for a sum and one for a product. */
  function Neutral(op: char): nat {
    if Priority(op) == 2 then 1 else 0
  }

  lemma NeutralRight(op: char, below: seq<string>, vals1: seq<int>, ops: seq<string>, vals2: seq<int>, c: int)
    requires op in OPERATORS && AllSums(below) && (Priority(op) == 2 ==> below == [])
    requires |vals1| == |below| + 1 && |vals2| == |ops| + 1
    requires Collapse(below, vals1) == Ok(c) && Collapse(ops, vals2) == Ok(Neutral(op))
    ensures Collapse(below + [[op]] + ops, vals1 + vals2) == Ok(c)
  {
    var text := [op];
    NeutralResult(op, c);
    if Priority(op) == 1 {
      assert text == "+" || text == "-";
      NothingAdded(below, text, ops, vals1, vals2);
    } else {
      PlusRegroups(below, text, ops, vals1, vals2);
    }
  }

  lemma NeutralResult(op: char, c: int)
    requires op in OPERATORS
    ensures CalcByOper([op], c, Neutral(op)) == Ok(c)
  {
  }

  // ---------------------------------------------------------------- a safe left operand

  /** The left operand and the operator have been read. */
  ghost predicate LeftRead(e: Expr, s: Stacks, ops: seq<string>, below: seq<string>, texts: seq<string>,
                           vals: seq<int>, a: int)
    requires e.Bin?
  {
    && Waiting(e.left, ops) && below == (if ops == [] then [] else Front(ops)) && LeftBelow(e, below)
    && FeedAll(Tokens(e), s) == FeedAll(Tokens(e.right), Stacks(s.nums + texts, s.opers + below + [[e.op]]))
    && |vals| == |below| + 1 && Holds(texts, vals) && Collapse(below, vals) == Ok(a)
  }

  lemma SafeLeft(e: Expr, s: Stacks, a: int)
    returns (ops: seq<string>, below: seq<string>, texts: seq<string>, vals: seq<int>)
    requires WellFormed(e, OPERATORS) && e.Bin? && MinusSafe(e.left) && Below(s.opers, Level(e))
    requires ValueOf(e.left) == Ok(a)
    ensures LeftRead(e, s, ops, below, texts, vals, a) && Below(s.opers + below + [[e.op]], Level(e.right))
  {
    var texts1, vals1;
    ops, texts1, vals1 := SafeReads(e.left, s, a);
    SplitTokens(e, s);
    below, texts, vals := OperatorRead(e, s, ops, texts1, vals1, a);
    OperatorOnTop(e, s, below);
  }

  lemma OperatorOnTop(e: Expr, s: Stacks, below: seq<string>)
    requires WellFormed(e, OPERATORS) && e.Bin?
    ensures Below(s.opers + below + [[e.op]], Level(e.right))
  {
    assert Last(s.opers + below + [[e.op]]) == [e.op];
  }

  // ---------------------------------------------------------------- a covered minus

  /** A waiting sum whose last operator is a minus. */
  ghost predicate EndsInMinus(ops: seq<string>) {
    ops != [] && Last(ops) == "-" && AllPlus(Front(ops))
  }

  /** The waiting additions and the minus, opened up: an offset and the subtrahend. */
  lemma MinusOpens(ops: seq<string>, vals: seq<int>, op: string, ops2: seq<string>, vals2: seq<int>)
    returns (offset: int, t: int)
    requires |vals| == |ops| + 1 && |vals2| == |ops2| + 1 && EndsInMinus(ops)
    ensures Collapse(ops, vals) == Ok(offset - t)
    ensures Collapse([op] + ops2, [t] + vals2).Ok? ==>
              Collapse(ops + [op] + ops2, vals + vals2) == Ok(offset - Collapse([op] + ops2, [t] + vals2).value)
  {
    var n := |ops|;
    var plus, xs, rest := Front(ops), vals[..n], [op] + ops2;
    t := vals[n];
    assert xs + [t] == vals;
    assert plus + ["-"] == ops;
    assert ops + [] == ops;
    PlusRegroups(plus, "-", [], xs, [t]);
    PlusRegroups(plus, "-", rest, xs, [t] + vals2);
    CalculatorProof.Regroup(ops, [op], ops2, []);
    CalculatorProof.Regroup(xs, [t], vals2, []);
    offset := Collapse(plus, xs).value;
  }

  /** Covering a minus makes it apply to everything to its right. */
  lemma CoveredMinus(ops: seq<string>, vals: seq<int>, op: string, ops2: seq<string>, vals2: seq<int>, a: int, b: int)
    returns (c: int)
    requires |vals| == |ops| + 1 && |vals2| == |ops2| + 1 && EndsInMinus(ops) && op in ["+", "-"]
    requires Collapse(ops, vals) == Ok(a) && Collapse(ops2, vals2) == Ok(b)
    ensures Collapse(ops + [op] + ops2, vals + vals2) == Ok(c)
    ensures c == if op == "+" then a - b else a + b
  {
    var offset, t := MinusOpens(ops, vals, op, ops2, vals2);
    PlusRegroups([], op, ops2, [t], vals2);
    assert [] + [op] + ops2 == [op] + ops2;
    c := offset - (if op == "+" then t + b else t - b);
  }

  lemma FrontEndsInMinus(e: Expr, ops: seq<string>)
    requires CoversMinus(e) && Waiting(e.left, ops)
    ensures |ops| >= 2 && EndsInMinus(Front(ops)) && OperPriority(Last(ops)) == 2
  {
    var k := |ops| - 2;
    assert Front(ops)[k] == "-";
    assert Front(Front(ops)) == ops[..k];
  }

  lemma CoverReads(e: Expr, s: Stacks, ops1: seq<string>, below: seq<string>, texts1: seq<string>, vals1: seq<int>,
                   a: int, ops2: seq<string>, texts2: seq<string>, vals2: seq<int>, b: int, c: int)
    returns (ops: seq<string>, texts: seq<string>, vals: seq<int>)
    requires WellFormed(e, OPERATORS) && CoversMinus(e) && LeftRead(e, s, ops1, below, texts1, vals1, a)
    requires Reads(e.right, Stacks(s.nums + texts1, s.opers + below + [[e.op]]), ops2, texts2, vals2, b)
    requires c == if e.op == '+' then a - b else a + b
    ensures Reads(e, s, ops, texts, vals, c)
  {
    FrontEndsInMinus(e, ops1);
    var c' := CoveredMinus(below, vals1, [e.op], ops2, vals2, a, b);
    var mid := Stacks(s.nums + texts1, s.opers + below + [[e.op]]);
    ReadsBin(e, s, below, texts1, vals1, mid, ops2, texts2, vals2, b, c);
    ops, texts, vals := below + [[e.op]] + ops2, texts1 + texts2, vals1 + vals2;
  }

  // ---------------------------------------------------------------- choosing numerals

  /** The numerals that make an expression worth v. */
  function Assigned(e: Expr, v: nat): Expr {
    match e
    case Num(_) => Num(Decimal(v))
    case Paren(inner) => Paren(Assigned(inner, v))
    case Bin(op, l, r) => Bin(op, Assigned(l, v), Assigned(r, Neutral(op)))
  }

  lemma {:induction false} AssignedShape(e: Expr, v: nat)
    requires WellFormed(e, OPERATORS)
    ensures SameShape(e, Assigned(e, v)) && WellFormed(Assigned(e, v), OPERATORS) && Level(Assigned(e, v)) == Level(e)
    ensures MinusSafe(Assigned(e, v)) <==> MinusSafe(e)
  {
    match e
    case Num(_) =>
    case Paren(inner) => AssignedShape(inner, v);
    case Bin(op, l, r) =>
      AssignedShape(l, v);
      AssignedShape(r, Neutral(op));
      AssignedRight(l, v);
  }

  lemma AssignedRight(e: Expr, v: nat)
    requires WellFormed(e, OPERATORS)
    ensures e.Bin? ==> Level(Assigned(e, v).right) == Level(e.right)
  {
  }

  lemma {:induction false} AssignedValue(e: Expr, v: nat)
    requires WellFormed(e, OPERATORS)
    ensures ValueOf(Assigned(e, v)) == Ok(v)
  {
    match e
    case Num(_) => DecimalValue(v);
    case Paren(inner) => AssignedValue(inner, v);
    case Bin(op, l, r) =>
      AssignedValue(l, v);
      AssignedValue(r, Neutral(op));
      NeutralResult(op, v);
  }

  /** With these numerals the calculator is right, however it groups. */
  lemma {:induction false} AssignedReads(e: Expr, v: nat, s: Stacks)
    returns (ops: seq<string>, texts: seq<string>, vals: seq<int>)
    requires WellFormed(e, OPERATORS) && Below(s.opers, Level(e))
    ensures Reads(Assigned(e, v), s, ops, texts, vals, v)
    decreases e, 0
  {
    var e' := Assigned(e, v);
    AssignedShape(e, v);
    match e
    case Num(_) =>
      AssignedValue(e, v);
      ops, texts, vals := SafeReads(e', s, v);
    case Paren(inner) =>
      var ops0, texts0, vals0 := AssignedReads(inner, v, Stacks(s.nums, s.opers + ["("]));
      var text := ReadsParen(e', s, ops0, texts0, vals0, v);
      ops, texts, vals := [], [text], [v];
    case Bin(op, l, r) =>
      ops, texts, vals := AssignedReads(l, v, s);
      ops, texts, vals := ThenNeutral(e', r, s, ops, texts, vals, v);
  }

  /** The left operand is worth c, and so is the whole. */
  lemma {:induction false} ThenNeutral(e: Expr, r: Expr, s: Stacks, ops1: seq<string>, texts1: seq<string>,
                                       vals1: seq<int>, c: int)
    returns (ops: seq<string>, texts: seq<string>, vals: seq<int>)
    requires WellFormed(e, OPERATORS) && e.Bin? && Below(s.opers, Level(e))
    requires WellFormed(r, OPERATORS) && e.right == Assigned(r, Neutral(e.op)) && Level(e.right) == Level(r)
    requires Reads(e.left, s, ops1, texts1, vals1, c)
    ensures Reads(e, s, ops, texts, vals, c)
    decreases r, 1
  {
    SplitTokens(e, s);
    var below, texts', vals' := OperatorRead(e, s, ops1, texts1, vals1, c);
    var mid := Stacks(s.nums + texts', s.opers + below + [[e.op]]);
    OperatorOnTop(e, s, below);
    var ops2, texts2, vals2 := AssignedReads(r, Neutral(e.op), mid);
    NeutralRight(e.op, below, vals', ops2, vals2, c);
    ReadsBin(e, s, below, texts', vals', mid, ops2, texts2, vals2, Neutral(e.op), c);
    ops, texts, vals := below + [[e.op]] + ops2, texts' + texts2, vals' + vals2;
  }

  // ---------------------------------------------------------------- a wrong result

  /** The numerals that the calculator gets wrong, chosen along the way to an operator that covers a minus. */
  function Falsified(e: Expr): Expr
    requires !MinusSafe(e)
  {
    match e
    case Paren(inner) => Paren(Falsified(inner))
    case Bin(op, l, r) =>
      if !MinusSafe(l) then Bin(op, Falsified(l), Assigned(r, Neutral(op)))
      else if CoversMinus(e) then Bin(op, Assigned(l, 0), Assigned(r, 1))
      else Bin(op, Assigned(l, Neutral(op)), Falsified(r))
  }

  /** What the grammar makes of them. */
  function Verdict(e: Expr): int
    requires !MinusSafe(e)
  {
    match e
    case Paren(inner) => Verdict(inner)
    case Bin(op, l, r) =>
      if !MinusSafe(l) then Verdict(l)
      else if CoversMinus(e) then if op == '+' then 1 else -1
      else if op == '-' then -Verdict(r)
      else Verdict(r)
  }

  lemma {:induction false} VerdictIsASign(e: Expr)
    requires !MinusSafe(e)
    ensures Verdict(e) == 1 || Verdict(e) == -1
  {
    match e
    case Paren(inner) => VerdictIsASign(inner);
    case Bin(_, l, r) =>
      if !MinusSafe(l) {
        VerdictIsASign(l);
      } else if !CoversMinus(e) {
        VerdictIsASign(r);
      }
  }

  lemma {:induction false} FalsifiedShape(e: Expr)
    requires WellFormed(e, OPERATORS) && !MinusSafe(e)
    ensures SameShape(e, Falsified(e)) && WellFormed(Falsified(e), OPERATORS) && Level(Falsified(e)) == Level(e)
  {
    match e
    case Paren(inner) => FalsifiedShape(inner);
    case Bin(op, l, r) =>
      if !MinusSafe(l) {
        FalsifiedShape(l);
        AssignedShape(r, Neutral(op));
      } else if CoversMinus(e) {
        AssignedShape(l, 0);
        AssignedShape(r, 1);
      } else {
        AssignedShape(l, Neutral(op));
        FalsifiedShape(r);
      }
  }

  /** A neutral left operand keeps a sign, or turns it. */
  lemma SignOnTheRight(op: char, v: int)
    requires op in OPERATORS && (v == 1 || v == -1)
    ensures CalcByOper([op], Neutral(op), v) == Ok(if op == '-' then -v else v)
  {
  }

  lemma {:induction false} FalsifiedValue(e: Expr)
    requires WellFormed(e, OPERATORS) && !MinusSafe(e)
    ensures ValueOf(Falsified(e)) == Ok(Verdict(e))
  {
    match e
    case Paren(inner) => FalsifiedValue(inner);
    case Bin(op, l, r) =>
      if !MinusSafe(l) {
        FalsifiedValue(l);
        AssignedValue(r, Neutral(op));
        NeutralResult(op, Verdict(l));
      } else if CoversMinus(e) {
        AssignedValue(l, 0);
        AssignedValue(r, 1);
      } else {
        AssignedValue(l, Neutral(op));
        FalsifiedValue(r);
        VerdictIsASign(r);
        SignOnTheRight(op, Verdict(r));
      }
  }

  /** The calculator makes the opposite of them. */
  lemma {:induction false} FalsifiedReads(e: Expr, e': Expr, s: Stacks, c: int)
    returns (ops: seq<string>, texts: seq<string>, vals: seq<int>)
    requires WellFormed(e, OPERATORS) && !MinusSafe(e) && Below(s.opers, Level(e))
    requires e' == Falsified(e) && c == -Verdict(e)
    ensures Reads(e', s, ops, texts, vals, c)
    decreases e, 1
  {
    FalsifiedShape(e);
    if e.Paren? {
      ops, texts, vals := FalsifiedInParens(e, e', s, c);
    } else if !MinusSafe(e.left) {
      ops, texts, vals := FalsifiedOnTheLeft(e, e', s, c);
    } else if CoversMinus(e) {
      CoverKeepsShape(e, e');
      AssignedValue(e.left, 0);
      ops, texts, vals := OneCovered(e', e.right, s, c);
    } else {
      ops, texts, vals := FalsifiedOnTheRight(e, e', s, c);
    }
  }

  lemma {:induction false} FalsifiedInParens(e: Expr, e': Expr, s: Stacks, c: int)
    returns (ops: seq<string>, texts: seq<string>, vals: seq<int>)
    requires WellFormed(e, OPERATORS) && e.Paren? && !MinusSafe(e.inner)
    requires e'.Paren? && WellFormed(e', OPERATORS) && e'.inner == Falsified(e.inner) && c == -Verdict(e.inner)
    ensures Reads(e', s, ops, texts, vals, c)
    decreases e, 0
  {
    var ops0, texts0, vals0 := FalsifiedReads(e.inner, e'.inner, Stacks(s.nums, s.opers + ["("]), c);
    var text := ReadsParen(e', s, ops0, texts0, vals0, c);
    ops, texts, vals := [], [text], [c];
  }

  lemma {:induction false} FalsifiedOnTheLeft(e: Expr, e': Expr, s: Stacks, c: int)
    returns (ops: seq<string>, texts: seq<string>, vals: seq<int>)
    requires WellFormed(e, OPERATORS) && e.Bin? && !MinusSafe(e.left) && Below(s.opers, Level(e))
    requires e'.Bin? && e'.op == e.op && WellFormed(e', OPERATORS) && c == -Verdict(e.left)
    requires e'.left == Falsified(e.left) && e'.right == Assigned(e.right, Neutral(e.op))
    ensures Reads(e', s, ops, texts, vals, c)
    decreases e, 0
  {
    AssignedShape(e.right, Neutral(e.op));
    var ops1, texts1, vals1 := FalsifiedReads(e.left, e'.left, s, c);
    ops, texts, vals := ThenNeutral(e', e.right, s, ops1, texts1, vals1, c);
  }

  lemma {:induction false} FalsifiedOnTheRight(e: Expr, e': Expr, s: Stacks, c: int)
    returns (ops: seq<string>, texts: seq<string>, vals: seq<int>)
    requires WellFormed(e, OPERATORS) && !MinusSafe(e) && e.Bin? && MinusSafe(e.left) && !CoversMinus(e)
    requires e' == Falsified(e) && WellFormed(e', OPERATORS) && Below(s.opers, Level(e)) && c == -Verdict(e)
    ensures Reads(e', s, ops, texts, vals, c)
    decreases e, 0
  {
    VerdictOnTheRight(e);
    NeutralLeft(e, e');
    var v := -Verdict(e.right);
    var ops1, below, texts1, vals1 := SafeLeft(e', s, Neutral(e.op));
    var mid := Stacks(s.nums + texts1, s.opers + below + [[e.op]]);
    var ops2, texts2, vals2 := FalsifiedReads(e.right, e'.right, mid, v);
    PlusBelow(e', ops1, below);
    ops, texts, vals := SignReads(e', s, ops1, below, texts1, vals1, mid, ops2, texts2, vals2, v, c);
  }

  /** The left operand of an operator that covers no minus. */
  lemma NeutralLeft(e: Expr, e': Expr)
    requires WellFormed(e, OPERATORS) && !MinusSafe(e) && e.Bin? && MinusSafe(e.left) && !CoversMinus(e)
    requires e' == Falsified(e)
    ensures e'.Bin? && e'.op == e.op && !CoversMinus(e') && e'.right == Falsified(e.right)
    ensures MinusSafe(e'.left) && ValueOf(e'.left) == Ok(Neutral(e.op))
    ensures Level(e') == Level(e) && Level(e'.right) == Level(e.right)
  {
    AssignedShape(e.left, Neutral(e.op));
    AssignedRight(e.left, Neutral(e.op));
    AssignedValue(e.left, Neutral(e.op));
    FalsifiedShape(e.right);
  }

  lemma OneCovered(e: Expr, r: Expr, s: Stacks, c: int) returns (ops: seq<string>, texts: seq<string>, vals: seq<int>)
    requires WellFormed(e, OPERATORS) && CoversMinus(e) && MinusSafe(e.left) && ValueOf(e.left) == Ok(0)
    requires WellFormed(r, OPERATORS) && e.right == Assigned(r, 1) && Level(e.right) == Level(r)
    requires Below(s.opers, Level(e)) && c == if e.op == '+' then -1 else 1
    ensures Reads(e, s, ops, texts, vals, c)
  {
    var ops1, below, texts1, vals1 := SafeLeft(e, s, 0);
    var ops2, texts2, vals2 := AssignedReads(r, 1, Stacks(s.nums + texts1, s.opers + below + [[e.op]]));
    ops, texts, vals := CoverReads(e, s, ops1, below, texts1, vals1, 0, ops2, texts2, vals2, 1, c);
  }

  lemma CoverKeepsShape(e: Expr, e': Expr)
    requires WellFormed(e, OPERATORS) && CoversMinus(e) && MinusSafe(e.left) && e' == Falsified(e)
    ensures e'.Bin? && e'.op == e.op && e'.left == Assigned(e.left, 0) && e'.right == Assigned(e.right, 1)
    ensures WellFormed(e', OPERATORS) && CoversMinus(e') && MinusSafe(e'.left)
    ensures Level(e') == Level(e) && Level(e'.right) == Level(e.right)
  {
    FalsifiedShape(e);
    AssignedShape(e.left, 0);
    AssignedRight(e.left, 0);
    AssignedShape(e.right, 1);
  }

  /** The sign on the right of an operator that covers no minus. */
  lemma SignReads(e: Expr, s: Stacks, ops1: seq<string>, below: seq<string>, texts1: seq<string>, vals1: seq<int>,
                  mid: Stacks, ops2: seq<string>, texts2: seq<string>, vals2: seq<int>, v: int, c: int)
    returns (ops: seq<string>, texts: seq<string>, vals: seq<int>)
    requires WellFormed(e, OPERATORS) && e.Bin? && LeftRead(e, s, ops1, below, texts1, vals1, Neutral(e.op))
    requires AllPlus(below) && mid == Stacks(s.nums + texts1, s.opers + below + [[e.op]])
    requires Reads(e.right, mid, ops2, texts2, vals2, v) && (v == 1 || v == -1)
    requires c == if e.op == '-' then -v else v
    ensures Reads(e, s, ops, texts, vals, c)
  {
    SignOnTop(e.op, below, vals1, ops2, vals2, v);
    ReadsBin(e, s, below, texts1, vals1, mid, ops2, texts2, vals2, v, c);
    ops, texts, vals := below + [[e.op]] + ops2, texts1 + texts2, vals1 + vals2;
  }

  lemma VerdictOnTheRight(e: Expr)
    requires !MinusSafe(e) && e.Bin? && MinusSafe(e.left) && !CoversMinus(e)
    ensures !MinusSafe(e.right) && Verdict(e) == if e.op == '-' then -Verdict(e.right) else Verdict(e.right)
    ensures Verdict(e.right) == 1 || Verdict(e.right) == -1
  {
    VerdictIsASign(e.right);
  }

  lemma PlusBelow(e: Expr, ops: seq<string>, below: seq<string>)
    requires WellFormed(e, OPERATORS) && e.Bin? && !CoversMinus(e)
    requires Waiting(e.left, ops) && below == if ops == [] then [] else Front(ops)
    ensures AllPlus(below)
  {
    if ops != [] {
      FrontIsPiled(e, ops);
    }
  }

  lemma SignOnTop(op: char, below: seq<string>, vals1: seq<int>, ops: seq<string>, vals2: seq<int>, v: int)
    requires op in OPERATORS && AllPlus(below) && (Priority(op) == 2 ==> below == []) && (v == 1 || v == -1)
    requires |vals1| == |below| + 1 && Collapse(below, vals1) == Ok(Neutral(op))
    requires |vals2| == |ops| + 1 && Collapse(ops, vals2) == Ok(v)
    ensures Collapse(below + [[op]] + ops, vals1 + vals2) == Ok(if op == '-' then -v else v)
  {
    var text := [op];
    SignOnTheRight(op, v);
    assert Priority(op) != 2 ==> text == "+" || text == "-";
    PlusRegroups(below, text, ops, vals1, vals2);
  }

  /** A whole formula that can be read. */
  lemma ReadsWhole(e: Expr, formula: string, ops: seq<string>, texts: seq<string>, vals: seq<int>, c: int)
    requires WellFormed(e, OPERATORS) && WithBlanks(formula, Text(e))
    requires Reads(e, Stacks([], []), ops, texts, vals, c)
    ensures Calculated(formula, Stacks([], [])) == Ok((c, Stacks([], [])))
  {
    TokenizerRecoversTokens(e, OPERATORS, formula);
    assert [] + texts == texts && [] + ops == ops;
    var text := ReduceAllWaiting(ops, texts, vals);
    assert Last([text]) == text && Front([text]) == [];
  }

  /**
    A formula that covers a minus, with operands that the calculator gets right: it subtracts the
    last operand where it should add it, and the other way round. The result is the grammar's value
    exactly when that operand is worth zero.
  */
  lemma CoveredMinusIsWrong(e: Expr, formula: string, a: int, b: int) returns (c: int)
    requires WellFormed(e, OPERATORS) && CoversMinus(e) && MinusSafe(e.left) && MinusSafe(e.right)
    requires WithBlanks(formula, Text(e)) && ValueOf(e.left) == Ok(a) && ValueOf(e.right) == Ok(b)
    ensures Calculated(formula, Stacks([], [])) == Ok((c, Stacks([], [])))
    ensures c == (if e.op == '+' then a - b else a + b) && (ValueOf(e) == Ok(c) <==> b == 0)
  {
    var s := Stacks([], []);
    var ops1, below, texts1, vals1 := SafeLeft(e, s, a);
    var ops2, texts2, vals2 := SafeReads(e.right, Stacks(s.nums + texts1, s.opers + below + [[e.op]]), b);
    c := if e.op == '+' then a - b else a + b;
    var ops, texts, vals := CoverReads(e, s, ops1, below, texts1, vals1, a, ops2, texts2, vals2, b, c);
    ReadsWhole(e, formula, ops, texts, vals, c);
    assert ValueOf(e) == CalcByOper([e.op], a, b);
  }

  lemma ExampleValues()
    ensures ValueOf(Num("1")) == Ok(1) && ValueOf(Num("4")) == Ok(4)
    ensures ValueOf(Bin('*', Num("2"), Num("3"))) == Ok(6)
  {
    assert Front("1") == "" && Front("2") == "" && Front("3") == "" && Front("4") == "";
  }

  /** 1-2*3+4 gives 1 - (2*3 + 4). */
  lemma ShortestUnsafeFormula(formula: string)
    requires WithBlanks(formula, "1-2*3+4")
    ensures Calculated(formula, Stacks([], [])) == Ok((-9, Stacks([], [])))
  {
    var product := Bin('*', Num("2"), Num("3"));
    var e := Bin('+', Bin('-', Num("1"), product), Num("4"));
    ExampleValues();
    assert ValueOf(e.left) == Meaning('-', 1, 6);
    ExampleText(product, e);
    var c := CoveredMinusIsWrong(e, formula, -5, 4);
  }

  lemma ExampleText(product: Expr, e: Expr)
    requires product == Bin('*', Num("2"), Num("3"))
    requires e == Bin('+', Bin('-', Num("1"), product), Num("4"))
    ensures Text(e) == "1-2*3+4"
  {
    assert Text(product) == "2*3";
    assert Text(e.left) == "1-2*3";
  }

  // ---------------------------------------------------------------- all formulas of one shape

  lemma {:induction false} SameShapeIsSafe(e: Expr, e': Expr)
    requires SameShape(e, e')
    ensures Level(e) == Level(e') && (MinusSafe(e) <==> MinusSafe(e'))
  {
    match (e, e')
    case (Num(_), Num(_)) =>
    case (Paren(inner), Paren(inner')) => SameShapeIsSafe(inner, inner');
    case (Bin(_, l, r), Bin(_, l', r')) =>
      SameShapeIsSafe(l, l');
      SameShapeIsSafe(r, r');
      if l.Bin? {
        SameShapeIsSafe(l.right, l'.right);
      }
  }

  /** No blank at all is one way to insert some. */
  lemma {:induction false} NoBlanks(text: string)
    ensures WithBlanks(text, text)
  {
    if text != "" {
      NoBlanks(text[1..]);
    }
  }

  /** Every formula that is not minus-safe comes out wrong for some numerals. */
  lemma UnsafeIsWrong(e: Expr)
    requires WellFormed(e, OPERATORS) && !MinusSafe(e)
    ensures !AlwaysRight(e)
  {
    var e' := Falsified(e);
    var formula := Text(e');
    FalsifiedShape(e);
    FalsifiedValue(e);
    VerdictIsASign(e);
    NoBlanks(formula);
    var ops, texts, vals := FalsifiedReads(e, e', Stacks([], []), -Verdict(e));
    ReadsWhole(e', formula, ops, texts, vals, -Verdict(e));
    assert !IsRight(e', formula);
  }

  /**
    The calculator is right on all formulas of a shape, whatever the numerals, exactly when no
    subtracted product or quotient is followed by a further sum operator.
  */
  lemma AlwaysRightIffMinusSafe(e: Expr)
    requires WellFormed(e, OPERATORS)
    ensures AlwaysRight(e) <==> MinusSafe(e)
  {
    if MinusSafe(e) {
      forall e', formula | SameShape(e, e') && WellFormed(e', OPERATORS) && WithBlanks(formula, Text(e'))
        ensures IsRight(e', formula) {
        SameShapeIsSafe(e, e');
        CalculationIsCorrect(e', formula);
      }
    } else {
      UnsafeIsWrong(e);
    }
  }
}
