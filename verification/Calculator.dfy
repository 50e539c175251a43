/**
  The second calculator: a number stack and an operator stack, kept in fields. A new operator
  reduces the stacks at most once, so operators of equal priority can pile up and are then
  grouped to the right. The last element of a sequence is the top of a stack; reading an empty
  stack throws, and so does parsing a text that is no integer.
*/
module Calculator {
  import opened Wrappers
  import opened Helpers
  import opened Numerals
  import opened Infix

  const OPERATORS := {'+', '-', '*', '/', 'x'}

  predicate IsOper(item: string) {
    item in ["+", "-", "x", "*", "/", "(", ")"]
  }

  function OperPriority(oper: string): int {
    if oper == "*" || oper == "/" || oper == "x" then 2 else if oper == "+" || oper == "-" then 1 else -1
  }

  /** Division truncates toward zero. */
  function Quotient(a: int, b: int): int
    requires b != 0
  {
    var q := Abs(a) / Abs(b);
    if (a < 0) == (b < 0) then q else -q
  }

  function Abs(n: int): nat {
    if n < 0 then -n else n
  }

  function CalcByOper(oper: string, a: int, b: int): Result<int> {
    if oper == "+" then Ok(a + b)
    else if oper == "-" then Ok(a - b)
    else if oper == "x" || oper == "*" then Ok(a * b)
    else if oper == "/" then if b == 0 then Err else Ok(Quotient(a, b))
    else Err
  }

  // ---------------------------------------------------------------- the stacks

  datatype Stacks = Stacks(nums: seq<string>, opers: seq<string>)

  /** Apply the top operator to the two top numbers. */
  function Reduce(s: Stacks): Result<Stacks> {
    var n := |s.nums|;
    if s.opers == [] || n < 2 then Err
    else
      match (Parse(s.nums[n - 2]), Parse(s.nums[n - 1]))
      case (Ok(a), Ok(b)) =>
        (match CalcByOper(Last(s.opers), a, b)
         case Ok(v) => Ok(Stacks(s.nums[..n - 2] + [ToText(v)], Front(s.opers)))
         case Err => Err)
      case _ => Err
  }

  predicate ReducesFirst(item: string, s: Stacks) {
    s.opers != [] && OperPriority(item) <= OperPriority(Last(s.opers)) && item != "(" && item != ")"
  }

  function ReduceToParen(s: Stacks): Result<Stacks>
    decreases |s.opers|
  {
    if s.opers == [] then Err
    else if Last(s.opers) == "(" then Ok(s.(opers := Front(s.opers)))
    else
      match Reduce(s)
      case Ok(s') => ReduceToParen(s')
      case Err => Err
  }

  function Feed(item: string, s: Stacks): Result<Stacks> {
    if !IsOper(item) then Ok(s.(nums := s.nums + [item]))
    else
      match (if ReducesFirst(item, s) then Reduce(s) else Ok(s))
      case Err => Err
      case Ok(s') => if item == ")" then ReduceToParen(s') else Ok(s'.(opers := s'.opers + [item]))
  }

  function FeedAll(items: seq<string>, s: Stacks): Result<Stacks> {
    if items == [] then Ok(s)
    else
      match Feed(items[0], s)
      case Ok(s') => FeedAll(items[1..], s')
      case Err => Err
  }

  function ReduceAll(s: Stacks): Result<Stacks>
    decreases |s.opers|
  {
    if s.opers == [] then Ok(s)
    else
      match Reduce(s)
      case Ok(s') => ReduceAll(s')
      case Err => Err
  }

  /** A whole calculation, starting with the stacks as the last one left them. */
  function Calculated(formula: string, s: Stacks): Result<(int, Stacks)> {
    if RemoveSpaces(formula) == "" then Err
    else
      match FeedAll(Tokenize(RemoveSpaces(formula)), s)
      case Err => Err
      case Ok(s1) =>
        match ReduceAll(s1)
        case Err => Err
        case Ok(s2) =>
          if s2.nums == [] then Err
          else
            match Parse(Last(s2.nums))
            case Ok(v) => Ok((v, s2.(nums := Front(s2.nums))))
            case Err => Err
  }

  class Calculator {
    var numStack: seq<string>
    var operStack: seq<string>

    ghost function View(): Stacks
      reads this
    {
      Stacks(numStack, operStack)
    }

    constructor ()
      ensures View() == Stacks([], [])
    {
      numStack, operStack := [], [];
    }

    /** On an exception the stacks keep what the calculation had reached, which is left open here. */
    method Calc(formula: string) returns (r: Result<int>)
      modifies this
      ensures match Calculated(formula, old(View()))
              case Ok((v, s)) => r == Ok(v) && View() == s
              case Err => r == Err
    {
      var tokens := ToExpressionList(formula);
      if tokens.Err? {
        return Err;
      }
      var items := tokens.value;
      ghost var start := View();
      for k := 0 to |items|
        invariant FeedAll(items[k..], View()) == FeedAll(items, start)
      {
        var item := items[k];
        assert items[k..][1..] == items[k + 1..];
        if IsOper(item) {
          if |operStack| != 0 && OperPriority(item) <= OperPriority(Last(operStack)) && item != "(" && item != ")" {
            var ok := CalcNumberStack();
            if !ok {
              return Err;
            }
          }
          if item == ")" {
            ghost var before := View();
            while |operStack| > 0 && Last(operStack) != "("
              invariant ReduceToParen(View()) == ReduceToParen(before)
              decreases |operStack|
            {
              var ok := CalcNumberStack();
              if !ok {
                return Err;
              }
            }
            if |operStack| == 0 {
              return Err;
            }
            operStack := Front(operStack);
          } else {
            operStack := operStack + [item];
          }
        } else {
          numStack := numStack + [item];
        }
      }
      assert items[|items|..] == [];
      ghost var fed := View();
      while |operStack| > 0
        invariant ReduceAll(View()) == ReduceAll(fed)
        decreases |operStack|
      {
        var ok := CalcNumberStack();
        if !ok {
          return Err;
        }
      }
      if numStack == [] {
        return Err;
      }
      r := Parse(Last(numStack));
      numStack := Front(numStack);
    }

    method CalcNumberStack() returns (ok: bool)
      modifies this
      ensures match Reduce(old(View()))
              case Ok(s) => ok && View() == s
              case Err => !ok
    {
      if |operStack| == 0 || |numStack| < 2 {
        return false;
      }
      var oper := Last(operStack);
      operStack := Front(operStack);
      var num1 := Parse(Last(numStack));
      numStack := Front(numStack);
      var num2 := Parse(Last(numStack));
      numStack := Front(numStack);
      if num1.Err? || num2.Err? {
        return false;
      }
      var res := CalcByOper(oper, num2.value, num1.value);
      if res.Err? {
        return false;
      }
      assert numStack == old(numStack)[..|old(numStack)| - 2];
      numStack := numStack + [ToText(res.value)];
      return true;
    }
  }
}
