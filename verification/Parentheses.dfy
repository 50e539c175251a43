/**
  Formulas that are not well-formed: what both calculators do about parentheses that do not match,
  and what the first one does about characters it does not know.
*/
module Parentheses {
  import opened Wrappers
  import opened Helpers
  import opened Numerals
  import opened Infix
  import S = ShuntingYard
  import C = Calculator

  /** The parentheses open after a text, with so many open before. None if one is closed that was not opened. */
  ghost function Open(text: string, open: nat): Option<nat> {
    if text == "" then Some(open)
    else if text[0] == '(' then Open(text[1..], open + 1)
    else if text[0] == ')' then if open == 0 then None else Open(text[1..], open - 1)
    else Open(text[1..], open)
  }

  ghost predicate Matched(text: string) {
    Open(text, 0) == Some(0)
  }

  lemma {:induction false} BlanksDoNotMatter(formula: string, open: nat)
    ensures Open(RemoveSpaces(formula), open) == Open(formula, open)
    decreases |formula|
  {
    if formula != "" {
      var rest := RemoveSpaces(formula[1..]);
      assert formula[0] != ' ' ==> ([formula[0]] + rest)[1..] == rest;
      BlanksDoNotMatter(formula[1..], open);
      BlanksDoNotMatter(formula[1..], open + 1);
      if open > 0 {
        BlanksDoNotMatter(formula[1..], open - 1);
      }
    }
  }

  lemma {:induction false} DigitsOpenNothing(digits: string, rest: string, open: nat)
    requires AllDigits(digits)
    ensures Open(digits + rest, open) == Open(rest, open)
  {
    if digits == "" {
      assert digits + rest == rest;
    } else {
      assert IsNumber(digits[0]);
      assert (digits + rest)[1..] == digits[1..] + rest;
      DigitsOpenNothing(digits[1..], rest, open);
    }
  }

  /** The parentheses open after the tokens. */
  ghost function OpenAfter(tokens: seq<string>, open: nat): Option<nat> {
    if tokens == [] then Some(open)
    else if tokens[0] == "(" then OpenAfter(tokens[1..], open + 1)
    else if tokens[0] == ")" then if open == 0 then None else OpenAfter(tokens[1..], open - 1)
    else OpenAfter(tokens[1..], open)
  }

  ghost predicate AllTokens(tokens: seq<string>) {
    forall i :: 0 <= i < |tokens| ==> IsToken(tokens[i])
  }

  lemma {:induction false} OpenOfTokens(tokens: seq<string>, open: nat)
    requires AllTokens(tokens)
    ensures OpenAfter(tokens, open) == Open(Joined(tokens), open)
    decreases |tokens|
  {
    if tokens != [] {
      var t, rest := tokens[0], Joined(tokens[1..]);
      OpenOfTokens(tokens[1..], open);
      OpenOfTokens(tokens[1..], open + 1);
      if open > 0 {
        OpenOfTokens(tokens[1..], open - 1);
      }
      if IsNumber(t[0]) {
        DigitsOpenNothing(t, rest, open);
      } else {
        assert t == [t[0]] && (t + rest)[1..] == rest;
      }
    }
  }

  /** The tokens of a formula have the parentheses of the formula. */
  lemma OpenOfFormula(formula: string, open: nat)
    ensures AllTokens(Tokenize(RemoveSpaces(formula)))
    ensures OpenAfter(Tokenize(RemoveSpaces(formula)), open) == Open(formula, open)
  {
    var text := RemoveSpaces(formula);
    TokensSpell(text);
    OpenOfTokens(Tokenize(text), open);
    BlanksDoNotMatter(formula, open);
  }

  ghost function Opens(stack: seq<string>): nat {
    if stack == [] then 0 else Opens(Front(stack)) + if Last(stack) == "(" then 1 else 0
  }

  lemma OneMore(stack: seq<string>, item: string)
    ensures Opens(stack + [item]) == Opens(stack) + if item == "(" then 1 else 0
  {
    assert Front(stack + [item]) == stack && Last(stack + [item]) == item;
  }

  // ---------------------------------------------------------------- the first calculator

  ghost predicate IsSign(item: string) {
    item == "+" || item == "-" || item == "*" || item == "/"
  }

  /** A numeral or one of the four operators. */
  ghost predicate Known(item: string) {
    S.IsNumeral(item) || IsSign(item)
  }

  ghost predicate AllKnown(items: seq<string>) {
    forall i :: 0 <= i < |items| ==> Known(items[i])
  }

  /** Nothing but opening parentheses waits on the stack besides what is known. */
  ghost predicate Clean(y: S.Yard) {
    && AllKnown(y.output)
    && forall i :: 0 <= i < |y.stack| ==> MayWait(y.stack[i])
  }

  ghost predicate MayWait(item: string) {
    item == "(" || IsSign(item)
  }

  /** No numeral gets onto the stack. */
  ghost predicate NoNumerals(stack: seq<string>) {
    forall i :: 0 <= i < |stack| ==> !S.IsNumeral(stack[i])
  }

  lemma {:induction false} PopToParenClean(y: S.Yard)
    requires NoNumerals(y.stack)
    ensures match S.PopToParen(y)
            case Err => Clean(y) ==> Opens(y.stack) == 0
            case Ok(y') => (Clean(y') <==> Clean(y)) && Opens(y'.stack) == Opens(y.stack) - 1 && NoNumerals(y'.stack)
    decreases |y.stack|
  {
    if y.stack != [] && Last(y.stack) != "(" {
      var y1 := S.Yard(y.output + [Last(y.stack)], Front(y.stack));
      MovedKeepsClean(y, y1);
      PopToParenClean(y1);
    }
  }

  /** Moving anything but a parenthesis from the stack to the output. */
  lemma MovedKeepsClean(y: S.Yard, y1: S.Yard)
    requires y.stack != [] && Last(y.stack) != "(" && NoNumerals(y.stack)
    requires y1 == S.Yard(y.output + [Last(y.stack)], Front(y.stack))
    ensures (Clean(y1) <==> Clean(y)) && Opens(y1.stack) == Opens(y.stack) && NoNumerals(y1.stack)
  {
    var n := |y.stack| - 1;
    assert !S.IsNumeral(y.stack[n]) && y1.output[|y.output|] == y.stack[n];
    assert forall i :: 0 <= i < n ==> y1.stack[i] == y.stack[i];
    assert forall i :: 0 <= i < |y.output| ==> y1.output[i] == y.output[i];
  }

  lemma {:induction false} PopWhileClean(priority: int, y: S.Yard)
    requires NoNumerals(y.stack)
    ensures var y' := S.PopWhile(priority, y);
            && NoNumerals(y'.stack) && (Clean(y') ==> Clean(y))
            && (priority >= 1 && Clean(y) ==> Clean(y') && Opens(y'.stack) == Opens(y.stack))
    decreases |y.stack|
  {
    if y.stack != [] && priority <= S.OperPriority(Last(y.stack)) {
      var y1 := S.Yard(y.output + [Last(y.stack)], Front(y.stack));
      if Last(y.stack) != "(" {
        MovedKeepsClean(y, y1);
      } else {
        assert y1.output[|y.output|] == "(";
      }
      PopWhileClean(priority, y1);
    }
  }

  /** What the first calculator knows. */
  ghost predicate Allowed(item: string) {
    Known(item) || item == "(" || item == ")"
  }

  ghost predicate AllAllowed(tokens: seq<string>) {
    forall i :: 0 <= i < |tokens| ==> Allowed(tokens[i])
  }

  lemma PushedClean(y: S.Yard, item: string)
    requires NoNumerals(y.stack) && !S.IsNumeral(item)
    ensures NoNumerals(y.stack + [item])
    ensures Clean(y.(stack := y.stack + [item])) <==> Clean(y) && MayWait(item)
    ensures Opens(y.stack + [item]) == Opens(y.stack) + if item == "(" then 1 else 0
  {
    var stack := y.stack + [item];
    OneMore(y.stack, item);
    assert stack[|y.stack|] == item;
    assert forall i :: 0 <= i < |y.stack| ==> stack[i] == y.stack[i];
  }

  /** One token more. */
  ghost predicate Feeds(item: string, y: S.Yard, y': S.Yard) {
    && NoNumerals(y'.stack)
    && (Clean(y') <==> Clean(y) && Allowed(item) && OpenAfter([item], Opens(y.stack)).Some?)
    && (Clean(y') ==> OpenAfter([item], Opens(y.stack)) == Some(Opens(y'.stack)))
  }

  lemma OpenAfterOne(item: string, open: nat)
    ensures OpenAfter([item], open) ==
            if item == "(" then Some(open + 1)
            else if item == ")" then if open == 0 then None else Some(open - 1)
            else Some(open)
  {
    assert [item][1..] == [];
  }

  lemma NumeralFed(item: string, y: S.Yard)
    requires NoNumerals(y.stack) && S.IsNumeral(item)
    ensures Feeds(item, y, y.(output := y.output + [item]))
  {
    OpenAfterOne(item, Opens(y.stack));
    var y' := y.(output := y.output + [item]);
    assert y'.output[|y.output|] == item;
    assert forall i :: 0 <= i < |y.output| ==> y'.output[i] == y.output[i];
  }

  /** An operator, or a token that is not known. */
  lemma OperatorFed(item: string, y: S.Yard, y': S.Yard)
    requires NoNumerals(y.stack) && !S.IsNumeral(item) && item != "(" && item != ")"
    requires y' == S.PopWhile(S.OperPriority(item), y)
    ensures Feeds(item, y, y'.(stack := y'.stack + [item]))
  {
    OpenAfterOne(item, Opens(y.stack));
    PopWhileClean(S.OperPriority(item), y);
    PushedClean(y', item);
  }

  lemma ParenOpened(y: S.Yard)
    requires NoNumerals(y.stack)
    ensures Feeds("(", y, y.(stack := y.stack + ["("]))
  {
    OpenAfterOne("(", Opens(y.stack));
    PushedClean(y, "(");
  }

  ghost predicate FeedsOrThrows(item: string, y: S.Yard, r: Result<S.Yard>) {
    match r
    case Err => Clean(y) ==> OpenAfter([item], Opens(y.stack)).None?
    case Ok(y') => Feeds(item, y, y')
  }

  lemma ClosingIsUnknown()
    ensures !S.IsNumeral(")") && !MayWait(")")
  {
  }

  /** With an empty stack a closing parenthesis gets onto it. */
  lemma ParenClosesNothing(y: S.Yard)
    requires y.stack == []
    ensures Feeds(")", y, y.(stack := y.stack + [")"]))
  {
    OpenAfterOne(")", Opens(y.stack));
    ClosingIsUnknown();
    PushedClean(y, ")");
  }

  lemma ParenClosed(y: S.Yard, r: Result<S.Yard>)
    requires NoNumerals(y.stack) && r == S.PopToParen(y)
    ensures FeedsOrThrows(")", y, r)
  {
    OpenAfterOne(")", Opens(y.stack));
    PopToParenClean(y);
  }

  lemma FeedClean(item: string, y: S.Yard)
    requires NoNumerals(y.stack)
    ensures FeedsOrThrows(item, y, S.Feed(item, y))
  {
    if S.IsNumeral(item) {
      NumeralFed(item, y);
    } else if item == "(" {
      ParenOpened(y);
    } else if item == ")" && y.stack == [] {
      ParenClosesNothing(y);
    } else if item == ")" {
      ParenClosed(y, S.PopToParen(y));
    } else {
      assert y.stack == [] ==> S.PopWhile(S.OperPriority(item), y) == y;
      OperatorFed(item, y, S.PopWhile(S.OperPriority(item), y));
    }
  }

  /** The tokens are read without an exception, and nothing odd is left, exactly if they are known and match. */
  ghost predicate FeedsAll(tokens: seq<string>, y: S.Yard, r: Result<S.Yard>) {
    var open := OpenAfter(tokens, Opens(y.stack));
    && (r.Ok? ==> NoNumerals(r.value.stack))
    && ((r.Ok? && Clean(r.value)) <==> Clean(y) && AllAllowed(tokens) && open.Some?)
    && (r.Ok? && Clean(r.value) ==> open == Some(Opens(r.value.stack)))
  }

  lemma {:induction false} FeedAllClean(tokens: seq<string>, y: S.Yard)
    requires NoNumerals(y.stack)
    ensures FeedsAll(tokens, y, S.FeedAll(tokens, y))
    decreases |tokens|
  {
    if tokens != [] {
      FeedClean(tokens[0], y);
      AllowedFirst(tokens);
      OpenAfterOne(tokens[0], Opens(y.stack));
      match S.Feed(tokens[0], y)
      case Ok(y') =>
        FeedAllClean(tokens[1..], y');
        OneTokenMore(tokens, y, y', S.FeedAll(tokens, y));
      case Err =>
    }
  }

  lemma AllowedFirst(tokens: seq<string>)
    requires tokens != []
    ensures AllAllowed(tokens) <==> Allowed(tokens[0]) && AllAllowed(tokens[1..])
  {
    assert forall i :: 0 < i < |tokens| ==> tokens[i] == tokens[1..][i - 1];
  }

  lemma OneTokenMore(tokens: seq<string>, y: S.Yard, y': S.Yard, r: Result<S.Yard>)
    requires tokens != [] && Feeds(tokens[0], y, y') && FeedsAll(tokens[1..], y', r)
    ensures FeedsAll(tokens, y, r)
  {
    AllowedFirst(tokens);
    OpenAfterOne(tokens[0], Opens(y.stack));
  }

  lemma {:induction false} NothingOpen(stack: seq<string>)
    ensures Opens(stack) == 0 <==> "(" !in stack
    decreases |stack|
  {
    if stack != [] {
      NothingOpen(Front(stack));
      assert stack == Front(stack) + [Last(stack)];
    }
  }

  lemma {:induction false} DrainKnown(y: S.Yard)
    ensures AllKnown(S.Drain(y)) <==> AllKnown(y.output) && AllKnown(y.stack)
    decreases |y.stack|
  {
    if y.stack != [] {
      var y1 := S.Yard(y.output + [Last(y.stack)], Front(y.stack));
      DrainKnown(y1);
      assert AllKnown(y1.output) <==> AllKnown(y.output) && Known(Last(y.stack)) by {
        KnownSnoc(y.output, Last(y.stack));
      }
      KnownSnoc(Front(y.stack), Last(y.stack));
      assert y.stack == Front(y.stack) + [Last(y.stack)];
    }
  }

  lemma KnownSnoc(items: seq<string>, item: string)
    ensures AllKnown(items + [item]) <==> AllKnown(items) && Known(item)
  {
    assert (items + [item])[|items|] == item;
    assert forall i :: 0 <= i < |items| ==> (items + [item])[i] == items[i];
  }

  lemma CleanAtTheEnd(y: S.Yard)
    requires NoNumerals(y.stack)
    ensures AllKnown(S.Drain(y)) <==> Clean(y) && Opens(y.stack) == 0
  {
    DrainKnown(y);
    NothingOpen(y.stack);
    if AllKnown(y.stack) {
      forall i | 0 <= i < |y.stack| ensures IsSign(y.stack[i]) {
        assert Known(y.stack[i]) && !S.IsNumeral(y.stack[i]);
      }
    }
  }

  /**
    Any tokens at all: postfix tokens without anything but numerals and operators come out exactly
    when nothing else but matching parentheses went in.
  */
  lemma SuffixIffMatched(tokens: seq<string>)
    ensures var r := S.Suffix(tokens);
            (r.Ok? && AllKnown(r.value)) <==> AllAllowed(tokens) && OpenAfter(tokens, 0) == Some(0)
  {
    var y := S.Yard([], []);
    FeedAllClean(tokens, y);
    match S.FeedAll(tokens, y)
    case Ok(y') => CleanAtTheEnd(y');
    case Err =>
  }

  /** Operators other than the four throw. */
  ghost predicate FourOperators<N(!new)>(apply: (string, N, N) -> Result<N>) {
    forall op, a, b :: !IsSign(op) ==> apply(op, a, b).Err?
  }

  lemma {:induction false} UnknownThrows<N(!new)>(items: seq<string>, stack: seq<N>, parse: string -> Result<N>,
                                                  apply: (string, N, N) -> Result<N>)
    requires FourOperators(apply) && S.EvalPostfix(items, stack, parse, apply).Ok?
    ensures AllKnown(items)
    decreases |items|
  {
    if items != [] {
      var n := |stack|;
      if S.IsNumeral(items[0]) {
        UnknownThrows(items[1..], stack + [parse(items[0]).value], parse, apply);
      } else {
        var v := apply(items[0], stack[n - 2], stack[n - 1]);
        UnknownThrows(items[1..], stack[..n - 2] + [v.value], parse, apply);
      }
      assert items == [items[0]] + items[1..];
    }
  }

  /** The first calculator throws for unmatched parentheses and for tokens that it does not know. */
  lemma EvaluationThrows<N(!new)>(formula: string, parse: string -> Result<N>, apply: (string, N, N) -> Result<N>)
    requires FourOperators(apply) && S.Evaluated(formula, parse, apply).Ok?
    ensures Matched(formula) && AllAllowed(Tokenize(RemoveSpaces(formula)))
  {
    var tokens := Tokenize(RemoveSpaces(formula));
    UnknownThrows(S.Suffix(tokens).value, [], parse, apply);
    SuffixIffMatched(tokens);
    OpenOfFormula(formula, 0);
  }

  // ---------------------------------------------------------------- the second calculator

  /** A reduction takes an operator, never a parenthesis. */
  lemma ReductionOpensNothing(s: C.Stacks)
    requires C.Reduce(s).Ok?
    ensures var s' := C.Reduce(s).value;
            s.opers != [] && s'.opers == Front(s.opers) && Last(s.opers) != "(" && Opens(s'.opers) == Opens(s.opers)
  {
  }

  lemma {:induction false} ReduceToParenCloses(s: C.Stacks)
    requires C.ReduceToParen(s).Ok?
    ensures Opens(s.opers) == Opens(C.ReduceToParen(s).value.opers) + 1
    decreases |s.opers|
  {
    if Last(s.opers) != "(" {
      ReductionOpensNothing(s);
      ReduceToParenCloses(C.Reduce(s).value);
    }
  }

  lemma {:induction false} ReduceAllNeedsNoneOpen(s: C.Stacks)
    requires C.ReduceAll(s).Ok?
    ensures Opens(s.opers) == 0 && C.ReduceAll(s).value.opers == []
    decreases |s.opers|
  {
    if s.opers != [] {
      ReductionOpensNothing(s);
      ReduceAllNeedsNoneOpen(C.Reduce(s).value);
    }
  }

  lemma FeedCounts(item: string, s: C.Stacks)
    requires C.Feed(item, s).Ok?
    ensures OpenAfter([item], Opens(s.opers)) == Some(Opens(C.Feed(item, s).value.opers))
  {
    OpenAfterOne(item, Opens(s.opers));
    if C.IsOper(item) {
      if C.ReducesFirst(item, s) {
        ReductionOpensNothing(s);
      }
      var s' := if C.ReducesFirst(item, s) then C.Reduce(s).value else s;
      if item == ")" {
        ReduceToParenCloses(s');
      } else {
        OneMore(s'.opers, item);
      }
    }
  }

  lemma {:induction false} FeedAllCounts(tokens: seq<string>, s: C.Stacks)
    requires C.FeedAll(tokens, s).Ok?
    ensures OpenAfter(tokens, Opens(s.opers)) == Some(Opens(C.FeedAll(tokens, s).value.opers))
    decreases |tokens|
  {
    if tokens != [] {
      FeedCounts(tokens[0], s);
      OpenAfterOne(tokens[0], Opens(s.opers));
      FeedAllCounts(tokens[1..], C.Feed(tokens[0], s).value);
    }
  }

  /**
    The second calculator throws for parentheses that do not match, counting those that an earlier
    exception has left on its stack. An answer leaves none there.
  */
  lemma CalculationThrows(formula: string, s: C.Stacks)
    requires C.Calculated(formula, s).Ok?
    ensures Open(formula, Opens(s.opers)) == Some(0) && C.Calculated(formula, s).value.1.opers == []
  {
    var tokens := Tokenize(RemoveSpaces(formula));
    FeedAllCounts(tokens, s);
    ReduceAllNeedsNoneOpen(C.FeedAll(tokens, s).value);
    OpenOfFormula(formula, Opens(s.opers));
  }
}
