/**
  Infix formulas: the expressions, the ways to write them with parentheses, and the tokenizer
  that both calculators share.
*/
module Infix {
  import opened Wrappers
  import opened Numerals

  /** A formula as written: numerals, explicit parentheses and binary operators. */
  datatype Expr =
    | Num(digits: string)
    | Paren(inner: Expr)
    | Bin(op: char, left: Expr, right: Expr)

  function Priority(op: char): int {
    if op == '*' || op == '/' || op == 'x' then 2 else if op == '+' || op == '-' then 1 else -1
  }

  /** How tightly the outermost construct of a formula binds. */
  function Level(e: Expr): int {
    if e.Bin? then Priority(e.op) else 3
  }

  /**
    Written with sufficient parentheses: operators of one priority group to the left. Redundant
    parentheses are allowed anywhere.
  */
  ghost predicate WellFormed(e: Expr, operators: set<char>) {
    match e
    case Num(digits) => digits != "" && forall c :: c in digits ==> IsNumber(c)
    case Paren(inner) => WellFormed(inner, operators)
    case Bin(op, l, r) =>
      && op in operators && Priority(op) >= 1
      && WellFormed(l, operators) && WellFormed(r, operators)
      && Level(l) >= Priority(op) && Level(r) > Priority(op)
  }

  function Tokens(e: Expr): seq<string> {
    match e
    case Num(digits) => [digits]
    case Paren(inner) => ["("] + Tokens(inner) + [")"]
    case Bin(op, l, r) => Tokens(l) + [[op]] + Tokens(r)
  }

  function Text(e: Expr): string {
    match e
    case Num(digits) => digits
    case Paren(inner) => "(" + Text(inner) + ")"
    case Bin(op, l, r) => Text(l) + [op] + Text(r)
  }

  function RemoveSpaces(s: string): string {
    if s == "" then ""
    else if s[0] == ' ' then RemoveSpaces(s[1..])
    else [s[0]] + RemoveSpaces(s[1..])
  }

  /** A formula is a text with blanks inserted anywhere. */
  ghost predicate WithBlanks(formula: string, text: string)
    decreases |formula|
  {
    if formula == "" then text == ""
    else
      || (formula[0] == ' ' && WithBlanks(formula[1..], text))
      || (text != "" && formula[0] == text[0] && WithBlanks(formula[1..], text[1..]))
  }

  /** Exactly the blanks are removed. */
  lemma {:induction false} BlanksRemoved(formula: string, text: string)
    ensures ' ' !in RemoveSpaces(formula) && WithBlanks(formula, RemoveSpaces(formula))
    ensures WithBlanks(formula, text) && ' ' !in text ==> RemoveSpaces(formula) == text
    decreases |formula|
  {
    if formula != "" {
      BlanksRemoved(formula[1..], text);
      if formula[0] != ' ' {
        var rest := RemoveSpaces(formula[1..]);
        assert ([formula[0]] + rest)[1..] == rest;
        if text != "" {
          BlanksRemoved(formula[1..], text[1..]);
          assert text == [text[0]] + text[1..];
        }
      }
    }
  }

  lemma {:induction false} NothingLeft(formula: string)
    ensures RemoveSpaces(formula) == "" <==> forall c :: c in formula ==> c == ' '
  {
    if formula != "" {
      NothingLeft(formula[1..]);
      assert formula[0] in formula && forall c :: c in formula <==> c == formula[0] || c in formula[1..];
    }
  }

  lemma {:induction false} TextHasNoSpaces(e: Expr, operators: set<char>)
    requires WellFormed(e, operators)
    ensures ' ' !in Text(e)
  {
    match e
    case Num(digits) => assert !IsNumber(' ');
    case Paren(inner) => TextHasNoSpaces(inner, operators);
    case Bin(_, l, r) =>
      TextHasNoSpaces(l, operators);
      TextHasNoSpaces(r, operators);
  }

  // ---------------------------------------------------------------- the tokenizer

  /** The length of the digits at the front. */
  function DigitRun(s: string): (n: nat)
    ensures n <= |s|
    ensures forall i :: 0 <= i < n ==> IsNumber(s[i])
    ensures n < |s| ==> !IsNumber(s[n])
  {
    if s == "" || !IsNumber(s[0]) then 0 else 1 + DigitRun(s[1..])
  }

  function Tokenize(s: string): seq<string>
    decreases |s|
  {
    if s == "" then []
    else if !IsNumber(s[0]) then [[s[0]]] + Tokenize(s[1..])
    else [s[..DigitRun(s)]] + Tokenize(s[DigitRun(s)..])
  }

  function Joined(tokens: seq<string>): string {
    if tokens == [] then "" else tokens[0] + Joined(tokens[1..])
  }

  /** A run of digits, or a single other character. */
  ghost predicate IsToken(t: string) {
    t != "" && if IsNumber(t[0]) then AllDigits(t) else |t| == 1
  }

  /** Tokens of which no two neighbours are parts of one run of digits. */
  ghost predicate Lexed(tokens: seq<string>) {
    && (forall i :: 0 <= i < |tokens| ==> IsToken(tokens[i]))
    && (forall i :: 0 < i < |tokens| ==> !IsNumber(tokens[i][0]) || !IsNumber(tokens[i - 1][0]))
  }

  lemma FirstToken(s: string) returns (n: nat)
    requires s != ""
    ensures 0 < n <= |s| && Tokenize(s) == [s[..n]] + Tokenize(s[n..]) && IsToken(s[..n])
    ensures n < |s| ==> !IsNumber(s[0]) || !IsNumber(s[n])
  {
    n := if IsNumber(s[0]) then DigitRun(s) else 1;
    assert s[..1] == [s[0]];
    assert s[..n][0] == s[0];
  }

  /** The tokens spell the text. */
  lemma {:induction false} TokensSpell(s: string)
    ensures Joined(Tokenize(s)) == s && Lexed(Tokenize(s))
    ensures s != "" ==> Tokenize(s) != [] && Tokenize(s)[0] != "" && Tokenize(s)[0][0] == s[0]
    decreases |s|
  {
    if s != "" {
      var n := FirstToken(s);
      TokensSpell(s[n..]);
      assert s == s[..n] + s[n..] && s[..n][0] == s[0];
      LexedCons(s[..n], Tokenize(s[n..]));
    }
  }

  lemma LexedCons(t: string, rest: seq<string>)
    requires IsToken(t) && Lexed(rest)
    requires rest != [] ==> !IsNumber(t[0]) || !IsNumber(rest[0][0])
    ensures Lexed([t] + rest) && Joined([t] + rest) == t + Joined(rest)
  {
    var tokens := [t] + rest;
    assert tokens[1..] == rest;
    forall i | 0 < i < |tokens| ensures !IsNumber(tokens[i][0]) || !IsNumber(tokens[i - 1][0]) {
      assert tokens[i] == rest[i - 1];
      assert i > 1 ==> tokens[i - 1] == rest[i - 2];
    }
  }

  /** No other list does, unless it splits a run of digits. */
  lemma {:induction false} TokensAreUnique(tokens: seq<string>)
    requires Lexed(tokens)
    ensures Tokenize(Joined(tokens)) == tokens
    decreases |tokens|
  {
    if tokens != [] {
      var t, rest := tokens[0], tokens[1..];
      assert Lexed(rest) by {
        assert forall i :: 0 <= i < |rest| ==> rest[i] == tokens[i + 1];
      }
      TokensAreUnique(rest);
      if IsNumber(t[0]) {
        if rest != [] {
          assert !IsNumber(tokens[1][0]) && Joined(rest)[0] == tokens[1][0];
        }
        TokenizeNumeral(t, Joined(rest));
      } else {
        assert t == [t[0]];
        TokenizeChar(t[0], Joined(rest));
      }
    }
  }

  /** A formula of blanks makes the first indexing throw. */
  method ToExpressionList(formula: string) returns (r: Result<seq<string>>)
    ensures r.Err? <==> forall c :: c in formula ==> c == ' '
    ensures r.Ok? ==> WithBlanks(formula, Joined(r.value)) && ' ' !in Joined(r.value) && Lexed(r.value)
    ensures r == if RemoveSpaces(formula) == "" then Err else Ok(Tokenize(RemoveSpaces(formula)))
  {
    var text := RemoveSpaces(formula);
    NothingLeft(formula);
    if text == "" {
      return Err;
    }
    BlanksRemoved(formula, text);
    TokensSpell(text);
    var result := ReadTokens(text);
    return Ok(result);
  }

  /** The outer loop. */
  method ReadTokens(text: string) returns (result: seq<string>)
    ensures result == Tokenize(text)
  {
    result := [];
    var index := 0;
    while index < |text|
      invariant 0 <= index <= |text|
      invariant result + Tokenize(text[index..]) == Tokenize(text)
    {
      var rest := text[index..];
      if !IsNumber(text[index]) {
        assert rest[1..] == text[index + 1..];
        Regroup(result, [text[index]], Tokenize(text[index + 1..]));
        result := result + [[text[index]]];
        index := index + 1;
      } else {
        var num := DigitsAt(text, index);
        assert rest[..|num|] == num && rest[|num|..] == text[index + |num|..];
        Regroup(result, num, Tokenize(text[index + |num|..]));
        result := result + [num];
        index := index + |num|;
      }
    }
    assert text[|text|..] == "";
    assert result + [] == result;
  }

  /** The inner loop: the digits from an index on. */
  method DigitsAt(text: string, start: nat) returns (num: string)
    requires start < |text| && IsNumber(text[start])
    ensures 0 < |num| == DigitRun(text[start..]) && num == text[start..start + |num|]
  {
    num := "";
    var index := start;
    while index < |text| && IsNumber(text[index])
      invariant start <= index <= |text| && num == text[start..index]
      invariant forall i :: start <= i < index ==> IsNumber(text[i])
    {
      num := num + [text[index]];
      index := index + 1;
    }
    RunIs(text[start..], index - start);
  }

  lemma Regroup(a: seq<string>, x: string, b: seq<string>)
    ensures a + ([x] + b) == a + [x] + b
  {
  }

  lemma {:induction false} RunIs(s: string, n: nat)
    requires n <= |s| && forall i :: 0 <= i < n ==> IsNumber(s[i])
    requires n < |s| ==> !IsNumber(s[n])
    ensures DigitRun(s) == n
  {
  }

  /** Nothing that follows can be read as part of a numeral. */
  ghost predicate Separated(rest: string) {
    rest == "" || !IsNumber(rest[0])
  }

  lemma TokenizeChar(c: char, rest: string)
    requires !IsNumber(c)
    ensures Tokenize([c] + rest) == [[c]] + Tokenize(rest)
  {
    assert ([c] + rest)[1..] == rest;
  }

  lemma TokenizeNumeral(digits: string, rest: string)
    requires digits != "" && (forall c :: c in digits ==> IsNumber(c)) && Separated(rest)
    ensures Tokenize(digits + rest) == [digits] + Tokenize(rest)
  {
    var s := digits + rest;
    RunIs(s, |digits|);
    assert s[..|digits|] == digits && s[|digits|..] == rest;
  }

  lemma Concat3<T>(a: seq<T>, b: seq<T>, c: seq<T>, d: seq<T>)
    ensures a + b + c + d == a + (b + (c + d))
  {
  }

  lemma {:induction false} TokenizeText(e: Expr, operators: set<char>, rest: string)
    requires WellFormed(e, operators) && Separated(rest)
    ensures Tokenize(Text(e) + rest) == Tokens(e) + Tokenize(rest)
    decreases e
  {
    match e
    case Num(digits) => TokenizeNumeral(digits, rest);
    case Paren(inner) =>
      Concat3("(", Text(inner), ")", rest);
      TokenizeChar('(', Text(inner) + (")" + rest));
      TokenizeText(inner, operators, ")" + rest);
      TokenizeChar(')', rest);
      Concat3(["("], Tokens(inner), [")"], Tokenize(rest));
    case Bin(op, l, r) =>
      Concat3(Text(l), [op], Text(r), rest);
      TokenizeText(l, operators, [op] + (Text(r) + rest));
      TokenizeChar(op, Text(r) + rest);
      TokenizeText(r, operators, rest);
      Concat3(Tokens(l), [[op]], Tokens(r), Tokenize(rest));
  }

  lemma {:induction false} TextNotEmpty(e: Expr, operators: set<char>)
    requires WellFormed(e, operators)
    ensures Text(e) != ""
  {
    match e
    case Num(_) =>
    case Paren(inner) => assert Text(e)[0] == '(';
    case Bin(op, l, _) => TextNotEmpty(l, operators);
  }

  /** The tokenizer recovers the tokens, with blanks anywhere in the formula. */
  lemma TokenizerRecoversTokens(e: Expr, operators: set<char>, formula: string)
    requires WellFormed(e, operators) && WithBlanks(formula, Text(e))
    ensures RemoveSpaces(formula) != "" && Tokenize(RemoveSpaces(formula)) == Tokens(e)
  {
    TextHasNoSpaces(e, operators);
    BlanksRemoved(formula, Text(e));
    TextNotEmpty(e, operators);
    TokenizeText(e, operators, "");
    assert Text(e) + "" == Text(e);
    assert Tokens(e) + [] == Tokens(e);
  }
}
