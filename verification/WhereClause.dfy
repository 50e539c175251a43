/**
  The query builder: a lambda is translated into the text of a WHERE clause. Only the parts of a
  lambda that the translation looks at are kept.
*/
module WhereClause {
  import opened Wrappers
  import opened SqlCondition
  import opened Helpers
  import opened Numerals

  datatype NodeType = Relation(op: Operator) | AndAlso | OrElse | OtherNode

  datatype Expression =
    | Binary(nodeType: NodeType, left: Expression, right: Expression)
    | Member(name: string)
    | Constant(value: Value)
    | OtherExpression

  /** How a constant is written into a text: strings are not quoted. */
  function ValueText(v: Value): string {
    match v
    case Integer(n) => ToText(n)
    case Text(s) => s
  }

  function ExpressionTypeConvert(t: NodeType): string {
    match t
    case Relation(Equal) => "="
    case Relation(Greater) => ">"
    case Relation(GreaterOrEqual) => ">="
    case Relation(Less) => "<"
    case Relation(LessOrEqual) => "<="
    case AndAlso => "AND"
    case OrElse => "OR"
    case OtherNode => ""
  }

  /** A comparison throws unless a member is on its left and a constant on its right. */
  function Where(e: Expression): Result<string> {
    match e
    case Binary(Relation(op), l, r) =>
      if l.Member? && r.Constant? then Ok(l.name + ExpressionTypeConvert(e.nodeType) + ValueText(r.value)) else Err
    case Binary(t, l, r) =>
      (match (Where(l), Where(r))
       case (Ok(a), Ok(b)) => Ok("(" + a + ") " + ExpressionTypeConvert(t) + " (" + b + ")")
       case _ => Err)
    case _ => Ok("")
  }

  /** The operand that is reached through connectives, to the right for true. */
  ghost function OperandAt(e: Expression, path: seq<bool>): Option<Expression>
    decreases |path|
  {
    if path == [] then Some(e)
    else if e.Binary? && !e.nodeType.Relation? then OperandAt(if path[0] then e.right else e.left, path[1..])
    else None
  }

  /** A comparison whose left side is no member or whose right side is no constant. */
  ghost predicate CastFails(e: Expression) {
    e.Binary? && e.nodeType.Relation? && !(e.left.Member? && e.right.Constant?)
  }

  ghost predicate FailsAt(e: Expression, path: seq<bool>) {
    OperandAt(e, path).Some? && CastFails(OperandAt(e, path).value)
  }

  /** An exception is thrown exactly if a cast fails somewhere. */
  lemma {:induction false} WhereThrows(e: Expression)
    ensures Where(e).Err? <==> exists path :: FailsAt(e, path)
    decreases e
  {
    if e.Binary? && !e.nodeType.Relation? {
      WhereThrows(e.left);
      WhereThrows(e.right);
      if path :| FailsAt(e.left, path) {
        assert ([false] + path)[1..] == path;
        assert FailsAt(e, [false] + path);
      }
      if path :| FailsAt(e.right, path) {
        assert ([true] + path)[1..] == path;
        assert FailsAt(e, [true] + path);
      }
      if path :| FailsAt(e, path) {
        assert FailsAt(if path[0] then e.right else e.left, path[1..]);
      }
    } else {
      assert FailsAt(e, []) <==> CastFails(e);
    }
  }

  function Joined(fields: seq<string>): string {
    if fields == [] then ""
    else if |fields| == 1 then fields[0]
    else fields[0] + "," + Joined(fields[1..])
  }

  // ---------------------------------------------------------------- the meaning of a lambda

  /** AndAlso and OrElse over comparisons of a member with a constant. */
  ghost predicate Supported(e: Expression) {
    match e
    case Binary(Relation(_), l, r) => l.Member? && r.Constant?
    case Binary(AndAlso, l, r) => Supported(l) && Supported(r)
    case Binary(OrElse, l, r) => Supported(l) && Supported(r)
    case _ => false
  }

  /** Members have proper names, and constants are numbers or texts that look like names. */
  ghost predicate Readable(e: Expression) {
    match e
    case Binary(Relation(_), l, r) =>
      l.Member? && r.Constant? ==> IsName(l.name) && (r.value.Text? ==> IsName(r.value.s))
    case Binary(_, l, r) => Readable(l) && Readable(r)
    case _ => true
  }

  /** All constants are numbers. */
  ghost predicate Numeric(e: Expression) {
    match e
    case Binary(Relation(_), l, r) => r.Constant? ==> r.value.Integer?
    case Binary(_, l, r) => Numeric(l) && Numeric(r)
    case _ => true
  }

  /** The lambda on one row. */
  ghost predicate IsTrue(e: Expression, row: Row)
    requires Supported(e)
  {
    match e
    case Binary(Relation(op), l, r) => l.name in row && Compare(op, row[l.name], r.value)
    case Binary(AndAlso, l, r) => IsTrue(l, row) && IsTrue(r, row)
    case Binary(OrElse, l, r) => IsTrue(l, row) || IsTrue(r, row)
  }

  /** The same, with every text taken for the name of a column. */
  ghost predicate IsTrueUnquoted(e: Expression, row: Row)
    requires Supported(e)
  {
    match e
    case Binary(Relation(op), l, r) =>
      && l.name in row
      && if r.value.Integer? then Compare(op, row[l.name], r.value)
         else r.value.s in row && Compare(op, row[l.name], row[r.value.s])
    case Binary(AndAlso, l, r) => IsTrueUnquoted(l, row) && IsTrueUnquoted(r, row)
    case Binary(OrElse, l, r) => IsTrueUnquoted(l, row) || IsTrueUnquoted(r, row)
  }

  /** It makes no difference if there are only numbers. */
  lemma {:induction false} NumbersNeedNoQuotes(e: Expression, row: Row)
    requires Supported(e) && Numeric(e)
    ensures IsTrueUnquoted(e, row) <==> IsTrue(e, row)
  {
    match e
    case Binary(Relation(_), _, _) =>
    case Binary(AndAlso, l, r) =>
      NumbersNeedNoQuotes(l, row);
      NumbersNeedNoQuotes(r, row);
    case Binary(OrElse, l, r) =>
      NumbersNeedNoQuotes(l, row);
      NumbersNeedNoQuotes(r, row);
  }

  // ---------------------------------------------------------------- the words of a clause

  ghost function Tokens(e: Expression): seq<string> {
    match e
    case Binary(Relation(op), l, r) =>
      if l.Member? && r.Constant? then [l.name + OperatorText(op) + ValueText(r.value)] else []
    case Binary(t, l, r) => InParens(Tokens(l)) + Flushed(ExpressionTypeConvert(t)) + InParens(Tokens(r))
    case _ => []
  }

  ghost function InParens(ts: seq<string>): seq<string> {
    ["("] + ts + [")"]
  }

  lemma {:induction false} NumberText(n: int)
    ensures ToText(n) != "" && forall c :: c in ToText(n) ==> c == '-' || IsNumber(c)
  {
  }

  /** A constant that can be read: the text, and what it is read as. */
  lemma ConstantRead(v: Value)
    requires v.Text? ==> IsName(v.s)
    ensures ValueText(v) != "" && ValueText(v)[0] != '=' && forall c :: c in ValueText(v) ==> !IsSpace(c) && !IsParen(c)
    ensures ReadOperand(ValueText(v)) == Some(if v.Integer? then Literal(v.n) else Column(v.s))
  {
    match v
    case Integer(n) =>
      NumberText(n);
      ParseToText(n);
      assert ToText(n)[0] in ToText(n);
    case Text(s) =>
      NameIsNoNumber(s);
      assert s[0] in s;
  }

  lemma ComparisonIsWord(name: string, op: Operator, v: Value)
    requires IsName(name) && (v.Text? ==> IsName(v.s))
    ensures IsWord(name + OperatorText(op) + ValueText(v))
  {
    ConstantRead(v);
    assert forall c :: c in OperatorText(op) ==> IsRelation(c);
  }

  ghost predicate EndsWord(s: string) {
    s == "" || IsSpace(s[0]) || IsParen(s[0])
  }

  lemma WordsOfParens(text: string, ts: seq<string>, s: string)
    requires Words(text + (")" + s), "") == ts + Words(")" + s, "")
    ensures Words("(" + text + ")" + s, "") == InParens(ts) + Words(s, "")
  {
    var all := "(" + text + ")" + s;
    assert all[0] == '(' && all[1..] == text + (")" + s);
    assert Words(all, "") == ["("] + (ts + Words(")" + s, ""));
    assert (")" + s)[1..] == s;
  }

  lemma WordsOfOperator(t: NodeType, s: string)
    requires !t.Relation? && EndsWord(s)
    ensures Words(" " + ExpressionTypeConvert(t) + s, "") == Flushed(ExpressionTypeConvert(t)) + Words(s, "")
  {
    var op := ExpressionTypeConvert(t);
    var all := " " + op + s;
    assert all[1..] == op + s;
    if op != "" {
      WholeWord(op, s);
    } else {
      assert op + s == s;
    }
  }

  /** The words of the text that is written for an expression. */
  lemma {:induction false} WordsOfWhere(e: Expression, s: string)
    requires Readable(e) && Where(e).Ok? && EndsWord(s)
    ensures Words(Where(e).value + s, "") == Tokens(e) + Words(s, "")
    decreases e
  {
    match e
    case Binary(Relation(op), l, r) =>
      ComparisonIsWord(l.name, op, r.value);
      WholeWord(Where(e).value, s);
    case Binary(t, l, r) => WordsOfBinary(e, s);
    case _ => assert "" + s == s;
  }

  lemma {:induction false} WordsOfBinary(e: Expression, s: string)
    requires Readable(e) && Where(e).Ok? && EndsWord(s) && e.Binary? && !e.nodeType.Relation?
    ensures Words(Where(e).value + s, "") == Tokens(e) + Words(s, "")
    decreases e, 0
  {
    var a, b, op := Where(e.left).value, Where(e.right).value, ExpressionTypeConvert(e.nodeType);
    var s1 := " " + op + (" " + ("(" + b + ")" + s));
    WordsOfWhere(e.right, ")" + s);
    WordsOfParens(b, Tokens(e.right), s);
    WordsFromOperator(e.nodeType, "(" + b + ")" + s);
    WordsOfWhere(e.left, ")" + s1);
    WordsOfParens(a, Tokens(e.left), s1);
    BinaryText(a, op, b, s);
    BinaryTokens(InParens(Tokens(e.left)), Flushed(op), InParens(Tokens(e.right)), Words(s, ""));
  }

  lemma WordsFromOperator(t: NodeType, s: string)
    requires !t.Relation?
    ensures Words(" " + ExpressionTypeConvert(t) + (" " + s), "") == Flushed(ExpressionTypeConvert(t)) + Words(s, "")
  {
    WordsOfOperator(t, " " + s);
    assert (" " + s)[1..] == s;
  }

  lemma BinaryText(a: string, op: string, b: string, s: string)
    ensures "(" + a + ") " + op + " (" + b + ")" + s == "(" + a + ")" + (" " + op + (" " + ("(" + b + ")" + s)))
  {
    assert "(" + a + ") " == "(" + a + ")" + " ";
    assert " (" == " " + "(";
  }

  lemma BinaryTokens(a: seq<string>, op: seq<string>, b: seq<string>, rest: seq<string>)
    ensures a + op + b + rest == a + (op + (b + rest))
  {
  }

  // ---------------------------------------------------------------- reading the clause

  /** The condition that stands for a supported lambda. */
  ghost function Meaning(e: Expression): Condition
    requires Supported(e)
  {
    match e
    case Binary(Relation(op), l, r) =>
      Comparison(Column(l.name), op, if r.value.Integer? then Literal(r.value.n) else Column(r.value.s))
    case Binary(AndAlso, l, r) => And(Meaning(l), Meaning(r))
    case Binary(OrElse, l, r) => Or(Meaning(l), Meaning(r))
  }

  lemma {:induction false} MeaningHolds(e: Expression, row: Row)
    requires Supported(e)
    ensures SqlCondition.Holds(Meaning(e), row) <==> IsTrueUnquoted(e, row)
  {
    match e
    case Binary(Relation(op), l, r) =>
    case Binary(AndAlso, l, r) =>
      MeaningHolds(l, row);
      MeaningHolds(r, row);
    case Binary(OrElse, l, r) =>
      MeaningHolds(l, row);
      MeaningHolds(r, row);
  }

  lemma NameIsNoNumber(name: string)
    requires IsName(name)
    ensures ReadOperand(name) == Some(Column(name))
  {
    assert name[0] in name;
  }

  lemma WordRead(e: Expression)
    requires Supported(e) && Readable(e) && e.nodeType.Relation?
    ensures |Tokens(e)| == 1 && ReadComparison(Tokens(e)[0]) == Some(Meaning(e))
    ensures Tokens(e)[0] !in ["(", ")", "AND", "OR"]
  {
    var name, op, v := e.left.name, e.nodeType.op, e.right.value;
    NameIsNoNumber(name);
    ConstantRead(v);
    ComparisonRead(name, op, ValueText(v));
    ComparisonIsNoKeyword(name, op, ValueText(v));
  }

  lemma ComparisonIsNoKeyword(l: string, op: Operator, r: string)
    ensures l + OperatorText(op) + r !in ["(", ")", "AND", "OR"]
  {
    var w := l + OperatorText(op) + r;
    assert w[|l|] == OperatorText(op)[0] && IsRelation(w[|l|]);
  }

  /** Nothing that continues a term or a condition. */
  ghost predicate Stops(ts: seq<string>) {
    !Begins(ts, "AND") && !Begins(ts, "OR")
  }

  /** Reading an unsupported expression fails, or gets stuck before a parenthesis. */
  ghost predicate Stuck(r: Parsed) {
    r.Some? ==> Begins(r.value.1, "(")
  }

  ghost predicate ReadsCondition(e: Expression, rest: seq<string>) {
    if Supported(e) then ParseCondition(Tokens(e) + rest) == Some((Meaning(e), rest))
    else Stuck(ParseCondition(Tokens(e) + rest))
  }

  ghost predicate ReadsFactor(e: Expression, rest: seq<string>) {
    ParseFactor(InParens(Tokens(e)) + rest) == if Supported(e) then Some((Meaning(e), rest)) else None
  }

  lemma FactorFromCondition(e: Expression, rest: seq<string>)
    requires ReadsCondition(e, [")"] + rest)
    ensures ReadsFactor(e, rest)
  {
    var ts := InParens(Tokens(e)) + rest;
    assert ts[0] == "(" && ts[1..] == Tokens(e) + ([")"] + rest);
    assert ([")"] + rest)[1..] == rest;
  }

  lemma FactorAlone(ts: seq<string>)
    ensures ParseFactor(ts).None? ==> ParseCondition(ts).None?
    ensures ParseFactor(ts).Some? && Stops(ParseFactor(ts).value.1) ==> ParseCondition(ts) == ParseFactor(ts)
    ensures ParseFactor(ts).Some? && Stops(ParseFactor(ts).value.1) ==> ParseTerm(ts) == ParseFactor(ts)
  {
    assert ParseFactor(ts).None? ==> ParseTerm(ts).None?;
  }

  /** Both operands are read before the operator is looked at. */
  ghost predicate ReadsFactors(e: Expression, rest: seq<string>)
    requires e.Binary?
  {
    var op := Flushed(ExpressionTypeConvert(e.nodeType));
    && ReadsFactor(e.right, rest)
    && Tokens(e) + rest == InParens(Tokens(e.left)) + (op + (InParens(Tokens(e.right)) + rest))
    && ReadsFactor(e.left, op + (InParens(Tokens(e.right)) + rest))
  }

  lemma {:induction false} ReadFactors(e: Expression, rest: seq<string>)
    requires Readable(e) && e.Binary? && !e.nodeType.Relation?
    ensures ReadsFactors(e, rest)
    decreases e, 0
  {
    var op := Flushed(ExpressionTypeConvert(e.nodeType));
    var after := op + (InParens(Tokens(e.right)) + rest);
    ReadCondition(e.right, [")"] + rest);
    FactorFromCondition(e.right, rest);
    ReadCondition(e.left, [")"] + after);
    FactorFromCondition(e.left, after);
    BinaryTokens(InParens(Tokens(e.left)), op, InParens(Tokens(e.right)), rest);
  }

  lemma {:induction false} ReadCondition(e: Expression, rest: seq<string>)
    requires Readable(e) && Begins(rest, ")")
    ensures ReadsCondition(e, rest)
    decreases e, 1
  {
    if !e.Binary? || (e.nodeType.Relation? && !Supported(e)) {
      assert Tokens(e) + rest == rest;
      assert ReadComparison(")").None?;
      FactorAlone(rest);
    } else if e.nodeType.Relation? {
      WordRead(e);
      assert (Tokens(e) + rest)[1..] == rest;
      FactorAlone(Tokens(e) + rest);
    } else {
      ReadFactors(e, rest);
      JoinedReads(e, rest);
    }
  }

  lemma JoinedReads(e: Expression, rest: seq<string>)
    requires e.Binary? && !e.nodeType.Relation? && ReadsFactors(e, rest) && Stops(rest)
    ensures ReadsCondition(e, rest)
  {
    var op, right := ExpressionTypeConvert(e.nodeType), InParens(Tokens(e.right)) + rest;
    assert Begins(right, "(");
    FactorAlone(right);
    FactorAlone(Tokens(e) + rest);
    if op == "" {
      assert Flushed(op) + right == right;
    } else {
      assert (Flushed(op) + right)[0] == op && (Flushed(op) + right)[1..] == right;
    }
  }

  /** The first factor of the clause is always true. */
  ghost function Tautology(): Condition {
    Comparison(Literal(1), Equal, Literal(1))
  }

  lemma TautologyRead()
    ensures ReadComparison("1=1") == Some(Tautology())
  {
    assert "1=1"[..1] == "1" && "1=1"[1..] == "=1" && "=1"[1..] == "1";
    assert Front("1") == "";
    assert RelationAt("1=1") == 1 by {
      assert IsRelation("=1"[0]);
    }
  }

  /** What the clause means: AND takes the first operand of an OR to itself. */
  ghost function ClauseMeaning(e: Expression): Condition
    requires Supported(e)
  {
    match e
    case Binary(OrElse, l, r) => Or(And(Tautology(), Meaning(l)), Meaning(r))
    case _ => And(Tautology(), Meaning(e))
  }

  ghost function ClauseTokens(e: Expression): seq<string> {
    ["1=1"] + (["AND"] + Tokens(e))
  }

  lemma WordsOfClause(where_: string, ts: seq<string>)
    requires Words(where_ + " \n", "") == ts
    ensures Words(Clause(where_), "") == ["1=1"] + (["AND"] + ts)
  {
    var rest := where_ + " \n";
    WholeWord("AND", " " + rest);
    assert (" " + rest)[1..] == rest;
    var tail := "AND" + (" " + rest);
    WholeWord("1=1", " " + tail);
    assert (" " + tail)[1..] == tail;
    assert "1=1 AND " == "1=1" + (" " + ("AND" + " "));
    assert Clause(where_) == "1=1" + (" " + tail);
  }

  lemma ClauseWords(e: Expression)
    requires Readable(e) && Where(e).Ok?
    ensures Words(Clause(Where(e).value), "") == ClauseTokens(e)
  {
    WordsOfWhere(e, " \n");
    assert Words(" \n", "") == [] by {
      assert " \n"[1..] == "\n" && "\n"[1..] == "";
    }
    assert Tokens(e) + [] == Tokens(e);
    WordsOfClause(Where(e).value, Tokens(e));
  }

  /** The tautology is read, and AND continues with a term. */
  lemma ClauseFirstTerm(ts: seq<string>)
    ensures var all := ["1=1"] + (["AND"] + ts);
            ParseTerm(all) ==
            match ParseTerm(ts)
            case Some((a, rest)) => Some((And(Tautology(), a), rest))
            case None => None
  {
    TautologyRead();
    var all := ["1=1"] + (["AND"] + ts);
    assert all[0] == "1=1" && all[1..] == ["AND"] + ts;
    assert (["AND"] + ts)[1..] == ts;
    assert ParseFactor(all) == Some((Tautology(), ["AND"] + ts));
  }

  lemma ReadClause(e: Expression)
    requires Readable(e) && e.Binary? && Where(e).Ok?
    ensures var r := ParseCondition(ClauseTokens(e));
            if Supported(e) then r == Some((ClauseMeaning(e), [])) else Stuck(r)
  {
    var ts := Tokens(e);
    ClauseFirstTerm(ts);
    if e.nodeType.Relation? {
      WordRead(e);
      assert ts[1..] == [];
      FactorAlone(ts);
    } else {
      ReadFactors(e, []);
      assert ts + [] == ts;
      ReadJoinedClause(e);
    }
  }

  lemma ReadJoinedClause(e: Expression)
    requires e.Binary? && !e.nodeType.Relation? && ReadsFactors(e, []) && Tokens(e) + [] == Tokens(e)
    requires ParseTerm(ClauseTokens(e)) == match ParseTerm(Tokens(e))
                                           case Some((a, rest)) => Some((And(Tautology(), a), rest))
                                           case None => None
    ensures var r := ParseCondition(ClauseTokens(e));
            if Supported(e) then r == Some((ClauseMeaning(e), [])) else Stuck(r)
  {
    var op, right := ExpressionTypeConvert(e.nodeType), InParens(Tokens(e.right)) + [];
    assert Begins(right, "(");
    FactorAlone(right);
    if op == "" {
      assert Flushed(op) + right == right;
    } else {
      assert (Flushed(op) + right)[0] == op && (Flushed(op) + right)[1..] == right;
    }
  }

  ghost predicate AgreeOnAllRows(c: Condition, e: Expression)
    requires Supported(e)
  {
    forall row :: SqlCondition.Holds(c, row) <==> IsTrue(e, row)
  }

  /** True where the lambda is with its texts taken for columns, so where the lambda is if there are only numbers. */
  ghost predicate SaysWhatIsMeant(c: Condition, e: Expression)
    requires Supported(e)
  {
    && (forall row :: SqlCondition.Holds(c, row) <==> IsTrueUnquoted(e, row))
    && (Numeric(e) ==> AgreeOnAllRows(c, e))
  }

  /**
    The clause can be read exactly when the lambda is built from AndAlso and OrElse over
    comparisons, and then it is true on exactly the rows where the lambda is, each text standing
    for the column of that name.
  */
  lemma ClauseIsExact(e: Expression)
    requires Readable(e) && e.Binary? && Where(e).Ok?
    ensures var c := ParseText(Clause(Where(e).value));
            && (c.Some? <==> Supported(e))
            && (Supported(e) ==> SaysWhatIsMeant(c.value, e))
  {
    ClauseWords(e);
    ReadClause(e);
    if Supported(e) {
      ClauseAgrees(e);
    }
  }

  lemma ClauseHolds(e: Expression, row: Row)
    requires Supported(e)
    ensures SqlCondition.Holds(ClauseMeaning(e), row) <==> IsTrueUnquoted(e, row)
  {
    MeaningHolds(e, row);
    assert SqlCondition.Holds(Tautology(), row);
    if e.nodeType == OrElse {
      MeaningHolds(e.left, row);
      MeaningHolds(e.right, row);
    }
  }

  /** A string is written without quotes, and is read as the name of a column. */
  lemma StringIsReadAsColumn(name: string, s: string)
    requires IsName(name) && IsName(s)
    ensures var e := Binary(Relation(Equal), Member(name), Constant(Text(s)));
            && Where(e).Ok?
            && ParseText(Clause(Where(e).value)) == Some(And(Tautology(), Comparison(Column(name), Equal, Column(s))))
  {
    var w := name + "=" + s;
    assert IsWord(w);
    WholeWord(w, " \n");
    assert Words(" \n", "") == [] by {
      assert " \n"[1..] == "\n" && "\n"[1..] == "";
    }
    WordsOfClause(w, [w]);
    EqualityRead(name, s);
    ClauseFirstTerm([w]);
    assert [w][1..] == [];
    FactorAlone([w]);
  }

  lemma EqualityRead(name: string, s: string)
    requires IsName(name) && IsName(s)
    ensures name + "=" + s !in ["(", ")", "AND", "OR"]
    ensures ReadComparison(name + "=" + s) == Some(Comparison(Column(name), Equal, Column(s)))
  {
    NameIsNoNumber(name);
    NameIsNoNumber(s);
    assert s[0] in s;
    ComparisonRead(name, Equal, s);
    var w := name + "=" + s;
    assert w[|name|] == '=';
    assert IsRelation(w[|name|]);
  }

  /** No condition tells two texts of a single column apart, since none can hold a text. */
  lemma {:induction false} TextsLookAlike(c: Condition, name: string, s: string, t: string)
    ensures SqlCondition.Holds(c, map[name := Text(s)]) <==> SqlCondition.Holds(c, map[name := Text(t)])
  {
    match c
    case Comparison(_, _, _) =>
    case And(a, b) =>
      TextsLookAlike(a, name, s, t);
      TextsLookAlike(b, name, s, t);
    case Or(a, b) =>
      TextsLookAlike(a, name, s, t);
      TextsLookAlike(b, name, s, t);
  }

  /**
    An equality with any constant: its clause can be read and is right on all rows exactly when the
    constant is a number.
  */
  lemma EqualityIsExactForNumbers(name: string, v: Value)
    requires IsName(name)
    ensures var e := Binary(Relation(Equal), Member(name), Constant(v));
            var c := ParseText(Clause(Where(e).value));
            (c.Some? && AgreeOnAllRows(c.value, e)) <==> v.Integer?
  {
    var e := Binary(Relation(Equal), Member(name), Constant(v));
    var c := ParseText(Clause(Where(e).value));
    if v.Integer? {
      ClauseIsExact(e);
    } else if c.Some? {
      TextIsMissed(e, c.value, name, v.s);
    }
  }

  lemma TextIsMissed(e: Expression, c: Condition, name: string, s: string)
    requires e == Binary(Relation(Equal), Member(name), Constant(Text(s)))
    ensures !AgreeOnAllRows(c, e)
  {
    TextsLookAlike(c, name, s, s + "x");
    assert s != s + "x";
    var equal: Row, other: Row := map[name := Text(s)], map[name := Text(s + "x")];
    assert IsTrue(e, equal) && !IsTrue(e, other);
  }

  // ---------------------------------------------------------------- the whole query

  lemma ClauseText(where_: string)
    ensures "WHERE 1=1 AND " + where_ + " \n" == "WHERE " + Clause(where_)
  {
    assert "WHERE 1=1 AND " == "WHERE " + "1=1 AND ";
  }

  ghost function ColumnsText(fields: seq<string>): string {
    if fields == [] then "*" else Joined(fields)
  }

  ghost function SelectPart(fields: seq<string>, typeName: string): string {
    "SELECT " + ColumnsText(fields) + " FROM " + typeName + "\n"
  }

  /** What follows the word WHERE. */
  ghost function Clause(where_: string): string {
    "1=1 AND " + where_ + " \n"
  }

  ghost predicate AllNames(fields: seq<string>) {
    forall i :: 0 <= i < |fields| ==> IsName(fields[i])
  }

  lemma {:induction false} JoinedIsWord(fields: seq<string>)
    requires fields != [] && AllNames(fields)
    ensures IsWord(Joined(fields)) && '*' !in Joined(fields)
  {
    if |fields| > 1 {
      JoinedIsWord(fields[1..]);
    }
  }

  lemma {:induction false} ColumnsRead(fields: seq<string>)
    requires fields != [] && AllNames(fields)
    ensures SplitAtCommas(Joined(fields), "") == fields
  {
    var name := fields[0];
    assert "" + name == name;
    if |fields| == 1 {
      SplitOne(name, "", "");
      assert name + "" == name;
    } else {
      ColumnsRead(fields[1..]);
      FirstColumn(name, Joined(fields[1..]));
    }
  }

  lemma FirstColumn(name: string, rest: string)
    requires ',' !in name
    ensures SplitAtCommas(name + "," + rest, "") == [name] + SplitAtCommas(rest, "")
  {
    var tail := "," + rest;
    SplitOne(name, tail, "");
    assert tail[0] == ',' && tail[1..] == rest;
    assert name + "," + rest == name + tail && "" + name == name;
  }

  lemma ColumnsReadBack(fields: seq<string>)
    requires AllNames(fields)
    ensures IsWord(ColumnsText(fields)) && ReadColumns(ColumnsText(fields)) == fields
  {
    if fields != [] {
      JoinedIsWord(fields);
      ColumnsRead(fields);
      assert "*"[0] == '*';
    }
  }

  lemma WordThen(w: string, s: string)
    requires IsWord(w)
    ensures Words(w + (" " + s), "") == [w] + Words(s, "") && Words(w + ("\n" + s), "") == [w] + Words(s, "")
  {
    WholeWord(w, " " + s);
    WholeWord(w, "\n" + s);
    assert (" " + s)[1..] == s && ("\n" + s)[1..] == s;
  }

  lemma WordsOfSelect(columns: string, table: string, s: string)
    requires IsWord(columns) && IsWord(table)
    ensures Words("SELECT " + columns + " FROM " + table + "\n" + s, "") ==
        ["SELECT", columns, "FROM", table] + Words(s, "")
  {
    var s4 := table + ("\n" + s);
    var s3 := "FROM" + (" " + s4);
    var s2 := columns + (" " + s3);
    WordThen(table, s);
    WordThen("FROM", s4);
    WordThen(columns, s3);
    WordThen("SELECT", s2);
    SelectText(columns, table, s);
    FourWords("SELECT", columns, "FROM", table, Words(s, ""));
  }

  lemma SelectText(columns: string, table: string, s: string)
    ensures "SELECT " + columns + " FROM " + table + "\n" + s ==
            "SELECT" + (" " + (columns + (" " + ("FROM" + (" " + (table + ("\n" + s)))))))
  {
    assert "SELECT " == "SELECT" + " ";
    assert " FROM " == " " + "FROM" + " ";
  }

  lemma FourWords(a: string, b: string, c: string, d: string, rest: seq<string>)
    ensures [a] + ([b] + ([c] + ([d] + rest))) == [a, b, c, d] + rest
  {
  }

  lemma QueryWithoutClause(fields: seq<string>, typeName: string)
    requires AllNames(fields) && IsWord(typeName)
    ensures ReadQuery(SelectPart(fields, typeName)) == Some(Query(fields, typeName, None))
  {
    ColumnsReadBack(fields);
    WordsOfSelect(ColumnsText(fields), typeName, "");
    assert SelectPart(fields, typeName) + "" == SelectPart(fields, typeName);
  }

  lemma QueryWithClause(fields: seq<string>, typeName: string, clause: string, ts: seq<string>)
    requires AllNames(fields) && IsWord(typeName) && Words(clause, "") == ts
    ensures ReadQuery(SelectPart(fields, typeName) + ("WHERE " + clause)) ==
            match ParseCondition(ts)
            case Some((c, rest)) => if rest == [] then Some(Query(fields, typeName, Some(c))) else None
            case None => None
  {
    ColumnsReadBack(fields);
    WordsOfSelect(ColumnsText(fields), typeName, "WHERE " + clause);
    WordThen("WHERE", clause);
    assert "WHERE " + clause == "WHERE" + (" " + clause);
    var ws := ["SELECT", ColumnsText(fields), "FROM", typeName] + (["WHERE"] + ts);
    assert ws[4] == "WHERE" && ws[5..] == ts;
  }

  lemma ClauseAgrees(e: Expression)
    requires Supported(e)
    ensures SaysWhatIsMeant(ClauseMeaning(e), e)
  {
    forall row ensures SqlCondition.Holds(ClauseMeaning(e), row) <==> IsTrueUnquoted(e, row) {
      ClauseHolds(e, row);
    }
    if Numeric(e) {
      forall row ensures IsTrueUnquoted(e, row) <==> IsTrue(e, row) {
        NumbersNeedNoQuotes(e, row);
      }
    }
  }

  /**
    The whole query for a lambda: it can be read exactly when the lambda is supported, and then it
    asks for the selected columns of the rows where the lambda is true, each text standing for the
    column of that name.
  */
  lemma QueryIsExact(fields: seq<string>, typeName: string, e: Expression)
    requires AllNames(fields) && IsWord(typeName) && Readable(e) && e.Binary? && Where(e).Ok?
    ensures QueryFits(ReadQuery(SelectPart(fields, typeName) + ("WHERE " + Clause(Where(e).value))), fields,
                      typeName, e)
  {
    ClauseWords(e);
    QueryWithClause(fields, typeName, Clause(Where(e).value), ClauseTokens(e));
    ReadClause(e);
    if Supported(e) {
      ClauseAgrees(e);
    }
  }

  ghost predicate QueryFits(q: Option<Query>, fields: seq<string>, typeName: string, e: Expression) {
    && (q.Some? <==> Supported(e))
    && (q.Some? ==> q.value.columns == fields && q.value.table == typeName && q.value.condition.Some?
                    && SaysWhatIsMeant(q.value.condition.value, e))
  }

  ghost function IsEqual(name: string, v: Value): Expression {
    Binary(Relation(Equal), Member(name), Constant(v))
  }

  lemma NumeralsOfMain()
    ensures ToText(100) == "100" && ToText(30) == "30"
  {
  }

  lemma ComparisonsOfMain()
    ensures Where(IsEqual("Age", Integer(100))) == Ok("Age=100")
    ensures Where(IsEqual("Name", Text("John"))) == Ok("Name=John")
    ensures Where(IsEqual("Age", Integer(30))) == Ok("Age=30")
  {
    NumeralsOfMain();
    assert "Age" + "=" + "100" == "Age=100" && "Name" + "=" + "John" == "Name=John" && "Age" + "=" + "30" == "Age=30";
  }

  lemma FirstTextOfMain()
    ensures "(" + "Age=100" + ") " + "AND" + " (" + "Name=John" + ")" == "(Age=100) AND (Name=John)"
  {
  }

  lemma SecondTextOfMain()
    ensures "(" + "(Age=100) AND (Name=John)" + ") " + "OR" + " (" + "Age=30" + ")" ==
            "((Age=100) AND (Name=John)) OR (Age=30)"
  {
  }

  /** The text of the program's own query: the name is not quoted. */
  lemma QueryOfMain()
    ensures Where(Binary(OrElse,
                         Binary(AndAlso, IsEqual("Age", Integer(100)), IsEqual("Name", Text("John"))),
                         IsEqual("Age", Integer(30)))) ==
            Ok("((Age=100) AND (Name=John)) OR (Age=30)")
  {
    ComparisonsOfMain();
    FirstTextOfMain();
    SecondTextOfMain();
    var both := Binary(AndAlso, IsEqual("Age", Integer(100)), IsEqual("Name", Text("John")));
    assert Where(both) == Ok("(Age=100) AND (Name=John)");
  }

  lemma BinaryHasText(e: Expression)
    requires e.Binary? && Where(e).Ok?
    ensures Where(e).value != ""
  {
  }

  class DBQueryContext {
    var selectField: seq<string>
    var where_: string
    const typeName: string
    /** The last binary lambda. */
    ghost var lambda: Option<Expression>

    ghost predicate Valid()
      reads this
    {
      match lambda
      case None => where_ == ""
      case Some(e) => e.Binary? && Where(e) == Ok(where_)
    }

    constructor (typeName: string)
      ensures Valid() && this.typeName == typeName && selectField == [] && lambda == None
    {
      this.typeName := typeName;
      selectField, where_, lambda := [], "", None;
    }

    method Select(names: seq<string>)
      requires Valid()
      modifies this`selectField
      ensures Valid() && selectField == old(selectField) + names
    {
      selectField := selectField + names;
    }

    /** A body that is no binary expression is ignored; the last call wins. */
    method SetWhere(body: Expression) returns (ok: bool)
      requires Valid()
      modifies this`where_, this`lambda
      ensures Valid() && (ok <==> body.Binary? ==> Where(body).Ok?)
      ensures lambda == if body.Binary? && ok then Some(body) else old(lambda)
    {
      ok := true;
      if body.Binary? {
        var text := Where(body);
        match text
        case Ok(s) => where_, lambda := s, Some(body);
        case Err => ok := false;
      }
    }

    /** The query reads back as what was selected and what the last lambda means. */
    method BuildQuery() returns (query: string)
      requires Valid()
      ensures AllNames(selectField) && IsWord(typeName) && lambda.None? ==>
                ReadQuery(query) == Some(Query(selectField, typeName, None))
      ensures AllNames(selectField) && IsWord(typeName) && lambda.Some? && Readable(lambda.value) ==>
                QueryFits(ReadQuery(query), selectField, typeName, lambda.value)
      ensures query == SelectPart(selectField, typeName) +
                       (if lambda.None? then "" else "WHERE " + Clause(Where(lambda.value).value))
    {
      if |selectField| > 0 {
        query := "SELECT " + Joined(selectField) + " FROM " + typeName + "\n";
      } else {
        query := "SELECT * FROM " + typeName + "\n";
        assert "SELECT * FROM " == "SELECT " + "*" + " FROM ";
      }
      assert query == SelectPart(selectField, typeName);
      if where_ != "" {
        var clause := "WHERE 1=1 AND " + where_ + " \n";
        ClauseText(where_);
        query := query + clause;
      }
      if AllNames(selectField) && IsWord(typeName) {
        if lambda.None? {
          QueryWithoutClause(selectField, typeName);
        } else {
          BinaryHasText(lambda.value);
          if Readable(lambda.value) {
            QueryIsExact(selectField, typeName, lambda.value);
          }
        }
      }
    }
  }
}
