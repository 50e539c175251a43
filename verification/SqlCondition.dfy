/**
  What a search condition of SQL means: comparisons, AND and OR, where AND binds tighter (section
  8.12 of SQL-92). Only the part that the query builder emits is read here.
*/
module SqlCondition {
  import opened Wrappers
  import opened Numerals

  datatype Operator = Equal | Less | LessOrEqual | Greater | GreaterOrEqual

  datatype Value = Integer(n: int) | Text(s: string)

  datatype Operand = Literal(n: int) | Column(name: string)

  datatype Condition =
    | Comparison(left: Operand, op: Operator, right: Operand)
    | And(a: Condition, b: Condition)
    | Or(a: Condition, b: Condition)

  type Row = map<string, Value>

  /** Numbers are ordered; texts are only compared for equality. */
  ghost predicate Compare(op: Operator, x: Value, y: Value) {
    match (x, y)
    case (Integer(m), Integer(n)) =>
      (match op
       case Equal => m == n
       case Less => m < n
       case LessOrEqual => m <= n
       case Greater => m > n
       case GreaterOrEqual => m >= n)
    case (Text(s), Text(t)) => op == Equal && s == t
    case _ => false
  }

  ghost function ValueOf(operand: Operand, row: Row): Option<Value> {
    match operand
    case Literal(n) => Some(Integer(n))
    case Column(name) => if name in row then Some(row[name]) else None
  }

  /** A condition on an unknown column is not true. */
  ghost predicate Holds(c: Condition, row: Row) {
    match c
    case Comparison(l, op, r) =>
      var x, y := ValueOf(l, row), ValueOf(r, row);
      x.Some? && y.Some? && Compare(op, x.value, y.value)
    case And(a, b) => Holds(a, row) && Holds(b, row)
    case Or(a, b) => Holds(a, row) || Holds(b, row)
  }

  // ---------------------------------------------------------------- words

  ghost predicate IsSpace(c: char) {
    c == ' ' || c == '\n' || c == '\r'
  }

  ghost predicate IsParen(c: char) {
    c == '(' || c == ')'
  }

  ghost predicate IsRelation(c: char) {
    c == '=' || c == '<' || c == '>'
  }

  /** A run of characters that are neither spaces nor parentheses. */
  ghost predicate IsWord(w: string) {
    w != "" && forall c :: c in w ==> !IsSpace(c) && !IsParen(c)
  }

  ghost function Flushed(word: string): seq<string> {
    if word == "" then [] else [word]
  }

  /** The words and the parentheses of a text, of which a part of a word has been read. */
  ghost function Words(s: string, word: string): seq<string>
    decreases |s|
  {
    if s == "" then Flushed(word)
    else if IsSpace(s[0]) then Flushed(word) + Words(s[1..], "")
    else if IsParen(s[0]) then Flushed(word) + [[s[0]]] + Words(s[1..], "")
    else Words(s[1..], word + [s[0]])
  }

  lemma {:induction false} WordsOfWord(w: string, s: string, word: string)
    requires forall c :: c in w ==> !IsSpace(c) && !IsParen(c)
    ensures Words(w + s, word) == Words(s, word + w)
    decreases |w|
  {
    if w == "" {
      assert w + s == s && word + w == word;
    } else {
      assert (w + s)[0] == w[0] && (w + s)[1..] == w[1..] + s;
      WordsOfWord(w[1..], s, word + [w[0]]);
      assert word + [w[0]] + w[1..] == word + w;
    }
  }

  /** A word ends at a space, at a parenthesis, or at the end of the text. */
  lemma WholeWord(w: string, s: string)
    requires IsWord(w) && (s == "" || IsSpace(s[0]) || IsParen(s[0]))
    ensures Words(w + s, "") == [w] + Words(s, "")
  {
    WordsOfWord(w, s, "");
    assert "" + w == w;
  }

  // ---------------------------------------------------------------- comparisons

  ghost predicate IsName(s: string) {
    && s != "" && s[0] != '-' && !IsNumber(s[0])
    && forall c :: c in s ==> !IsSpace(c) && !IsParen(c) && !IsRelation(c) && c != ',' && c != '*'
  }

  ghost function ReadOperand(s: string): Option<Operand> {
    if Parse(s).Ok? then Some(Literal(Parse(s).value))
    else if IsName(s) then Some(Column(s))
    else None
  }

  /** The length of the text before the first relation sign. */
  ghost function RelationAt(s: string): (k: nat)
    ensures k <= |s|
  {
    if s == "" || IsRelation(s[0]) then 0 else 1 + RelationAt(s[1..])
  }

  ghost function ReadOperator(s: string): Option<(Operator, string)> {
    if s == "" then None
    else if |s| >= 2 && s[0] == '<' && s[1] == '=' then Some((LessOrEqual, s[2..]))
    else if |s| >= 2 && s[0] == '>' && s[1] == '=' then Some((GreaterOrEqual, s[2..]))
    else if s[0] == '=' then Some((Equal, s[1..]))
    else if s[0] == '<' then Some((Less, s[1..]))
    else if s[0] == '>' then Some((Greater, s[1..]))
    else None
  }

  ghost function ReadComparison(w: string): Option<Condition> {
    var k := RelationAt(w);
    match (ReadOperand(w[..k]), ReadOperator(w[k..]))
    case (Some(l), Some((op, rest))) =>
      (match ReadOperand(rest)
       case Some(r) => Some(Comparison(l, op, r))
       case None => None)
    case _ => None
  }

  ghost function OperatorText(op: Operator): string {
    match op
    case Equal => "="
    case Less => "<"
    case LessOrEqual => "<="
    case Greater => ">"
    case GreaterOrEqual => ">="
  }

  lemma {:induction false} RelationAfter(l: string, s: string)
    requires (forall c :: c in l ==> !IsRelation(c)) && s != "" && IsRelation(s[0])
    ensures RelationAt(l + s) == |l|
    decreases |l|
  {
    if l == "" {
      assert l + s == s;
    } else {
      assert (l + s)[0] == l[0] && (l + s)[1..] == l[1..] + s;
      RelationAfter(l[1..], s);
    }
  }

  lemma OperatorRead(op: Operator, r: string)
    requires r != "" && r[0] != '='
    ensures ReadOperator(OperatorText(op) + r) == Some((op, r))
  {
    var s := OperatorText(op) + r;
    if op == LessOrEqual || op == GreaterOrEqual {
      assert s[0] == OperatorText(op)[0] && s[1] == '=' && s[2..] == r;
    } else {
      assert s[0] == OperatorText(op)[0] && s[1] == r[0] && s[1..] == r;
    }
  }

  /** A comparison that was written is read back. */
  lemma ComparisonRead(l: string, op: Operator, r: string)
    requires (forall c :: c in l ==> !IsRelation(c)) && r != "" && r[0] != '='
    requires ReadOperand(l).Some? && ReadOperand(r).Some?
    ensures ReadComparison(l + OperatorText(op) + r) ==
            Some(Comparison(ReadOperand(l).value, op, ReadOperand(r).value))
  {
    var w, s := l + OperatorText(op) + r, OperatorText(op) + r;
    assert w == l + s && s[0] == OperatorText(op)[0];
    RelationAfter(l, s);
    assert w[..|l|] == l && w[|l|..] == s;
    OperatorRead(op, r);
  }

  // ---------------------------------------------------------------- conditions

  type Parsed = Option<(Condition, seq<string>)>

  ghost predicate Begins(ts: seq<string>, t: string) {
    ts != [] && ts[0] == t
  }

  /** A condition is one term, or several joined by OR. */
  ghost function ParseCondition(ts: seq<string>): (r: Parsed)
    ensures r.Some? ==> |r.value.1| < |ts|
    decreases |ts|, 2
  {
    match ParseTerm(ts)
    case None => None
    case Some((a, rest)) =>
      if Begins(rest, "OR") then
        match ParseCondition(rest[1..])
        case Some((b, rest')) => Some((Or(a, b), rest'))
        case None => None
      else Some((a, rest))
  }

  /** A term is one factor, or several joined by AND. */
  ghost function ParseTerm(ts: seq<string>): (r: Parsed)
    ensures r.Some? ==> |r.value.1| < |ts|
    decreases |ts|, 1
  {
    match ParseFactor(ts)
    case None => None
    case Some((a, rest)) =>
      if Begins(rest, "AND") then
        match ParseTerm(rest[1..])
        case Some((b, rest')) => Some((And(a, b), rest'))
        case None => None
      else Some((a, rest))
  }

  /** A factor is a comparison, or a condition in parentheses. */
  ghost function ParseFactor(ts: seq<string>): (r: Parsed)
    ensures r.Some? ==> |r.value.1| < |ts|
    decreases |ts|, 0
  {
    if ts == [] then None
    else if ts[0] == "(" then
      match ParseCondition(ts[1..])
      case Some((a, rest)) => if Begins(rest, ")") then Some((a, rest[1..])) else None
      case None => None
    else
      match ReadComparison(ts[0])
      case Some(c) => Some((c, ts[1..]))
      case None => None
  }

  /** The whole text is one condition. */
  ghost function ParseText(s: string): Option<Condition> {
    match ParseCondition(Words(s, ""))
    case Some((c, rest)) => if rest == [] then Some(c) else None
    case None => None
  }

  // ---------------------------------------------------------------- queries

  /** No columns stand for all of them. */
  datatype Query = Query(columns: seq<string>, table: string, condition: Option<Condition>)

  /** The parts between commas, of which the first one has been begun. */
  ghost function SplitAtCommas(s: string, part: string): seq<string>
    decreases |s|
  {
    if s == "" then [part]
    else if s[0] == ',' then [part] + SplitAtCommas(s[1..], "")
    else SplitAtCommas(s[1..], part + [s[0]])
  }

  ghost function ReadColumns(word: string): seq<string> {
    if word == "*" then [] else SplitAtCommas(word, "")
  }

  ghost function ReadQuery(text: string): Option<Query> {
    var ws := Words(text, "");
    if |ws| < 4 || ws[0] != "SELECT" || ws[2] != "FROM" then None
    else if |ws| == 4 then Some(Query(ReadColumns(ws[1]), ws[3], None))
    else if ws[4] != "WHERE" then None
    else
      match ParseCondition(ws[5..])
      case Some((c, rest)) => if rest == [] then Some(Query(ReadColumns(ws[1]), ws[3], Some(c))) else None
      case None => None
  }

  lemma {:induction false} SplitOne(name: string, s: string, part: string)
    requires ',' !in name
    ensures SplitAtCommas(name + s, part) == SplitAtCommas(s, part + name)
    decreases |name|
  {
    if name == "" {
      assert name + s == s && part + name == part;
    } else {
      assert (name + s)[0] == name[0] && (name + s)[1..] == name[1..] + s;
      SplitOne(name[1..], s, part + [name[0]]);
      assert part + [name[0]] + name[1..] == part + name;
    }
  }
}
