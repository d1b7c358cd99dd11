/** The condition printer of the query builder against PostgreSQL's placeholder scanner, and
  * the numbering of placeholders. */
module Conditions {
  import opened SqlScanner
  import opened Wrappers

  // ----- the printer ---------------------------------------------------------------------------------

  datatype WhereCondition = WhereCondition(left: string, op: string, right: string, needQuote: bool) {
    function ToSql(): string {
      "(" + left + op + (if needQuote then Quoted(right) else right) + ")"
    }
  }

  function Unquoted(left: string, op: string, right: string): WhereCondition {
    WhereCondition(left, op, right, false)
  }

  /** `escape_sql_string` doubles single quotes. */
  method EscapeSqlString(input: string) returns (result: string)
    ensures result == EscapeChars(input, true)
  {
    result := "";
    for i := 0 to |input|
      invariant result == EscapeChars(input[..i], true)
    {
      EscapeCharsAppend(input[..i], input[i], true);
      assert input[..i + 1] == input[..i] + [input[i]];
      if input[i] == '\'' {
        result := result + ['\'', '\''];
      } else {
        result := result + [input[i]];
      }
    }
    assert input[..|input|] == input;
  }

  function Quoted(s: string): string {
    Escaped(s, true)
  }

  /** A column or, with an empty class name, an aggregate such as `COUNT(*)`. */
  datatype Column = Column(className: string, name: string) {
    function Dotted(): string {
      className + "." + name
    }

    function Qualified(): string {
      if className == "" then name else Dotted()
    }
  }

  datatype Value = Number(text: string) | Text(s: string) {
    function ToText(): string {
      match this
      case Number(text) => text
      case Text(s) => Quoted(s)
    }
  }

  datatype Comparison = Equal | NotEqual | Less | LessEqual | Greater | GreaterEqual {
    function Symbol(): string {
      match this
      case Equal => "="
      case NotEqual => "!="
      case Less => "<"
      case LessEqual => "<="
      case Greater => ">"
      case GreaterEqual => ">="
    }
  }

  /** The text that stands for a parameter. */
  const TOKEN: string := "?  "

  function BuildWhere(c: Column, op: Comparison, v: Value): WhereCondition {
    match v
    case Number(text) => Unquoted(c.Qualified(), op.Symbol(), text)
    case Text(s) => WhereCondition(c.Qualified(), op.Symbol(), s, s != TOKEN)
  }

  function Listed(values: seq<Value>): string {
    if values == [] then "" else values[0].ToText() + "," + Listed(values[1..])
  }

  /** `in` and `not_in` */
  function In(c: Column, negated: bool, values: seq<Value>): WhereCondition {
    var mid := Listed(values);
    if mid == "" then Unquoted("1", "=", if negated then "1" else "0")
    else Unquoted(c.Qualified() + (if negated then " not" else "") + " in(", mid[..|mid| - 1], ")")
  }

  datatype Predicate =
    | Compare(column: Column, op: Comparison, value: Value)
    | Param(column: Column)
    | OneOf(column: Column, negated: bool, values: seq<Value>)
    | Null(column: Column, negated: bool)
    | Between(column: Column, low: Value, high: Value)
    | Like(column: Column, pattern: string)
  {
    function Build(): WhereCondition {
      match this
      case Compare(c, op, v) => BuildWhere(c, op, v)
      case Param(c) => Unquoted(c.Dotted(), " = ", TOKEN)
      case OneOf(c, negated, values) => In(c, negated, values)
      case Null(c, negated) => Unquoted(c.Qualified(), " IS ", if negated then "NOT NULL" else "NULL")
      case Between(c, low, high) => Unquoted(c.Qualified() + " between " + low.ToText(), " and ", high.ToText())
      case Like(c, pattern) => Unquoted(c.Qualified(), " like ", Quoted(pattern))
    }

    /** A parameter: `param()`, or a comparison with exactly the token's text. */
    predicate IsParam() {
      Param? || (Compare? && value == Text(TOKEN))
    }
  }

  datatype Condition = Leaf(test: Predicate) | And(left: Condition, right: Condition)
    | Or(left: Condition, right: Condition)
  {
    function Build(): WhereCondition {
      match this
      case Leaf(p) => p.Build()
      case And(l, r) => Unquoted(l.Build().ToSql(), " AND ", r.Build().ToSql())
      case Or(l, r) => Unquoted(l.Build().ToSql(), " OR ", r.Build().ToSql())
    }

    function Print(): string {
      Build().ToSql()
    }

    function Params(): nat {
      match this
      case Leaf(p) => if p.IsParam() then 1 else 0
      case And(l, r) => l.Params() + r.Params()
      case Or(l, r) => l.Params() + r.Params()
    }
  }

  // ----- what the scanner sees ----------------------------------------------------------------------------

  const D: Dialect := PostgreSql

  predicate ValueOk(v: Value) {
    v.Number? ==> NumberText(v.text)
  }

  /** Names are identifiers or aggregates, numbers are what `std::to_string` prints.  Nothing is
    * asked of strings. */
  predicate PredicateOk(p: Predicate) {
    && Plain(p.column.className, D) && Plain(p.column.name, D)
    && (p.Compare? ==> ValueOk(p.value))
    && (p.Between? ==> ValueOk(p.low) && ValueOk(p.high))
    && (p.OneOf? ==> forall v <- p.values :: ValueOk(v))
  }

  predicate ConditionOk(c: Condition) {
    match c
    case Leaf(p) => PredicateOk(p)
    case And(l, r) => ConditionOk(l) && ConditionOk(r)
    case Or(l, r) => ConditionOk(l) && ConditionOk(r)
  }

  /** `p` before `rest` holds no mark and hides none. */
  ghost predicate Inert(p: string, rest: string) {
    Segments(p + rest, D) == Attach(p, Segments(rest, D))
  }

  lemma AttachTwice(p: string, q: string, pieces: seq<string>)
    requires pieces != []
    ensures Attach(p, Attach(q, pieces)) == Attach(p + q, pieces)
  {
    assert p + (q + pieces[0]) == p + q + pieces[0];
  }

  lemma InertConcat(p: string, q: string, rest: string)
    requires Inert(q, rest) && Inert(p, q + rest)
    ensures Inert(p + q, rest)
  {
    hide Segments;
    assert p + q + rest == p + (q + rest);
    AttachTwice(p, q, Segments(rest, D));
  }

  lemma SkippedIsInert(p: string, rest: string)
    requires FirstMark(p + rest, D) == Shifted(FirstMark(rest, D), |p|)
    ensures Inert(p, rest)
  {
    SkippedIsAttached(p, rest, D);
  }

  lemma AttachNothing(pieces: seq<string>)
    requires pieces != []
    ensures Attach("", pieces) == pieces
  {
    assert "" + pieces[0] == pieces[0];
  }

  lemma LiteralIsInert(s: string, rest: string)
    ensures Inert(Quoted(s), rest)
  {
    hide FirstMark;
    LiteralIsSkipped(s, rest, D);
    SkippedIsInert(Quoted(s), rest);
  }

  lemma {:induction false} PlainIsInert(p: string, rest: string)
    requires Plain(p, D)
    ensures Inert(p, rest)
  {
    if p == [] {
      assert [] + rest == rest;
      AttachNothing(Segments(rest, D));
    } else {
      PlainIsInert(p[1..], rest);
      OneCharIsInert(p[0], p[1..] + rest);
      InertConcat([p[0]], p[1..], rest);
      assert p == [p[0]] + p[1..];
    }
  }

  lemma OneCharIsInert(c: char, rest: string)
    requires PlainChar(c, D) || (c == '-' && rest != [] && rest[0] != '-')
    ensures Inert([c], rest)
  {
    hide FirstMark;
    assert ([c] + rest)[1..] == rest;
    OneCharIsSkipped([c] + rest, D);
    SkippedIsInert([c], rest);
  }

  lemma ValueIsInert(v: Value, rest: string)
    requires ValueOk(v)
    ensures Inert(v.ToText(), rest)
  {
    hide Segments;
    if v.Text? {
      LiteralIsInert(v.s, rest);
    } else {
      var t := v.text;
      PlainIsInert(t[1..], rest);
      OneCharIsInert(t[0], t[1..] + rest);
      InertConcat([t[0]], t[1..], rest);
      assert t == [t[0]] + t[1..];
    }
  }

  /** Plain text, a value, plain text. */
  lemma AroundIsInert(p: string, v: Value, q: string, rest: string)
    requires Plain(p, D) && ValueOk(v) && Plain(q, D)
    ensures Inert(p + v.ToText() + q, rest)
  {
    hide Segments;
    PlainIsInert(q, rest);
    ValueIsInert(v, q + rest);
    InertConcat(v.ToText(), q, rest);
    PlainIsInert(p, v.ToText() + q + rest);
    InertConcat(p, v.ToText() + q, rest);
    assert p + (v.ToText() + q) == p + v.ToText() + q;
  }

  lemma LastCut(p: string, s: string)
    requires s != ""
    ensures (p + s)[..|p + s| - 1] == p + s[..|s| - 1]
  {
  }

  lemma {:induction false} ListIsInert(values: seq<Value>, rest: string)
    requires values != [] && forall v <- values :: ValueOk(v)
    ensures Listed(values) != ""
    ensures var mid := Listed(values); Inert(mid[..|mid| - 1], rest)
  {
    hide ValueOk;
    hide Segments;
    hide Inert;
    hide NumberText;
    var first, mid, later := values[0].ToText(), Listed(values), Listed(values[1..]);
    if |values| == 1 {
      ValueIsInert(values[0], rest);
      assert mid[..|mid| - 1] == first;
    } else {
      ListIsInert(values[1..], rest);
      var tail := later[..|later| - 1];
      AroundIsInert("", values[0], ",", tail + rest);
      assert "" + first + "," == first + ",";
      InertConcat(first + ",", tail, rest);
      LastCut(first + ",", later);
    }
  }

  // ----- main results about conditions ------------------------------------------------------------------

  /** The printed condition cut at its parameters, `k` being the pieces of what follows. */
  function Pieces(c: Condition, k: seq<string>): (pieces: seq<string>)
    requires k != []
    ensures |pieces| == |k| + c.Params()
  {
    match c
    case Leaf(p) => if p.IsParam() then [BeforeMark(p)] + Attach("  )", k) else Attach(p.Build().ToSql(), k)
    case And(l, r) => Attach("(", Pieces(l, Attach(" AND ", Pieces(r, Attach(")", k)))))
    case Or(l, r) => Attach("(", Pieces(l, Attach(" OR ", Pieces(r, Attach(")", k)))))
  }

  /** What a parameter prints before its mark. */
  function BeforeMark(p: Predicate): string
    requires p.IsParam()
  {
    if p.Param? then "(" + p.column.Dotted() + " = " else "(" + p.column.Qualified() + p.op.Symbol()
  }

  lemma CutAtStart(tail: string)
    ensures Segments("?" + tail, D) == [""] + Segments(tail, D)
  {
    hide Segments;
    var s := "?" + tail;
    assert s[..0] == "" && s[0 + 1..] == tail;
    CutAt(s, 0, D);
  }

  /** A mark between plain text and the rest of the token. */
  lemma MarkIsCut(p: string, rest: string)
    requires Plain(p, D)
    ensures Segments(p + TOKEN + ")" + rest, D) == [p] + Attach("  )", Segments(rest, D))
  {
    hide Segments;
    hide FirstMark;
    var tail := "  )" + rest;
    PlainIsInert("  )", rest);
    PlainIsInert(p, "?" + tail);
    CutAtStart(tail);
    TokenText(p, rest);
    AttachToMark(p, Segments(tail, D));
  }

  lemma TokenText(p: string, rest: string)
    ensures p + TOKEN + ")" + rest == p + ("?" + ("  )" + rest))
  {
  }

  lemma AttachToMark(p: string, pieces: seq<string>)
    ensures Attach(p, [""] + pieces) == [p] + pieces
  {
    assert p + "" == p;
  }

  lemma ParamIsCut(left: string, op: string, rest: string)
    requires Plain(left, D) && Plain(op, D)
    ensures Segments(Unquoted(left, op, TOKEN).ToSql() + rest, D)
      == ["(" + left + op] + Attach("  )", Segments(rest, D))
  {
    MarkIsCut("(" + left + op, rest);
  }

  lemma PartsArePlain(p: Predicate)
    requires PredicateOk(p)
    ensures Plain(p.column.Qualified(), D) && Plain(" like ", D)
    ensures p.Compare? ==> Plain(p.op.Symbol(), D)
  {
  }

  lemma NullTestIsPlain(c: Column, negated: bool)
    requires Plain(c.Qualified(), D)
    ensures Plain(Null(c, negated).Build().ToSql(), D)
  {
  }

  lemma PredicateIsInert(p: Predicate, rest: string)
    requires PredicateOk(p) && !p.IsParam()
    ensures Inert(p.Build().ToSql(), rest)
  {
    hide Segments;
    hide Inert;
    PartsArePlain(p);
    hide Plain;
    match p
    case Compare(col, op, v) => ValueLastIsInert(col.Qualified(), op.Symbol(), v, rest);
    case OneOf(col, negated, values) => MembershipIsInert(col, negated, values, rest);
    case Null(col, negated) =>
      NullTestIsPlain(col, negated);
      PlainIsInert(p.Build().ToSql(), rest);
    case Between(col, low, high) => BetweenIsInert(col, low, high, rest);
    case Like(col, pattern) => ValueLastIsInert(col.Qualified(), " like ", Text(pattern), rest);
  }

  lemma ValueLastIsInert(name: string, op: string, v: Value, rest: string)
    requires Plain(name, D) && Plain(op, D) && ValueOk(v)
    ensures Inert("(" + name + op + v.ToText() + ")", rest)
  {
    hide Segments;
    hide Inert;
    AroundIsInert("(" + name + op, v, ")", rest);
  }

  lemma BetweenIsInert(col: Column, low: Value, high: Value, rest: string)
    requires Plain(col.className, D) && Plain(col.name, D) && ValueOk(low) && ValueOk(high)
    ensures Inert(Between(col, low, high).Build().ToSql(), rest)
  {
    hide Segments;
    hide Inert;
    var p, q := "(" + (col.Qualified() + " between "), " and " + high.ToText() + ")";
    AroundIsInert(" and ", high, ")", rest);
    AroundIsInert(p, low, "", q + rest);
    InertConcat(p + low.ToText() + "", q, rest);
    BetweenText(col.Qualified(), low.ToText(), high.ToText());
  }

  lemma BetweenText(name: string, low: string, high: string)
    ensures "(" + (name + " between " + low) + " and " + high + ")"
      == "(" + (name + " between ") + low + "" + (" and " + high + ")")
  {
  }

  lemma MembershipText(col: Column, negated: bool, values: seq<Value>, list: string)
    requires |Listed(values)| > 0 && list == Listed(values)[..|Listed(values)| - 1]
    ensures In(col, negated, values).ToSql()
      == ("(" + (col.Qualified() + (if negated then " not" else "") + " in(")) + (list + "))")
  {
    hide Listed;
    var left := col.Qualified() + (if negated then " not" else "") + " in(";
    assert In(col, negated, values) == Unquoted(left, list, ")");
    assert "(" + left + list + ")" + ")" == ("(" + left) + (list + "))");
  }

  lemma EmptyMembership(col: Column, negated: bool)
    ensures Plain(In(col, negated, []).ToSql(), D)
  {
  }

  lemma MembershipIsInert(col: Column, negated: bool, values: seq<Value>, rest: string)
    requires Plain(col.className, D) && Plain(col.name, D) && forall v <- values :: ValueOk(v)
    ensures Inert(In(col, negated, values).ToSql(), rest)
  {
    hide Segments;
    hide Inert;
    hide In;
    hide Listed;
    if values == [] {
      EmptyMembership(col, negated);
      PlainIsInert(In(col, negated, []).ToSql(), rest);
    } else {
      var mid := Listed(values);
      ListIsInert(values, "))" + rest);
      var list := mid[..|mid| - 1];
      MembershipText(col, negated, values, list);
      BracketedIsInert("(" + (col.Qualified() + (if negated then " not" else "") + " in("), list, rest);
    }
  }

  lemma BracketedIsInert(p: string, list: string, rest: string)
    requires Plain(p, D) && Inert(list, "))" + rest)
    ensures Inert(p + (list + "))"), rest)
  {
    hide Segments;
    hide Inert;
    PlainIsInert("))", rest);
    InertConcat(list, "))", rest);
    PlainIsInert(p, (list + "))") + rest);
    InertConcat(p, list + "))", rest);
  }

  /** For every condition, whatever its strings contain, the marks that the scanner finds in the
    * printed text are exactly the parameters, from left to right. */
  lemma {:induction false} MarksAreParams(c: Condition, rest: string)
    requires ConditionOk(c)
    ensures Segments(c.Print() + rest, D) == Pieces(c, Segments(rest, D))
    decreases c
  {
    hide Segments;
    match c
    case Leaf(p) =>
      if p.Param? {
        ParamIsCut(p.column.Dotted(), " = ", rest);
      } else if p.IsParam() {
        ParamIsCut(p.column.Qualified(), p.op.Symbol(), rest);
      } else {
        PredicateIsInert(p, rest);
      }
    case And(l, r) => JoinedMarks(c, l, " AND ", r, rest);
    case Or(l, r) => JoinedMarks(c, l, " OR ", r, rest);
  }

  lemma {:induction false} JoinedMarks(c: Condition, l: Condition, op: string, r: Condition, rest: string)
    requires ConditionOk(l) && ConditionOk(r) && Plain(op, D) && l < c && r < c
    requires c.Print() == "(" + l.Print() + op + r.Print() + ")"
    ensures Segments(c.Print() + rest, D)
      == Attach("(", Pieces(l, Attach(op, Pieces(r, Attach(")", Segments(rest, D))))))
    decreases c, 0
  {
    hide Segments;
    hide Attach;
    var s1 := ")" + rest;
    var s2 := r.Print() + s1;
    var s3 := op + s2;
    var s4 := l.Print() + s3;
    PlainIsInert(")", rest);
    MarksAreParams(r, s1);
    PlainIsInert(op, s2);
    MarksAreParams(l, s3);
    PlainIsInert("(", s4);
    FourParts(l.Print(), op, r.Print(), rest);
  }

  lemma FourParts(l: string, op: string, r: string, rest: string)
    ensures "(" + l + op + r + ")" + rest == "(" + (l + (op + (r + (")" + rest))))
  {
    assert op + (r + (")" + rest)) == op + r + ")" + rest;
  }

  // ----- numbering -------------------------------------------------------------------------------------------

  /** `std::to_string` of a natural number. */
  function Decimal(n: nat): (s: string)
    ensures s != [] && Plain(s, D)
  {
    var digit := ('0' as int + n % 10) as char;
    if n < 10 then [digit] else Decimal(n / 10) + [digit]
  }

  function DecimalValue(s: string): int {
    if s == [] then 0 else 10 * DecimalValue(s[..|s| - 1]) + (s[|s| - 1] as int - '0' as int)
  }

  lemma {:induction false} DecimalDenotes(n: nat)
    ensures DecimalValue(Decimal(n)) == n
  {
    var s := Decimal(n);
    if n >= 10 {
      DecimalDenotes(n / 10);
      assert s[..|s| - 1] == Decimal(n / 10);
    } else {
      assert s[..0] == [];
    }
  }

  /** $index, $index+1, ... */
  function Dollars(index: nat, n: nat): (values: seq<string>)
    ensures |values| == n
    decreases n
  {
    if n == 0 then [] else ["$" + Decimal(index)] + Dollars(index + 1, n - 1)
  }

  /** The text with its marks numbered from `index`. */
  function Numbered(s: string, index: nat): string {
    var segments := Segments(s, D);
    Interleave(segments, Dollars(index, |segments| - 1))
  }

  lemma NumberedStep(s: string, index: nat)
    ensures var k := FirstMark(s, D);
      Numbered(s, index) == if k.None? then s
        else s[..k.value] + ("$" + Decimal(index)) + Numbered(s[k.value + 1..], index + 1)
  {
    hide FirstMark;
    var k := FirstMark(s, D);
    if k.Some? {
      CutAt(s, k.value, D);
      var later := Segments(s[k.value + 1..], D);
      assert ([s[..k.value]] + later)[1..] == later;
      assert Dollars(index, |later|)[1..] == Dollars(index + 1, |later| - 1);
    }
  }

  /** `replace_postgresql_placeholders` */
  method ReplacePostgresqlPlaceholders(text: string) returns (sql: string)
    ensures sql == Numbered(text, 1)
  {
    hide FirstMark;
    hide Segments;
    hide Numbered;
    hide Decimal;
    sql := text;
    var searchPos: nat := 0;
    var index := 1;
    assert sql[..0] + Numbered(sql[0..], 1) == Numbered(text, 1);
    while true
      invariant searchPos <= |sql| && index >= 1
      invariant sql[..searchPos] + Numbered(sql[searchPos..], index) == Numbered(text, 1)
      decreases |sql| - searchPos
    {
      var pos := FindNextPlaceholder(sql, searchPos, D);
      NumberedStep(sql[searchPos..], index);
      if pos.None? {
        assert sql == sql[..searchPos] + sql[searchPos..];
        break;
      }
      var p := pos.value;
      var replacement := "$" + Decimal(index);
      Replacing(sql, searchPos, p, replacement, Numbered(sql[p + 1..], index + 1));
      index := index + 1;
      sql := sql[..p] + replacement + sql[p + 1..];
      searchPos := p + |replacement|;
    }
  }

  lemma Replacing(sql: string, start: nat, p: nat, value: string, numbered: string)
    requires start <= p < |sql|
    ensures sql[start..][p - start + 1..] == sql[p + 1..]
    ensures var sql' := sql[..p] + value + sql[p + 1..];
      && sql'[p + |value|..] == sql[p + 1..]
      && sql'[..p + |value|] + numbered == sql[..start] + (sql[start..][..p - start] + value + numbered)
  {
    assert sql[..p] == sql[..start] + sql[start..][..p - start];
    var sql' := sql[..p] + value + sql[p + 1..];
    assert sql'[..p + |value|] == sql[..p] + value;
  }

  /** After numbering no mark is left, in any text. */
  lemma {:induction false} NumberedHasNoMark(s: string, index: nat)
    ensures FirstMark(Numbered(s, index), D) == None
    decreases |s|
  {
    hide FirstMark;
    hide Numbered;
    NumberedStep(s, index);
    var k := FirstMark(s, D);
    if k.Some? {
      var before, u, rest := s[..k.value], s[k.value..], Numbered(s[k.value + 1..], index + 1);
      NumberedHasNoMark(s[k.value + 1..], index + 1);
      var dollar := "$" + Decimal(index);
      PlainIsSkipped(dollar, rest, D);
      assert s == before + u;
      ScanPast(before, u, dollar + rest, D);
      assert before + dollar + rest == before + (dollar + rest);
    }
  }

  /** So numbering twice is numbering once. */
  lemma NumberingIsIdempotent(s: string)
    ensures Numbered(Numbered(s, 1), 1) == Numbered(s, 1)
  {
    hide FirstMark;
    NumberedHasNoMark(s, 1);
    NumberedStep(Numbered(s, 1), 1);
  }

  /** A condition is sent with its parameters numbered in reading order and nothing else changed. */
  lemma ConditionNumbered(c: Condition)
    requires ConditionOk(c)
    ensures Numbered(c.Print(), 1) == Interleave(Pieces(c, [""]), Dollars(1, c.Params()))
  {
    hide Segments;
    hide Pieces;
    hide Interleave;
    hide Dollars;
    MarksAreParams(c, "");
    NotCut("", D);
    assert c.Print() + "" == c.Print();
  }
}
