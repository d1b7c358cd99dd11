/** What a printed condition says.  A reader of SQL conditions, with its own table of operators and
  * keywords, gets back from the text what the condition was built to say. */
module ConditionReader {
  import opened Wrappers
  import opened SqlScanner
  import opened Conditions

  // ----- what a condition says -------------------------------------------------------------------

  datatype Operand = Hole | Num(text: string) | Str(s: string)

  datatype Sentence =
    | Cmp(name: string, op: Comparison, operand: Operand)
    | Member(name: string, negated: bool, list: seq<Operand>)
    | IsNull(name: string, negated: bool)
    | Range(name: string, low: Operand, high: Operand)
    | Matches(name: string, pattern: string)
    | Both(left: Sentence, right: Sentence)
    | Either(left: Sentence, right: Sentence)

  function DottedName(c: Column): string {
    c.className + "." + c.name
  }

  function NameOf(c: Column): string {
    if c.className == "" then c.name else DottedName(c)
  }

  function OperandOf(v: Value): Operand {
    match v
    case Number(text) => Num(text)
    case Text(s) => Str(s)
  }

  function OperandsOf(values: seq<Value>): seq<Operand> {
    if values == [] then [] else [OperandOf(values[0])] + OperandsOf(values[1..])
  }

  /** Membership in an empty list is never true, and its negation always: 1=0 and 1=1. */
  function Meaning(c: Condition): Sentence {
    match c
    case Leaf(Compare(col, op, v)) => Cmp(NameOf(col), op, if v == Text("?  ") then Hole else OperandOf(v))
    case Leaf(Param(col)) => Cmp(DottedName(col), Equal, Hole)
    case Leaf(OneOf(col, negated, values)) =>
      if values == [] then Cmp("1", Equal, Num(if negated then "1" else "0"))
      else Member(NameOf(col), negated, OperandsOf(values))
    case Leaf(Null(col, negated)) => IsNull(NameOf(col), negated)
    case Leaf(Between(col, low, high)) => Range(NameOf(col), OperandOf(low), OperandOf(high))
    case Leaf(Like(col, pattern)) => Matches(NameOf(col), pattern)
    case And(l, r) => Both(Meaning(l), Meaning(r))
    case Or(l, r) => Either(Meaning(l), Meaning(r))
  }

  // ----- the reader ------------------------------------------------------------------------------

  type Read<T> = Option<(T, string)>

  /** Behind an opening quote: the string, its doubled quotes made single. */
  function Unquote(s: string): (r: Read<string>)
    ensures r.Some? ==> |r.value.1| < |s|
    decreases |s|
  {
    if s == "" then None
    else if s[0] != '\'' then
      var later := Unquote(s[1..]);
      if later.None? then None else Some(([s[0]] + later.value.0, later.value.1))
    else if |s| > 1 && s[1] == '\'' then
      var later := Unquote(s[2..]);
      if later.None? then None else Some((['\''] + later.value.0, later.value.1))
    else Some(("", s[1..]))
  }

  predicate IsNumeric(c: char) {
    '0' <= c <= '9' || 'a' <= c <= 'z' || 'A' <= c <= 'Z' || c == '.' || c == '-'
  }

  function NumericLength(s: string): (n: nat)
    ensures n <= |s|
  {
    if s == "" || !IsNumeric(s[0]) then 0 else 1 + NumericLength(s[1..])
  }

  function ReadOperand(s: string): (r: Read<Operand>)
    ensures r.Some? ==> |r.value.1| < |s|
  {
    if BeginsWith(s, '\'') then
      var text := Unquote(s[1..]);
      if text.None? then None else Some((Str(text.value.0), text.value.1))
    else if BeginsWith(s, '?') then if |s| > 2 && s[1] == s[2] == ' ' then Some((Hole, s[3..])) else None
    else
      var n := NumericLength(s);
      if n == 0 then None else Some((Num(s[..n]), s[n..]))
  }

  function ReadList(s: string): (r: Read<seq<Operand>>)
    ensures r.Some? ==> |r.value.1| < |s|
    decreases |s|
  {
    var first := ReadOperand(s);
    if first.None? then None
    else if BeginsWith(first.value.1, ',') then
      var others := ReadList(first.value.1[1..]);
      if others.None? then None else Some(([first.value.0] + others.value.0, others.value.1))
    else Some(([first.value.0], first.value.1))
  }

  predicate EndsName(c: char) {
    c == ' ' || c == '=' || c == '!' || c == '<' || c == '>'
  }

  function NameLength(s: string): (n: nat)
    ensures n <= |s|
  {
    if s == "" || EndsName(s[0]) then 0 else 1 + NameLength(s[1..])
  }

  /** The comparison operators of SQL. */
  function ReadComparison(s: string): (r: Read<Comparison>)
    ensures r.Some? ==> |r.value.1| < |s|
  {
    if |s| < 2 then None
    else
      match s[0]
      case '=' => Some((Equal, s[1..]))
      case '!' => if s[1] == '=' then Some((NotEqual, s[2..])) else None
      case '<' => if s[1] == '=' then Some((LessEqual, s[2..])) else Some((Less, s[1..]))
      case '>' => if s[1] == '=' then Some((GreaterEqual, s[2..])) else Some((Greater, s[1..]))
      case _ => None
  }

  function Behind(word: string, s: string): (r: Option<string>)
    ensures r.Some? ==> |r.value| == |s| - |word|
  {
    if word <= s then Some(s[|word|..]) else None
  }

  /** What follows the name in a condition without AND and OR. */
  function ReadTest(name: string, s: string): (r: Read<Sentence>)
    ensures r.Some? ==> |r.value.1| < |s|
  {
    if |s| < 6 || s[0] != ' ' then ReadCompared(name, ReadComparison(s))
    else
      match s[1]
      case 'I' => ReadNull(name, s)
      case 'i' => ReadMember(name, false, Behind(" in(", s))
      case 'n' => ReadMember(name, true, Behind(" not in(", s))
      case 'b' => ReadRange(name, Behind(" between ", s))
      case 'l' => ReadPattern(name, Behind(" like '", s))
      case '=' => if s[2] == ' ' then ReadCompared(name, Some((Equal, s[3..]))) else None
      case _ => None
  }

  function ReadCompared(name: string, op: Read<Comparison>): (r: Read<Sentence>)
    ensures r.Some? ==> op.Some? && |r.value.1| < |op.value.1|
  {
    if op.None? then None
    else
      var operand := ReadOperand(op.value.1);
      if operand.None? then None else Some((Cmp(name, op.value.0, operand.value.0), operand.value.1))
  }

  function ReadNull(name: string, s: string): (r: Read<Sentence>)
    requires |s| >= 6
    ensures r.Some? ==> |r.value.1| < |s|
  {
    var negated := s[5] == 'O';
    var rest := Behind(if negated then " IS NOT NULL" else " IS NULL", s);
    if rest.None? then None else Some((IsNull(name, negated), rest.value))
  }

  function ReadPattern(name: string, s: Option<string>): (r: Read<Sentence>)
    ensures r.Some? ==> s.Some? && |r.value.1| < |s.value|
  {
    if s.None? then None
    else
      var pattern := Unquote(s.value);
      if pattern.None? then None else Some((Matches(name, pattern.value.0), pattern.value.1))
  }

  function ReadMember(name: string, negated: bool, s: Option<string>): (r: Read<Sentence>)
    ensures r.Some? ==> s.Some? && |r.value.1| < |s.value|
  {
    if s.None? then None
    else
      var list := ReadList(s.value);
      if list.None? || !BeginsWith(list.value.1, ')') then None
      else Some((Member(name, negated, list.value.0), list.value.1[1..]))
  }

  function ReadRange(name: string, s: Option<string>): (r: Read<Sentence>)
    ensures r.Some? ==> s.Some? && |r.value.1| < |s.value|
  {
    if s.None? then None
    else
      var low := ReadOperand(s.value);
      if low.None? then None
      else
        var rest := Behind(" and ", low.value.1);
        if rest.None? then None
        else
          var high := ReadOperand(rest.value);
          if high.None? then None else Some((Range(name, low.value.0, high.value.0), high.value.1))
  }

  predicate BeginsWith(s: string, c: char) {
    s != "" && s[0] == c
  }

  function ReadCondition(s: string): (r: Read<Sentence>)
    ensures r.Some? ==> |r.value.1| < |s|
    decreases |s|, 1
  {
    if !BeginsWith(s, '(') then None
    else
      var n := NameLength(s[1..]);
      var inner := if BeginsWith(s[1..], '(') then ReadJoined(s[1..]) else ReadTest(s[1..][..n], s[1..][n..]);
      if inner.None? || !BeginsWith(inner.value.1, ')') then None else Some((inner.value.0, inner.value.1[1..]))
  }

  function ReadJoined(s: string): (r: Read<Sentence>)
    ensures r.Some? ==> |r.value.1| < |s|
    decreases |s|, 2
  {
    var left := ReadCondition(s);
    if left.None? || |left.value.1| < 2 then None
    else
      var both := left.value.1[1] == 'A';
      var rest := Behind(if both then " AND " else " OR ", left.value.1);
      if rest.None? then None
      else
        var right := ReadCondition(rest.value);
        if right.None? then None
        else
          var l, r := left.value.0, right.value.0;
          Some((if both then Both(l, r) else Either(l, r), right.value.1))
  }

  // ----- which conditions ------------------------------------------------------------------------

  /** Names begin with something else than a bracket and contain neither blanks nor operators. */
  predicate NameOk(name: string) {
    name != "" && name[0] != '(' && forall i | 0 <= i < |name| :: !EndsName(name[i])
  }

  /** Numbers are printed with a decimal point, not with a comma. */
  predicate Readable(v: Value) {
    v.Number? ==> NumberText(v.text) && forall i | 0 <= i < |v.text| :: v.text[i] != ','
  }

  predicate PredicateReadable(p: Predicate) {
    && NameOk(NameOf(p.column)) && (p.Param? ==> NameOk(DottedName(p.column)))
    && (p.Compare? ==> Readable(p.value))
    && (p.Between? ==> Readable(p.low) && Readable(p.high))
    && (p.OneOf? ==> forall v <- p.values :: Readable(v))
  }

  predicate ConditionReadable(c: Condition) {
    match c
    case Leaf(p) => PredicateReadable(p)
    case And(l, r) => ConditionReadable(l) && ConditionReadable(r)
    case Or(l, r) => ConditionReadable(l) && ConditionReadable(r)
  }

  // ----- the parts -------------------------------------------------------------------------------

  lemma BeginsAhead(word: string, rest: string)
    ensures Behind(word, word + rest) == Some(rest)
  {
  }

  lemma {:induction false} EscapedIsUnquoted(s: string, rest: string)
    requires rest != "" && rest[0] != '\''
    ensures Unquote(EscapeChars(s, true) + "'" + rest) == Some((s, rest))
  {
    var text := EscapeChars(s, true) + "'" + rest;
    if s == "" {
      assert text == "'" + rest;
    } else {
      var later := EscapeChars(s[1..], true) + "'" + rest;
      assert text == EscapeChar(s[0], true) + later;
      EscapedIsUnquoted(s[1..], rest);
      assert text[|EscapeChar(s[0], true)|..] == later;
      assert s == [s[0]] + s[1..];
    }
  }

  lemma {:induction false} NumericRun(text: string, rest: string)
    requires forall i | 0 <= i < |text| :: IsNumeric(text[i])
    requires rest != "" && !IsNumeric(rest[0])
    ensures NumericLength(text + rest) == |text|
  {
    if text == "" {
      assert text + rest == rest;
    } else {
      assert (text + rest)[1..] == text[1..] + rest;
      NumericRun(text[1..], rest);
    }
  }

  lemma {:induction false} NameRun(name: string, rest: string)
    requires forall i | 0 <= i < |name| :: !EndsName(name[i])
    requires rest != "" && EndsName(rest[0])
    ensures NameLength(name + rest) == |name|
  {
    if name == "" {
      assert name + rest == rest;
    } else {
      assert (name + rest)[1..] == name[1..] + rest;
      NameRun(name[1..], rest);
    }
  }

  /** What may follow an operand. */
  predicate Separated(rest: string) {
    rest != "" && !IsNumeric(rest[0]) && rest[0] != '\''
  }

  lemma NumberIsRead(text: string, rest: string)
    requires Readable(Number(text)) && Separated(rest)
    ensures ReadOperand(text + rest) == Some((Num(text), rest))
  {
    hide Unquote;
    hide NumericLength;
    NumericRun(text, rest);
    assert (text + rest)[0] == text[0];
    assert (text + rest)[..|text|] == text && (text + rest)[|text|..] == rest;
  }

  lemma StringIsRead(s: string, rest: string)
    requires Separated(rest)
    ensures ReadOperand(Quoted(s) + rest) == Some((Str(s), rest))
  {
    hide Unquote;
    hide NumericLength;
    hide EscapeChars;
    EscapedIsUnquoted(s, rest);
    assert (Quoted(s) + rest)[1..] == EscapeChars(s, true) + "'" + rest;
  }

  lemma OperandIsRead(v: Value, rest: string)
    requires Readable(v) && Separated(rest)
    ensures ReadOperand(v.ToText() + rest) == Some((OperandOf(v), rest))
  {
    hide ReadOperand;
    hide Quoted;
    match v
    case Number(text) => NumberIsRead(text, rest);
    case Text(s) => StringIsRead(s, rest);
  }

  lemma HoleIsRead(rest: string)
    ensures ReadOperand("?  " + rest) == Some((Hole, rest))
  {
    assert ("?  " + rest)[3..] == rest;
  }

  lemma ListEnds(s: string, operand: Operand, rest: string)
    requires ReadOperand(s) == Some((operand, ")" + rest))
    ensures ReadList(s) == Some(([operand], ")" + rest))
  {
    hide ReadOperand;
  }

  lemma ListGoesOn(s: string, operand: Operand, tail: string, operands: seq<Operand>, close: string)
    requires ReadOperand(s) == Some((operand, "," + tail)) && ReadList(tail) == Some((operands, close))
    ensures ReadList(s) == Some(([operand] + operands, close))
  {
    hide ReadOperand;
    assert ("," + tail)[1..] == tail;
  }

  lemma ListedFirst(values: seq<Value>)
    requires values != []
    ensures Listed(values) == values[0].ToText() + "," + Listed(values[1..]) && Listed(values) != ""
    ensures OperandsOf(values) == [OperandOf(values[0])] + OperandsOf(values[1..])
  {
  }

  lemma OneListed(value: Value)
    ensures var mid := Listed([value]); mid != "" && mid[..|mid| - 1] == value.ToText()
    ensures OperandsOf([value]) == [OperandOf(value)]
  {
    hide Value.ToText;
    ListedFirst([value]);
    assert [value][1..] == [];
  }

  lemma {:induction false} ListIsRead(values: seq<Value>, rest: string)
    requires values != [] && forall v <- values :: Readable(v)
    ensures Listed(values) != ""
    ensures var mid := Listed(values);
      ReadList(mid[..|mid| - 1] + (")" + rest)) == Some((OperandsOf(values), ")" + rest))
  {
    hide ReadOperand;
    hide ReadList;
    hide Value.ToText;
    hide Readable;
    hide OperandOf;
    hide Listed;
    hide OperandsOf;
    var close := ")" + rest;
    ListedFirst(values);
    if |values| == 1 {
      assert values == [values[0]];
      OneListed(values[0]);
      OperandIsRead(values[0], close);
      ListEnds(values[0].ToText() + close, OperandOf(values[0]), rest);
    } else {
      ListIsRead(values[1..], rest);
      LongerListIsRead(values[0].ToText(), Listed(values[1..]), values[0], OperandsOf(values[1..]), close);
    }
  }

  lemma LongerListIsRead(first: string, later: string, value: Value, operands: seq<Operand>, close: string)
    requires first == value.ToText() && Readable(value) && later != "" && close != ""
    requires ReadList(later[..|later| - 1] + close) == Some((operands, close))
    ensures var mid := first + "," + later;
      ReadList(mid[..|mid| - 1] + close) == Some(([OperandOf(value)] + operands, close))
  {
    hide ReadOperand;
    hide ReadList;
    hide Value.ToText;
    hide Readable;
    hide OperandOf;
    var tail := later[..|later| - 1] + close;
    OperandIsRead(value, "," + tail);
    LastCut(first + ",", later);
    var mid := first + "," + later;
    assert mid[..|mid| - 1] + close == first + ("," + tail);
    ListGoesOn(first + ("," + tail), OperandOf(value), tail, operands, close);
  }

  lemma ComparisonIsRead(op: Comparison, rest: string)
    requires rest != "" && rest[0] != '='
    ensures ReadComparison(op.Symbol() + rest) == Some((op, rest))
  {
    assert (op.Symbol() + rest)[|op.Symbol()|..] == rest;
  }

  // ----- tests -----------------------------------------------------------------------------------

  /** A test behind its name, up to the closing bracket. */
  ghost predicate SaysTest(name: string, text: string, rest: string, meaning: Sentence) {
    ReadTest(name, text + (")" + rest)) == Some((meaning, ")" + rest))
  }

  lemma ValueTest(name: string, op: Comparison, v: Value, rest: string)
    requires Readable(v)
    ensures SaysTest(name, op.Symbol() + v.ToText(), rest, Cmp(name, op, OperandOf(v)))
  {
    hide ReadComparison;
    hide ReadOperand;
    var close := ")" + rest;
    ComparisonIsRead(op, v.ToText() + close);
    OperandIsRead(v, close);
    assert op.Symbol() + v.ToText() + close == op.Symbol() + (v.ToText() + close);
  }

  lemma HoleTest(name: string, op: Comparison, rest: string)
    ensures SaysTest(name, op.Symbol() + "?  ", rest, Cmp(name, op, Hole))
    ensures SaysTest(name, " = ?  ", rest, Cmp(name, Equal, Hole))
  {
    hide ReadOperand;
    var close := ")" + rest;
    HoleIsRead(close);
    ComparisonIsRead(op, "?  " + close);
    assert op.Symbol() + "?  " + close == op.Symbol() + ("?  " + close);
    assert " = ?  " + close == " = " + ("?  " + close);
    assert (" = " + ("?  " + close))[3..] == "?  " + close;
  }

  lemma MemberTest(name: string, negated: bool, values: seq<Value>, rest: string)
    requires values != [] && forall v <- values :: Readable(v)
    ensures Listed(values) != ""
    ensures var mid := Listed(values);
      SaysTest(name, (if negated then " not" else "") + " in(" + mid[..|mid| - 1] + ")", rest,
               Member(name, negated, OperandsOf(values)))
  {
    hide ReadList;
    var close := ")" + rest;
    ListIsRead(values, close);
    var mid := Listed(values);
    var list := mid[..|mid| - 1];
    var word := (if negated then " not" else "") + " in(";
    assert word + list + ")" + close == word + (list + (")" + close));
    BeginsAhead(word, list + (")" + close));
    assert (")" + close)[1..] == close;
    assert (word + (list + (")" + close)))[1] == if negated then 'n' else 'i';
  }

  lemma RangeTest(name: string, low: Value, high: Value, rest: string)
    requires Readable(low) && Readable(high)
    ensures SaysTest(name, " between " + low.ToText() + " and " + high.ToText(), rest,
                     Range(name, OperandOf(low), OperandOf(high)))
  {
    hide ReadOperand;
    var close := ")" + rest;
    var tail := high.ToText() + close;
    OperandIsRead(high, close);
    OperandIsRead(low, " and " + tail);
    BeginsAhead(" and ", tail);
    BeginsAhead(" between ", low.ToText() + (" and " + tail));
    assert " between " + low.ToText() + " and " + high.ToText() + close
      == " between " + (low.ToText() + (" and " + tail));
  }

  lemma LikeTest(name: string, pattern: string, rest: string)
    ensures SaysTest(name, " like " + Quoted(pattern), rest, Matches(name, pattern))
  {
    var close := ")" + rest;
    EscapedIsUnquoted(pattern, close);
    var tail := EscapeChars(pattern, true) + "'" + close;
    assert " like " + Quoted(pattern) + close == " like '" + tail;
    BeginsAhead(" like '", tail);
  }

  lemma NullTest(name: string, negated: bool, rest: string)
    ensures SaysTest(name, " IS " + (if negated then "NOT NULL" else "NULL"), rest, IsNull(name, negated))
  {
    var word := if negated then " IS NOT NULL" else " IS NULL";
    assert " IS " + (if negated then "NOT NULL" else "NULL") == word;
    BeginsAhead(word, ")" + rest);
  }

  /** A test in its brackets. */
  lemma BracketedTest(name: string, text: string, rest: string, meaning: Sentence)
    requires NameOk(name) && text != "" && EndsName(text[0]) && SaysTest(name, text, rest, meaning)
    ensures ReadCondition("(" + name + text + ")" + rest) == Some((meaning, rest))
  {
    hide ReadTest;
    var close := ")" + rest;
    var s := "(" + name + text + ")" + rest;
    assert s[1..] == name + (text + close);
    NameRun(name, text + close);
    assert s[1..][..|name|] == name && s[1..][|name|..] == text + close;
    assert s[1..][0] == name[0];
    assert close[1..] == rest;
  }

  lemma SymbolEndsName(op: Comparison)
    ensures op.Symbol() != "" && EndsName(op.Symbol()[0])
  {
  }

  /** The text of a leaf, its name and its test. */
  ghost predicate SaysLeaf(p: Predicate, name: string, text: string, rest: string) {
    && NameOk(name) && text != "" && EndsName(text[0])
    && Leaf(p).Print() == "(" + name + text + ")" && SaysTest(name, text, rest, Meaning(Leaf(p)))
  }

  lemma LeafFromTest(p: Predicate, name: string, text: string, rest: string)
    requires SaysLeaf(p, name, text, rest)
    ensures ReadCondition(Leaf(p).Print() + rest) == Some((Meaning(Leaf(p)), rest))
  {
    hide Condition.Print;
    hide Meaning;
    BracketedTest(name, text, rest, Meaning(Leaf(p)));
  }

  lemma EmptyListIsRead(col: Column, negated: bool, rest: string)
    ensures var digit := if negated then "1" else "0"; SaysLeaf(OneOf(col, negated, []), "1", "=" + digit, rest)
  {
    var digit := if negated then "1" else "0";
    ValueTest("1", Equal, Number(digit), rest);
    assert Leaf(OneOf(col, negated, [])).Print() == "(" + "1" + ("=" + digit) + ")";
  }

  lemma MemberText(col: Column, negated: bool, values: seq<Value>, list: string)
    requires |Listed(values)| > 0 && list == Listed(values)[..|Listed(values)| - 1]
    ensures Leaf(OneOf(col, negated, values)).Print()
      == "(" + NameOf(col) + ((if negated then " not" else "") + " in(" + list + ")") + ")"
  {
    hide Listed;
    var left := NameOf(col) + (if negated then " not" else "") + " in(";
    assert In(col, negated, values) == Unquoted(left, list, ")");
    assert "(" + left + list + ")" + ")"
      == "(" + NameOf(col) + ((if negated then " not" else "") + " in(" + list + ")") + ")";
  }

  lemma MemberIsRead(col: Column, negated: bool, values: seq<Value>, rest: string)
    requires NameOk(NameOf(col)) && values != [] && forall v <- values :: Readable(v)
    ensures ReadCondition(Leaf(OneOf(col, negated, values)).Print() + rest)
      == Some((Meaning(Leaf(OneOf(col, negated, values))), rest))
  {
    hide ReadCondition;
    hide SaysTest;
    hide Condition.Print;
    hide Listed;
    var name, mid := NameOf(col), Listed(values);
    MemberTest(name, negated, values, rest);
    var list := mid[..|mid| - 1];
    MemberText(col, negated, values, list);
    LeafFromTest(OneOf(col, negated, values), name, (if negated then " not" else "") + " in(" + list + ")", rest);
  }

  lemma CompareHoleIsRead(col: Column, op: Comparison, rest: string)
    requires NameOk(NameOf(col))
    ensures SaysLeaf(Compare(col, op, Text("?  ")), NameOf(col), op.Symbol() + "?  ", rest)
  {
    hide SaysTest;
    hide Comparison.Symbol;
    SymbolEndsName(op);
    HoleTest(NameOf(col), op, rest);
    var name, p := NameOf(col), Compare(col, op, Text("?  "));
    assert Leaf(p).Print() == "(" + name + (op.Symbol() + "?  ") + ")";
  }

  lemma CompareIsRead(col: Column, op: Comparison, v: Value, rest: string)
    requires NameOk(NameOf(col)) && Readable(v) && v != Text("?  ")
    ensures SaysLeaf(Compare(col, op, v), NameOf(col), op.Symbol() + v.ToText(), rest)
  {
    hide SaysTest;
    hide Comparison.Symbol;
    hide Readable;
    SymbolEndsName(op);
    ValueTest(NameOf(col), op, v, rest);
    var name, p := NameOf(col), Compare(col, op, v);
    assert Leaf(p).Print() == "(" + name + (op.Symbol() + v.ToText()) + ")";
  }

  lemma ParamIsRead(col: Column, rest: string)
    requires NameOk(DottedName(col))
    ensures SaysLeaf(Param(col), DottedName(col), " = ?  ", rest)
  {
    hide SaysTest;
    HoleTest(DottedName(col), Equal, rest);
    assert Leaf(Param(col)).Print() == "(" + DottedName(col) + " = ?  " + ")";
  }

  lemma NullIsRead(col: Column, negated: bool, rest: string)
    requires NameOk(NameOf(col))
    ensures SaysLeaf(Null(col, negated), NameOf(col), " IS " + (if negated then "NOT NULL" else "NULL"), rest)
  {
    hide SaysTest;
    var name, text := NameOf(col), " IS " + (if negated then "NOT NULL" else "NULL");
    NullTest(name, negated, rest);
    assert Leaf(Null(col, negated)).Print() == "(" + name + text + ")";
  }

  lemma BetweenIsRead(col: Column, low: Value, high: Value, rest: string)
    requires NameOk(NameOf(col)) && Readable(low) && Readable(high)
    ensures SaysLeaf(Between(col, low, high), NameOf(col), " between " + low.ToText() + " and " + high.ToText(), rest)
  {
    hide SaysTest;
    var name, text := NameOf(col), " between " + low.ToText() + " and " + high.ToText();
    RangeTest(name, low, high, rest);
    hide Value.ToText;
    BetweenText(name, low.ToText(), high.ToText());
    assert Between(col, low, high).Build().ToSql()
      == "(" + (name + " between " + low.ToText()) + " and " + high.ToText() + ")";
  }

  lemma BetweenText(name: string, low: string, high: string)
    ensures "(" + (name + " between " + low) + " and " + high + ")"
      == "(" + name + (" between " + low + " and " + high) + ")"
  {
  }

  lemma LikeIsRead(col: Column, pattern: string, rest: string)
    requires NameOk(NameOf(col))
    ensures SaysLeaf(Like(col, pattern), NameOf(col), " like " + Quoted(pattern), rest)
  {
    hide SaysTest;
    hide Quoted;
    LikeTest(NameOf(col), pattern, rest);
    assert Leaf(Like(col, pattern)).Print() == "(" + NameOf(col) + (" like " + Quoted(pattern)) + ")";
  }

  lemma LeafIsRead(p: Predicate, rest: string)
    requires PredicateReadable(p)
    ensures ReadCondition(Leaf(p).Print() + rest) == Some((Meaning(Leaf(p)), rest))
  {
    hide ReadCondition;
    hide SaysLeaf;
    hide Condition.Print;
    hide Meaning;
    var name := NameOf(p.column);
    match p
    case Compare(col, op, v) =>
      if v == Text("?  ") {
        CompareHoleIsRead(col, op, rest);
        LeafFromTest(p, name, op.Symbol() + "?  ", rest);
      } else {
        CompareIsRead(col, op, v, rest);
        LeafFromTest(p, name, op.Symbol() + v.ToText(), rest);
      }
    case Param(col) =>
      ParamIsRead(col, rest);
      LeafFromTest(p, DottedName(col), " = ?  ", rest);
    case OneOf(col, negated, values) =>
      if values == [] {
        EmptyListIsRead(col, negated, rest);
        LeafFromTest(p, "1", "=" + (if negated then "1" else "0"), rest);
      } else {
        MemberIsRead(col, negated, values, rest);
      }
    case Null(col, negated) =>
      NullIsRead(col, negated, rest);
      LeafFromTest(p, name, " IS " + (if negated then "NOT NULL" else "NULL"), rest);
    case Between(col, low, high) =>
      BetweenIsRead(col, low, high, rest);
      LeafFromTest(p, name, " between " + low.ToText() + " and " + high.ToText(), rest);
    case Like(col, pattern) =>
      LikeIsRead(col, pattern, rest);
      LeafFromTest(p, name, " like " + Quoted(pattern), rest);
  }

  // ----- the theorem -----------------------------------------------------------------------------

  lemma BeginsWithBracket(c: Condition)
    ensures BeginsWith(c.Print(), '(')
  {
  }

  lemma JoinedParts(s: string, word: string, tail: string, left: Sentence, right: Sentence, close: string)
    requires word == " AND " || word == " OR "
    requires ReadCondition(s) == Some((left, word + tail)) && ReadCondition(tail) == Some((right, close))
    ensures ReadJoined(s) == Some((if word == " AND " then Both(left, right) else Either(left, right), close))
  {
    hide ReadCondition;
    BeginsAhead(word, tail);
  }

  lemma BracketedJoin(s: string, inner: string, said: Sentence, rest: string)
    requires s == "(" + inner && BeginsWith(inner, '(') && ReadJoined(inner) == Some((said, ")" + rest))
    ensures ReadCondition(s) == Some((said, rest))
  {
    hide ReadJoined;
    assert s[1..] == inner && (")" + rest)[1..] == rest;
  }

  lemma JoinedIsRead(l: string, word: string, r: string, rest: string, left: Sentence, right: Sentence)
    requires word == " AND " || word == " OR "
    requires BeginsWith(l, '(')
    requires ReadCondition(l + (word + (r + (")" + rest)))) == Some((left, word + (r + (")" + rest))))
    requires ReadCondition(r + (")" + rest)) == Some((right, ")" + rest))
    ensures ReadCondition("(" + l + word + r + ")" + rest)
      == Some((if word == " AND " then Both(left, right) else Either(left, right), rest))
  {
    hide ReadCondition;
    hide ReadJoined;
    var tail := r + (")" + rest);
    JoinedText(l, word, r, rest);
    JoinedParts(l + (word + tail), word, tail, left, right, ")" + rest);
    BracketedJoin("(" + l + word + r + ")" + rest, l + (word + tail),
                  if word == " AND " then Both(left, right) else Either(left, right), rest);
  }

  lemma JoinedText(l: string, word: string, r: string, rest: string)
    requires BeginsWith(l, '(')
    ensures "(" + l + word + r + ")" + rest == "(" + (l + (word + (r + (")" + rest))))
    ensures BeginsWith(l + (word + (r + (")" + rest))), '(')
  {
    FourParts(l, word, r, rest);
  }

  /** Reading a printed condition gives back what it was built to say, and leaves what follows it:
    * every operator, list, limit and pattern in its place, and every string as it was. */
  lemma {:induction false} PrintedIsRead(c: Condition, rest: string)
    requires ConditionReadable(c)
    ensures ReadCondition(c.Print() + rest) == Some((Meaning(c), rest))
    decreases c
  {
    hide ReadCondition;
    match c
    case Leaf(p) => LeafIsRead(p, rest);
    case And(l, r) =>
      PrintedIsRead(r, ")" + rest);
      PrintedIsRead(l, " AND " + (r.Print() + (")" + rest)));
      BeginsWithBracket(l);
      JoinedIsRead(l.Print(), " AND ", r.Print(), rest, Meaning(l), Meaning(r));
    case Or(l, r) =>
      PrintedIsRead(r, ")" + rest);
      PrintedIsRead(l, " OR " + (r.Print() + (")" + rest)));
      BeginsWithBracket(l);
      JoinedIsRead(l.Print(), " OR ", r.Print(), rest, Meaning(l), Meaning(r));
  }
}
