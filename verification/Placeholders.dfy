/** Arguments of a MySQL query: escaping, and substitution with a moving search position. */
module Placeholders {
  import opened SqlScanner
  import Wire
  import opened Wrappers

  datatype Result<+T> = Ok(value: T) | CountMismatch

  /** `replace_next_placeholder`: the text and the search position are updated together. */
  method ReplaceNextPlaceholder(sql: string, searchPos: nat, value: string, raw: bool)
    returns (r: Result<(string, nat)>)
    requires searchPos <= |sql|
    ensures var ahead := sql[searchPos..]; var k := FirstMark(ahead, MySql(raw));
      if k.None? then r == CountMismatch
      else
        var done := sql[..searchPos] + ahead[..k.value] + value;
        r == Ok((done + ahead[k.value + 1..], |done|))
  {
    hide FirstMark;
    var pos := FindNextPlaceholder(sql, searchPos, MySql(raw));
    if pos.None? {
      return CountMismatch;
    }
    var p := pos.value;
    assert sql[searchPos..][..p - searchPos] == sql[searchPos..p];
    assert sql[..p] == sql[..searchPos] + sql[searchPos..p];
    assert sql[searchPos..][p - searchPos + 1..] == sql[p + 1..];
    r := Ok((sql[..p] + value + sql[p + 1..], p + |value|));
  }

  /** What remains to be substituted. */
  function Rest(s: string, values: seq<string>, d: Dialect): Result<string> {
    var segments := Segments(s, d);
    if |segments| == |values| + 1 then Ok(Interleave(segments, values)) else CountMismatch
  }

  function After(done: string, r: Result<string>): Result<string> {
    if r.Ok? then Ok(done + r.value) else r
  }

  lemma AfterNothing(r: Result<string>)
    ensures After([], r) == r
  {
    if r.Ok? {
      assert [] + r.value == r.value;
    }
  }

  lemma RestStep(s: string, values: seq<string>, d: Dialect, done: string)
    requires values != []
    ensures FirstMark(s, d).None? ==> Rest(s, values, d) == CountMismatch
    ensures FirstMark(s, d).Some? ==>
      var k := FirstMark(s, d).value;
      After(done, Rest(s, values, d)) == After(done + s[..k] + values[0], Rest(s[k + 1..], values[1..], d))
  {
    hide FirstMark;
    var k := FirstMark(s, d);
    if k.Some? {
      var later := Segments(s[k.value + 1..], d);
      assert Segments(s, d) == [s[..k.value]] + later;
      if |later| == |values| {
        InterleaveStep(done, s[..k.value], later, values);
      }
    }
  }

  lemma RestEnd(s: string, d: Dialect)
    ensures Rest(s, [], d) == if FirstMark(s, d).None? then Ok(s) else CountMismatch
  {
    hide FirstMark;
  }

  lemma InterleaveStep(done: string, first: string, later: seq<string>, values: seq<string>)
    requires |later| == |values| >= 1
    ensures done + Interleave([first] + later, values) == done + first + values[0] + Interleave(later, values[1..])
  {
    assert ([first] + later)[1..] == later;
    assert Interleave([first] + later, values) == first + values[0] + Interleave(later, values[1..]);
  }

  /** The loop body of `escape_mysql_string`. */
  method AppendEscaped(text: string, c: char, raw: bool) returns (result: string)
    ensures result == text + EscapeChar(c, raw)
  {
    result := text;
    if raw {
      if c == '\'' {
        result := result + ['\'', '\''];
      } else {
        result := result + [c];
      }
      return;
    }
    match c {
      case '\0' => result := result + "\\0";
      case '\n' => result := result + "\\n";
      case '\r' => result := result + "\\r";
      case '\\' => result := result + "\\\\";
      case '\'' => result := result + "\\'";
      case '"' => result := result + "\\\"";
      case '\U{1A}' => result := result + "\\Z";
      case _ => result := result + [c];
    }
  }

  method EscapeMysqlString(input: string, raw: bool) returns (result: string)
    ensures result == Escaped(input, raw)
  {
    result := "'";
    for i := 0 to |input|
      invariant result == "'" + EscapeChars(input[..i], raw)
    {
      EscapeCharsAppend(input[..i], input[i], raw);
      assert input[..i + 1] == input[..i] + [input[i]];
      result := AppendEscaped(result, input[i], raw);
    }
    assert input[..|input|] == input;
    result := result + "'";
  }

  // ----- arguments -------------------------------------------------------------------------------

  /** What `std::to_chars` or `std::to_string` prints. */
  type Numeral = s: string | NumberText(s) witness "0"

  /** An argument: an empty optional, a number, a string or a blob. */
  datatype Argument = Null | Number(text: Numeral) | Text(s: string) | Blob(data: Wire.bytes)

  function HexDigit(n: nat): char
    requires n < 16
  {
    "0123456789ABCDEF"[n]
  }

  function HexDigits(data: Wire.bytes): string {
    if data == [] then ""
    else
      var last := data[|data| - 1];
      HexDigits(data[..|data| - 1]) + [HexDigit(last / 16), HexDigit(last % 16)]
  }

  function ArgumentText(a: Argument, raw: bool): string {
    match a
    case Null => "NULL"
    case Number(text) => text
    case Text(s) => Escaped(s, raw)
    case Blob(data) => "0x" + HexDigits(data)
  }

  method BlobToHex(data: Wire.bytes) returns (out: string)
    ensures out == "0x" + HexDigits(data)
  {
    out := "0x";
    for i := 0 to |data|
      invariant out == "0x" + HexDigits(data[..i])
    {
      assert data[..i + 1][..i] == data[..i];
      out := out + [HexDigit(data[i] / 16)];
      out := out + [HexDigit(data[i] % 16)];
    }
    assert data[..|data|] == data;
  }

  /** `to_query_arg_impl` */
  method ToQueryArg(a: Argument, raw: bool) returns (value: string)
    ensures value == ArgumentText(a, raw)
  {
    match a {
      case Null => value := "NULL";
      case Number(text) => value := text;
      case Text(s) => value := EscapeMysqlString(s, raw);
      case Blob(data) => value := BlobToHex(data);
    }
  }

  function ArgumentTexts(args: seq<Argument>, raw: bool): (values: seq<string>)
    ensures |values| == |args|
    ensures forall i | 0 <= i < |args| :: values[i] == ArgumentText(args[i], raw)
  {
    if args == [] then [] else [ArgumentText(args[0], raw)] + ArgumentTexts(args[1..], raw)
  }

  /** `format_query_args`: an error exactly if the number of top-level marks is not the number
    * of arguments, and otherwise the original pieces, untouched, around the values. */
  method FormatQueryArgs(text: string, args: seq<Argument>, raw: bool) returns (r: Result<string>)
    ensures r == if |Segments(text, MySql(raw))| == |args| + 1
      then Ok(Interleave(Segments(text, MySql(raw)), ArgumentTexts(args, raw))) else CountMismatch
  {
    hide FirstMark;
    hide Segments;
    hide ArgumentText;
    ghost var values := ArgumentTexts(args, raw);
    var sql := text;
    var searchPos: nat := 0;
    assert values[0..] == values && sql[0..] == text;
    AfterNothing(Rest(text, values, MySql(raw)));
    for i := 0 to |args|
      invariant searchPos <= |sql|
      invariant Rest(text, values, MySql(raw))
        == After(sql[..searchPos], Rest(sql[searchPos..], values[i..], MySql(raw)))
    {
      var value := ToQueryArg(args[i], raw);
      RestStep(sql[searchPos..], values[i..], MySql(raw), sql[..searchPos]);
      assert values[i..][1..] == values[i + 1..];
      var next := ReplaceNextPlaceholder(sql, searchPos, value, raw);
      if next.CountMismatch? {
        return CountMismatch;
      }
      sql, searchPos := next.value.0, next.value.1;
    }
    assert values[|values|..] == [];
    RestEnd(sql[searchPos..], MySql(raw));
    var left := FindNextPlaceholder(sql, searchPos, MySql(raw));
    if left.Some? {
      return CountMismatch;
    }
    assert sql == sql[..searchPos] + sql[searchPos..];
    r := Ok(sql);
  }

  // ----- values in their places ------------------------------------------------------------------

  lemma {:induction false} HexIsPlain(data: Wire.bytes, d: Dialect)
    ensures Plain(HexDigits(data), d)
  {
    if data != [] {
      HexIsPlain(data[..|data| - 1], d);
    }
  }

  /** Every value but a number is plain text or a literal, so it does not begin with anything that
    * could change the token before it. */
  lemma ArgumentFits(a: Argument, raw: bool, rest: string)
    ensures ArgumentText(a, raw) != ""
    ensures Fits(ArgumentText(a, raw) + rest)
  {
  }

  lemma ArgumentIsSkipped(a: Argument, rest: string, d: Dialect)
    ensures FirstMark(ArgumentText(a, d.Raw()) + rest, d)
      == Shifted(FirstMark(rest, d), |ArgumentText(a, d.Raw())|)
  {
    hide FirstMark;
    match a
    case Null => PlainIsSkipped("NULL", rest, d);
    case Number(text) => NumberIsSkipped(text, rest, d);
    case Text(s) => LiteralIsSkipped(s, rest, d);
    case Blob(data) =>
      HexIsPlain(data, d);
      PlainIsSkipped("0x" + HexDigits(data), rest, d);
  }

  /** The scanner passes over `p` and finds no mark in it, and whatever follows is scanned as if
    * it stood alone. */
  ghost predicate StandsAlone(p: string, d: Dialect) {
    forall rest: string :: FirstMark(p + rest, d) == Shifted(FirstMark(rest, d), |p|)
  }

  lemma ApartStandsAlone(before: string, u: string, a: Argument, rest: string, d: Dialect)
    requires u != [] && u[0] == '?' && FirstMark(before + u, d) == Some(|before|)
    requires !Joins(before, ArgumentText(a, d.Raw()))
    ensures var p := before + ArgumentText(a, d.Raw());
      FirstMark(p + rest, d) == Shifted(FirstMark(rest, d), |p|)
  {
    hide FirstMark;
    var v := ArgumentText(a, d.Raw());
    ArgumentFits(a, d.Raw(), rest);
    assert (v + rest)[0] == v[0];
    ScanPast(before, u, v + rest, d);
    ArgumentIsSkipped(a, rest, d);
    ShiftedTwice(FirstMark(rest, d), |v|, |before|);
    assert before + v + rest == before + (v + rest);
  }

  /** A minus sign and a negative number are a comment, here over the mark behind them. */
  lemma MinusHidesMark(before: string, u: string, v: string, d: Dialect)
    requires u != [] && u[0] == '?' && FirstMark(before + u, d) == Some(|before|)
    requires NumberText(v) && Joins(before, v)
    ensures FirstMark(before + v + "?", d) == None
  {
    hide FirstMark;
    MinusIsMet(before, u, v + "?", d);
    assert before + v + "?" == before + (v + "?");
    NumberLine(v);
    var s := "-" + (v + "?");
    assert s[2..] == v[1..] + "?";
    NoMarkAhead(s, d);
  }

  lemma NumberLine(v: string)
    requires NumberText(v)
    ensures ToLineEnd(v[1..] + "?") == |v|
  {
    NoLineEnd(v[1..] + "?");
  }

  lemma {:induction false} NoLineEnd(s: string)
    requires forall i | 0 <= i < |s| :: s[i] != '\n' && s[i] != '\r'
    ensures ToLineEnd(s) == |s|
  {
    if s != "" {
      NoLineEnd(s[1..]);
    }
  }

  /** A value put at a mark stands alone if and only if it is not a negative number directly
    * behind a minus sign. */
  lemma StandsAloneExactly(before: string, u: string, a: Argument, d: Dialect)
    requires u != [] && u[0] == '?' && FirstMark(before + u, d) == Some(|before|)
    ensures StandsAlone(before + ArgumentText(a, d.Raw()), d) <==> !Joins(before, ArgumentText(a, d.Raw()))
  {
    hide FirstMark;
    var v := ArgumentText(a, d.Raw());
    if Joins(before, v) {
      MinusHidesMark(before, u, v, d);
      MarkFirst("?", d);
    } else {
      forall rest: string ensures FirstMark(before + v + rest, d) == Shifted(FirstMark(rest, d), |before + v|) {
        ApartStandsAlone(before, u, a, rest, d);
      }
    }
  }

  lemma MarkFirst(s: string, d: Dialect)
    requires s != "" && s[0] == '?'
    ensures FirstMark(s, d) == Some(0)
  {
  }

  /** No negative number is put directly behind a minus sign. */
  ghost predicate Apart(segments: seq<string>, args: seq<Argument>, raw: bool)
    requires |segments| == |args| + 1
  {
    forall i | 0 <= i < |args| :: !Joins(segments[i], ArgumentText(args[i], raw))
  }

  lemma {:induction false} SegmentEndsAtMark(text: string, i: nat, d: Dialect) returns (u: string)
    requires i < |Segments(text, d)| - 1
    ensures u != "" && u[0] == '?' && FirstMark(Segments(text, d)[i] + u, d) == Some(|Segments(text, d)[i]|)
    decreases i
  {
    hide FirstMark;
    var k := FirstMark(text, d).value;
    if i == 0 {
      u := text[k..];
      assert text == text[..k] + u;
    } else {
      u := SegmentEndsAtMark(text[k + 1..], i - 1, d);
    }
  }

  /** Every piece of a text together with the value behind it stands alone, if and only if no
    * negative number is put directly behind a minus sign. */
  lemma ValuesStandAloneExactly(text: string, args: seq<Argument>, d: Dialect)
    requires |Segments(text, d)| == |args| + 1
    ensures (forall i | 0 <= i < |args| :: StandsAlone(Segments(text, d)[i] + ArgumentText(args[i], d.Raw()), d))
      <==> Apart(Segments(text, d), args, d.Raw())
  {
    hide FirstMark;
    hide StandsAlone;
    hide Joins;
    var segments := Segments(text, d);
    forall i | 0 <= i < |args|
      ensures StandsAlone(segments[i] + ArgumentText(args[i], d.Raw()), d)
        <==> !Joins(segments[i], ArgumentText(args[i], d.Raw()))
    {
      var u := SegmentEndsAtMark(text, i, d);
      StandsAloneExactly(segments[i], u, args[i], d);
    }
  }

  /** A formatted text then has no mark left, whatever its values contain and whatever they touch. */
  lemma {:induction false} FormattedHasNoMark(text: string, args: seq<Argument>, d: Dialect)
    requires |Segments(text, d)| == |args| + 1 && Apart(Segments(text, d), args, d.Raw())
    ensures FirstMark(Interleave(Segments(text, d), ArgumentTexts(args, d.Raw())), d) == None
  {
    hide FirstMark;
    hide ArgumentText;
    hide Joins;
    var segments := Segments(text, d);
    if args != [] {
      var k := FirstMark(text, d).value;
      var before, later := text[..k], text[k + 1..];
      assert segments[1..] == Segments(later, d) && segments[0] == before;
      forall i | 0 <= i < |args| - 1 ensures !Joins(segments[1..][i], ArgumentText(args[1..][i], d.Raw())) {
        assert !Joins(segments[i + 1], ArgumentText(args[i + 1], d.Raw()));
      }
      FormattedHasNoMark(later, args[1..], d);
      assert text == before + text[k..];
      var rest := Interleave(segments[1..], ArgumentTexts(args[1..], d.Raw()));
      ApartStandsAlone(before, text[k..], args[0], rest, d);
    }
  }

  /** The least that goes wrong: in `-? ?` the first value, -1, makes a comment of the quote that
    * opens the second, and the mark in that string is bare. */
  lemma MinusSwallowsQuote()
    ensures var d, args := MySql(true), [Number("-1"), Text("\n?")];
      && Segments("-? ?", d) == ["-", " ", ""]
      && Interleave(["-", " ", ""], ArgumentTexts(args, true)) == "--1 '\n?'"
      && FirstMark("--1 '\n?'", d) == Some(6)
  {
    MinusSegments();
    MinusScanned();
    EscapedNewline();
    hide FirstMark;
    hide Segments;
    hide Escaped;
    assert ArgumentTexts([Number("-1"), Text("\n?")], true) == ["-1", "'\n?'"];
    TwoValues("-", "-1", " ", "'\n?'", "");
    assert "-" + "-1" + (" " + "'\n?'" + "") == "--1 '\n?'";
  }

  lemma TwoValues(a: string, v: string, b: string, w: string, c: string)
    ensures Interleave([a, b, c], [v, w]) == a + v + (b + w + c)
  {
    assert [a, b, c][1..] == [b, c] && [b, c][1..] == [c] && [v, w][1..] == [w] && [w][1..] == [];
    assert Interleave([b, c], [w]) == b + w + c;
  }

  lemma EscapedNewline()
    ensures Escaped("\n?", true) == "'\n?'"
  {
    assert "\n?"[1..] == "?" && "?"[1..] == "";
    assert EscapeChars("?", true) == "?";
  }

  lemma MinusSegments()
    ensures Segments("-? ?", MySql(true)) == ["-", " ", ""]
  {
    hide FirstMark;
    hide Segments;
    var d := MySql(true);
    OneThenMark("-", "? ?", d);
    assert "-" + "? ?" == "-? ?" && "-? ?"[..1] == "-" && "-? ?"[2..] == " ?";
    CutAt("-? ?", 1, d);
    OneThenMark(" ", "?", d);
    assert " " + "?" == " ?" && " ?"[..1] == " " && " ?"[2..] == "";
    CutAt(" ?", 1, d);
    NotCut("", d);
  }

  lemma OneThenMark(p: string, u: string, d: Dialect)
    requires p == " " || p == "-"
    requires u != "" && u[0] == '?'
    ensures FirstMark(p + u, d) == Some(1)
  {
    assert (p + u)[1..] == u;
    OneCharIsSkipped(p + u, d);
  }

  lemma MinusScanned()
    ensures FirstMark("--1 '\n?'", MySql(true)) == Some(6)
  {
    hide FirstMark;
    var d := MySql(true);
    var line, rest := "1 '", "\n?'";
    var s := "--" + line + rest;
    assert s == "--1 '\n?'" && s[2..] == line + rest && s[6..] == "?'";
    LineEndAt(line, rest);
    MarkStep(s, 6, "?'", d);
    MarkFirst("?'", d);
  }

  lemma {:induction false} LineEndAt(line: string, rest: string)
    requires rest != "" && rest[0] == '\n' && forall i | 0 <= i < |line| :: line[i] != '\n' && line[i] != '\r'
    ensures ToLineEnd(line + rest) == |line|
  {
    if line != "" {
      SplitAt(line, rest, 1);
      LineEndAt(line[1..], rest);
    } else {
      assert line + rest == rest;
    }
  }
}
