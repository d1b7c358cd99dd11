/** What a MySQL server makes of a formatted text: a reader of literals with tables of its own, and
  * the text piece by piece, each mark replaced by the literal of its argument. */
module SqlValues {
  import opened Wrappers
  import opened SqlScanner
  import opened Placeholders
  import SqlGrammar
  import Wire
  import Conditions

  datatype Value = NullValue | NumberValue(text: string) | StringValue(s: string) | BytesValue(data: Wire.bytes)

  // ----- string literals -------------------------------------------------------------------------

  /** What a backslash and this character stand for. */
  function Unescaped(c: char): string {
    match c
    case '0' => "\0"
    case 'b' => "\U{8}"
    case 'n' => "\n"
    case 'r' => "\r"
    case 't' => "\t"
    case 'Z' => "\U{1A}"
    case '%' => "\\%"
    case '_' => "\\_"
    case _ => [c]
  }

  function Put(text: string, r: Option<(string, string)>): Option<(string, string)> {
    if r.None? then None else Some((text + r.value.0, r.value.1))
  }

  /** A literal behind its opening quote: its characters, and what follows the closing quote. */
  function ReadString(s: string, backslash: bool): Option<(string, string)>
    decreases |s|
  {
    if s == "" then None
    else if backslash && s[0] == '\\' then
      if |s| == 1 then None else Put(Unescaped(s[1]), ReadString(s[2..], backslash))
    else if s[0] != '\'' then Put([s[0]], ReadString(s[1..], backslash))
    else if |s| >= 2 && s[1] == '\'' then Put("'", ReadString(s[2..], backslash))
    else Some(("", s[1..]))
  }

  lemma CharIsRead(c: char, raw: bool, rest: string)
    ensures ReadString(EscapeChar(c, raw) + rest, !raw) == Put([c], ReadString(rest, !raw))
  {
    var e := EscapeChar(c, raw);
    assert (e + rest)[|e|..] == rest;
    assert |e| == 2 ==> (e + rest)[1] == e[1] && (e + rest)[2..] == rest;
  }

  /** Reading an escaped string gives the string back, whatever it contains, with and without
    * backslash escapes; only a quote directly behind it could change that. */
  lemma {:induction false} StringComesBack(v: string, raw: bool, rest: string)
    requires rest == "" || rest[0] != '\''
    ensures ReadString(EscapeChars(v, raw) + ("'" + rest), !raw) == Some((v, rest))
  {
    hide EscapeChar;
    var tail := "'" + rest;
    if v == "" {
      assert EscapeChars(v, raw) + tail == tail && tail[1..] == rest;
    } else {
      StringComesBack(v[1..], raw, rest);
      assert EscapeChars(v, raw) + tail == EscapeChar(v[0], raw) + (EscapeChars(v[1..], raw) + tail);
      CharIsRead(v[0], raw, EscapeChars(v[1..], raw) + tail);
      assert [v[0]] + v[1..] == v;
    }
  }

  // ----- hexadecimal literals ----------------------------------------------------------------------

  function DigitOf(c: char): Option<nat> {
    match c
    case '0' => Some(0) case '1' => Some(1) case '2' => Some(2) case '3' => Some(3)
    case '4' => Some(4) case '5' => Some(5) case '6' => Some(6) case '7' => Some(7)
    case '8' => Some(8) case '9' => Some(9) case 'A' => Some(10) case 'B' => Some(11)
    case 'C' => Some(12) case 'D' => Some(13) case 'E' => Some(14) case 'F' => Some(15)
    case _ => None
  }

  /** Two digits for each byte, the high one first. */
  function ReadHex(s: string): Option<seq<nat>> {
    if s == "" then Some([])
    else if |s| == 1 then None
    else
      var high, low, others := DigitOf(s[0]), DigitOf(s[1]), ReadHex(s[2..]);
      if high.None? || low.None? || others.None? then None
      else Some([16 * high.value + low.value] + others.value)
  }

  function Numbers(data: Wire.bytes): seq<nat> {
    seq(|data|, i requires 0 <= i < |data| => data[i] as nat)
  }

  lemma DigitComesBack(n: nat)
    requires n < 16
    ensures DigitOf(HexDigit(n)) == Some(n)
  {
  }

  lemma {:induction false} ReadHexAppend(s: string, t: string)
    requires ReadHex(s).Some? && ReadHex(t).Some?
    ensures ReadHex(s + t) == Some(ReadHex(s).value + ReadHex(t).value)
  {
    hide DigitOf;
    if s == "" {
      assert s + t == t && [] + ReadHex(t).value == ReadHex(t).value;
    } else {
      assert (s + t)[2..] == s[2..] + t;
      ReadHexAppend(s[2..], t);
      var b := [16 * DigitOf(s[0]).value + DigitOf(s[1]).value];
      assert b + (ReadHex(s[2..]).value + ReadHex(t).value) == b + ReadHex(s[2..]).value + ReadHex(t).value;
      assert (s + t)[0] == s[0] && (s + t)[1] == s[1];
    }
  }

  lemma {:induction false} BytesComeBack(data: Wire.bytes)
    ensures ReadHex(HexDigits(data)) == Some(Numbers(data))
  {
    hide DigitOf;
    hide HexDigit;
    if data == [] {
      assert Numbers(data) == [];
    } else {
      var n := |data| - 1;
      BytesComeBack(data[..n]);
      DigitComesBack(data[n] / 16);
      DigitComesBack(data[n] % 16);
      var two := [HexDigit(data[n] / 16), HexDigit(data[n] % 16)];
      assert two[2..] == "" && data[n] == 16 * (data[n] / 16) + data[n] % 16;
      assert [data[n] as nat] + [] == [data[n] as nat];
      assert ReadHex(two) == Some([data[n] as nat]);
      ReadHexAppend(HexDigits(data[..n]), two);
      assert Numbers(data) == Numbers(data[..n]) + [data[n] as nat];
    }
  }

  // ----- the literal of an argument ----------------------------------------------------------------

  predicate AllDigits(s: string) {
    s != "" && forall i | 0 <= i < |s| :: '0' <= s[i] <= '9'
  }

  /** Perhaps a sign, digits, perhaps a point and more digits. */
  ghost predicate IsNumber(s: string) {
    exists sign, whole, point: string, fraction ::
      && s == sign + whole + point + fraction && (sign == "" || sign == "-") && AllDigits(whole)
      && ((point == "." && AllDigits(fraction)) || (point == "" && fraction == ""))
  }

  /** The value of a literal that is the whole of `s`.  A lone `0x` is none: it is a name. */
  ghost function ReadValue(s: string, backslash: bool): Option<Value> {
    if s == "NULL" then Some(NullValue)
    else if SqlGrammar.BeginsWith(s, '\'') then
      var r := ReadString(s[1..], backslash);
      if r.Some? && r.value.1 == "" then Some(StringValue(r.value.0)) else None
    else if |s| > 2 && s[..2] == "0x" then
      var r := ReadHex(s[2..]);
      if r.Some? then Some(BytesValue(ToBytes(r.value))) else None
    else if IsNumber(s) then Some(NumberValue(s))
    else None
  }

  function ToBytes(ns: seq<nat>): Wire.bytes {
    seq(|ns|, i requires 0 <= i < |ns| => (ns[i] % 256) as Wire.byte)
  }

  lemma ToBytesOfNumbers(data: Wire.bytes)
    ensures ToBytes(Numbers(data)) == data
  {
  }

  function Meant(a: Argument): Value {
    match a
    case Null => NullValue
    case Number(text) => NumberValue(text)
    case Text(s) => StringValue(s)
    case Blob(data) => BytesValue(data)
  }

  lemma {:induction false} HexLength(data: Wire.bytes)
    ensures |HexDigits(data)| == 2 * |data|
  {
    if data != [] {
      HexLength(data[..|data| - 1]);
    }
  }

  lemma NumberIsOther(s: string)
    requires IsNumber(s)
    ensures s != "NULL" && !SqlGrammar.BeginsWith(s, '\'') && (|s| > 2 ==> s[..2] != "0x")
  {
    var sign, whole, point: string, fraction :|
      && s == sign + whole + point + fraction && (sign == "" || sign == "-") && AllDigits(whole)
      && ((point == "." && AllDigits(fraction)) || (point == "" && fraction == ""));
    assert s[|sign|] == whole[0];
    if sign == "" && |s| > 2 {
      assert s[1] == if |whole| > 1 then whole[1] else '.';
    }
  }

  lemma TextComesBack(v: string, raw: bool)
    ensures ReadValue(Escaped(v, raw), !raw) == Some(StringValue(v))
  {
    hide IsNumber;
    hide ReadString;
    hide EscapeChars;
    hide ReadHex;
    StringComesBack(v, raw, "");
    assert Escaped(v, raw)[0] == '\'' && "NULL"[0] == 'N';
    assert Escaped(v, raw)[1..] == EscapeChars(v, raw) + ("'" + "");
  }

  lemma BlobComesBack(data: Wire.bytes, backslash: bool)
    ensures ReadValue("0x" + HexDigits(data), backslash) == Some(BytesValue(data)) <==> data != []
  {
    hide IsNumber;
    hide ReadString;
    hide ReadHex;
    hide HexDigits;
    hide ToBytes;
    HexLength(data);
    BytesComeBack(data);
    ToBytesOfNumbers(data);
    var s := "0x" + HexDigits(data);
    assert s[2..] == HexDigits(data) && s[..2] == "0x" && s[0] == '0' && "NULL"[0] == 'N';
  }

  /** The text of an argument is a literal of its value.  There is one exception: the text of
    * an empty blob is a lone `0x`. */
  lemma ArgumentComesBack(a: Argument, raw: bool)
    requires a.Number? ==> IsNumber(a.text)
    ensures ReadValue(ArgumentText(a, raw), !raw) == Some(Meant(a)) <==> a != Blob([])
  {
    hide Escaped;
    match a
    case Null =>
    case Number(text) => NumberIsOther(text);
    case Text(v) => TextComesBack(v, raw);
    case Blob(data) => BlobComesBack(data, !raw);
  }

  // ----- the formatted text ------------------------------------------------------------------------

  function MarkCount(pieces: seq<SqlGrammar.Piece>): nat {
    if pieces == [] then 0 else MarkCount(pieces[1..]) + if pieces[0].Mark? then 1 else 0
  }

  /** The pieces printed, with the values for the marks in their order. */
  function Filled(pieces: seq<SqlGrammar.Piece>, values: seq<string>): string
    requires |values| == MarkCount(pieces)
  {
    if pieces == [] then ""
    else if pieces[0].Mark? then values[0] + Filled(pieces[1..], values[1..])
    else SqlGrammar.PrintPiece(pieces[0]) + Filled(pieces[1..], values)
  }

  lemma {:induction false} CutsAreCounted(pieces: seq<SqlGrammar.Piece>)
    ensures |SqlGrammar.Cut(pieces)| == MarkCount(pieces) + 1
  {
    if pieces != [] {
      CutsAreCounted(pieces[1..]);
    }
  }

  lemma {:induction false} FilledIsInterleaved(pieces: seq<SqlGrammar.Piece>, values: seq<string>)
    requires |values| == MarkCount(pieces)
    ensures |SqlGrammar.Cut(pieces)| == |values| + 1
    ensures Interleave(SqlGrammar.Cut(pieces), values) == Filled(pieces, values)
  {
    hide SqlGrammar.PrintPiece;
    CutsAreCounted(pieces);
    if pieces != [] {
      var later := SqlGrammar.Cut(pieces[1..]);
      CutsAreCounted(pieces[1..]);
      if pieces[0].Mark? {
        FilledIsInterleaved(pieces[1..], values[1..]);
        InterleaveMark(later, values);
      } else {
        FilledIsInterleaved(pieces[1..], values);
        InterleaveAttached(SqlGrammar.PrintPiece(pieces[0]), later, values);
      }
    }
  }

  lemma InterleaveMark(later: seq<string>, values: seq<string>)
    requires |later| == |values| >= 1
    ensures Interleave([""] + later, values) == values[0] + Interleave(later, values[1..])
  {
    assert ([""] + later)[1..] == later;
    assert "" + values[0] == values[0];
  }

  lemma FourPieces(a: string, b: string, c: string, d: string)
    ensures a + b + c + d == a + (b + c + d)
  {
  }

  lemma InterleaveAttached(p: string, later: seq<string>, values: seq<string>)
    requires |later| == |values| + 1
    ensures Interleave(Attach(p, later), values) == p + Interleave(later, values)
  {
    assert Attach(p, later)[1..] == later[1..] && Attach(p, later)[0] == p + later[0];
    if values != [] {
      FourPieces(p, later[0], values[0], Interleave(later[1..], values[1..]));
    }
  }

  /** Formatting a text that is printed by some pieces: an error if the marks among them are not
    * as many as the arguments, and otherwise the same pieces with the literals of the arguments,
    * in their order, for the marks. */
  lemma FormattedIsFilled(pieces: seq<SqlGrammar.Piece>, args: seq<Argument>, raw: bool)
    requires SqlGrammar.Ok(pieces, MySql(raw))
    ensures var segments := Segments(SqlGrammar.Print(pieces), MySql(raw));
      && (|segments| == |args| + 1 <==> |args| == MarkCount(pieces))
      && (|args| == MarkCount(pieces) ==>
        Interleave(segments, ArgumentTexts(args, raw)) == Filled(pieces, ArgumentTexts(args, raw)))
  {
    hide Segments;
    hide Filled;
    hide Interleave;
    SqlGrammar.MarksAreMarks(pieces, MySql(raw));
    CutsAreCounted(pieces);
    if |args| == MarkCount(pieces) {
      FilledIsInterleaved(pieces, ArgumentTexts(args, raw));
    }
  }

  // ----- numbered parameters -----------------------------------------------------------------------

  /** A dollar sign and the digits of `n`, without leading zeros. */
  ghost predicate IsParameter(s: string, n: nat) {
    && |s| >= 2 && s[0] == '$' && (s[1] == '0' ==> |s| == 2)
    && (forall i | 1 <= i < |s| :: '0' <= s[i] <= '9')
    && Conditions.DecimalValue(s[1..]) == n
  }

  lemma {:induction false} DecimalIsCanonical(n: nat)
    ensures var s := Conditions.Decimal(n);
      && s != "" && (s[0] == '0' ==> n == 0 && |s| == 1)
      && forall i | 0 <= i < |s| :: '0' <= s[i] <= '9'
  {
    if n >= 10 {
      DecimalIsCanonical(n / 10);
    }
  }

  lemma {:induction false} DollarsAreParameters(index: nat, n: nat)
    ensures forall i | 0 <= i < n :: IsParameter(Conditions.Dollars(index, n)[i], index + i)
    decreases n
  {
    hide Conditions.Decimal;
    hide Conditions.DecimalValue;
    if n > 0 {
      var s := Conditions.Decimal(index);
      DecimalIsCanonical(index);
      Conditions.DecimalDenotes(index);
      assert ("$" + s)[1..] == s;
      DollarsAreParameters(index + 1, n - 1);
      var ds := Conditions.Dollars(index, n);
      assert ds == ["$" + s] + Conditions.Dollars(index + 1, n - 1);
      assert IsParameter(ds[0], index);
    }
  }

  /** Numbering a text that is printed by some pieces: the same pieces, with $1, $2 and so on for
    * the marks. */
  lemma NumberedIsFilled(pieces: seq<SqlGrammar.Piece>) returns (parameters: seq<string>)
    requires SqlGrammar.Ok(pieces, PostgreSql)
    ensures |parameters| == MarkCount(pieces)
    ensures forall i | 0 <= i < |parameters| :: IsParameter(parameters[i], i + 1)
    ensures Conditions.Numbered(SqlGrammar.Print(pieces), 1) == Filled(pieces, parameters)
  {
    hide Segments;
    hide Filled;
    hide Interleave;
    hide IsParameter;
    SqlGrammar.MarksAreMarks(pieces, PostgreSql);
    CutsAreCounted(pieces);
    parameters := Conditions.Dollars(1, MarkCount(pieces));
    DollarsAreParameters(1, MarkCount(pieces));
    FilledIsInterleaved(pieces, parameters);
  }
}
