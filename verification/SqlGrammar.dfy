/** SQL text as the scanners should see it: a grammar of pieces with a printer of its own.  The marks
  * that a scanner finds in a printed text are exactly the pieces that are marks, and every text is
  * printed by some pieces. */
module SqlGrammar {
  import opened Wrappers
  import opened SqlScanner

  // ----- the grammar -----------------------------------------------------------------------------

  /** Inside quotes: a character, a doubled quote, or a backslash with its successor. */
  datatype Unit = One(c: char) | Doubled | Pair(c: char)

  /** How a text may end within a piece: inside quotes, perhaps behind a lone backslash, or inside a
    * comment. */
  datatype Piece =
    | Plain(c: char)
    | Quoted(quote: char, body: seq<Unit>)
    | DashLine(text: string, end: char)
    | HashLine(text: string, end: char)
    | Block(text: string)
    | Mark
    | OpenQuoted(quote: char, body: seq<Unit>, backslash: bool)
    | OpenDash(text: string)
    | OpenHash(text: string)
    | OpenBlock(text: string)

  function PrintUnit(u: Unit, quote: char): string {
    match u
    case One(c) => [c]
    case Doubled => [quote, quote]
    case Pair(c) => ['\\', c]
  }

  function PrintBody(body: seq<Unit>, quote: char): string {
    if body == [] then "" else PrintUnit(body[0], quote) + PrintBody(body[1..], quote)
  }

  function PrintPiece(p: Piece): string {
    match p
    case Plain(c) => [c]
    case Quoted(quote, body) => [quote] + PrintBody(body, quote) + [quote]
    case DashLine(text, end) => "--" + text + [end]
    case HashLine(text, end) => "#" + text + [end]
    case Block(text) => "/*" + text + "*/"
    case Mark => "?"
    case OpenQuoted(quote, body, backslash) => [quote] + PrintBody(body, quote) + (if backslash then "\\" else "")
    case OpenDash(text) => "--" + text
    case OpenHash(text) => "#" + text
    case OpenBlock(text) => "/*" + text
  }

  function Print(pieces: seq<Piece>): string {
    if pieces == [] then "" else PrintPiece(pieces[0]) + Print(pieces[1..])
  }

  predicate IsQuote(c: char, d: Dialect) {
    c == '\'' || c == '"' || (c == '`' && d.MySql?)
  }

  /** Whether a backslash escapes inside these quotes. */
  predicate Escapes(quote: char, d: Dialect) {
    d.MySql? && !d.raw && quote != '`'
  }

  predicate UnitOk(u: Unit, quote: char, d: Dialect) {
    match u
    case One(c) => c != quote && (Escapes(quote, d) ==> c != '\\')
    case Doubled => true
    case Pair(_) => Escapes(quote, d)
  }

  predicate BodyOk(body: seq<Unit>, quote: char, d: Dialect) {
    forall i | 0 <= i < |body| :: UnitOk(body[i], quote, d)
  }

  predicate IsLineEnd(c: char) {
    c == '\n' || c == '\r'
  }

  predicate OneLine(text: string) {
    forall i | 0 <= i < |text| :: !IsLineEnd(text[i])
  }

  /** No comment end begins in `text`, not even with what follows it. */
  predicate NoEnd(text: string, behind: string) {
    forall i | 0 <= i < |text| :: !(text[i] == '*' && i + 1 < |text + behind| && (text + behind)[i + 1] == '/')
  }

  predicate BeginsWith(s: string, c: char) {
    s != "" && s[0] == c
  }

  /** The piece stands for itself when `rest` follows. */
  predicate PieceOk(p: Piece, rest: string, d: Dialect) {
    match p
    case Plain(c) =>
      && c != '?' && !IsQuote(c, d) && (c == '#' ==> d.PostgreSql?)
      && !(c == '-' && BeginsWith(rest, '-')) && !(c == '/' && BeginsWith(rest, '*'))
    case Quoted(quote, body) => IsQuote(quote, d) && BodyOk(body, quote, d) && !BeginsWith(rest, quote)
    case DashLine(text, end) => OneLine(text) && IsLineEnd(end)
    case HashLine(text, end) => d.MySql? && OneLine(text) && IsLineEnd(end)
    case Block(text) => NoEnd(text, "*/")
    case Mark => true
    case OpenQuoted(quote, body, backslash) =>
      IsQuote(quote, d) && BodyOk(body, quote, d) && rest == "" && (backslash ==> Escapes(quote, d))
    case OpenDash(text) => OneLine(text) && rest == ""
    case OpenHash(text) => d.MySql? && OneLine(text) && rest == ""
    case OpenBlock(text) => NoEnd(text, "") && rest == ""
  }

  predicate Ok(pieces: seq<Piece>, d: Dialect) {
    pieces == [] || (PieceOk(pieces[0], Print(pieces[1..]), d) && Ok(pieces[1..], d))
  }

  /** The text cut at the pieces that are marks. */
  function Cut(pieces: seq<Piece>): (r: seq<string>)
    ensures r != []
  {
    if pieces == [] then [""]
    else if pieces[0].Mark? then [""] + Cut(pieces[1..])
    else Attach(PrintPiece(pieces[0]), Cut(pieces[1..]))
  }

  // ----- one piece -------------------------------------------------------------------------------

  lemma UnitIsInside(u: Unit, quote: char, later: string, d: Dialect)
    requires UnitOk(u, quote, d) && quote != '\\'
    ensures var n := |PrintUnit(u, quote)|;
      ToClosingQuote(PrintUnit(u, quote) + later, quote, !Escapes(quote, d))
        == n + ToClosingQuote(later, quote, !Escapes(quote, d))
  {
    var s := PrintUnit(u, quote) + later;
    assert s[|PrintUnit(u, quote)|..] == later;
  }

  lemma {:induction false} BodyIsInside(body: seq<Unit>, quote: char, tail: string, d: Dialect)
    requires BodyOk(body, quote, d) && quote != '\\'
    ensures ToClosingQuote(PrintBody(body, quote) + tail, quote, !Escapes(quote, d))
      == |PrintBody(body, quote)| + ToClosingQuote(tail, quote, !Escapes(quote, d))
  {
    hide ToClosingQuote;
    hide UnitOk;
    hide PrintUnit;
    if body == [] {
      assert "" + tail == tail;
    } else {
      var u, later := PrintUnit(body[0], quote), PrintBody(body[1..], quote) + tail;
      BodyIsInside(body[1..], quote, tail, d);
      assert PrintBody(body, quote) + tail == u + later;
      UnitIsInside(body[0], quote, later, d);
    }
  }

  lemma {:induction false} LineIsInside(text: string, tail: string)
    requires OneLine(text)
    ensures ToLineEnd(text + tail) == |text| + ToLineEnd(tail)
  {
    if text == "" {
      assert "" + tail == tail;
    } else {
      SplitAt(text, tail, 1);
      LineIsInside(text[1..], tail);
    }
  }

  lemma {:induction false} BlockIsInside(text: string, behind: string, rest: string)
    requires NoEnd(text, behind) && (behind == "*/" || (behind == "" && rest == ""))
    ensures ToCommentEnd(text + behind + rest)
      == if behind != "" then |text| + 1 else if text == "" then 0 else |text| - 1
  {
    var s := text + behind + rest;
    if text == "" {
      assert s == behind + rest;
    } else if |s| >= 2 {
      assert s[1..] == text[1..] + behind + rest;
      assert (text + behind)[1..] == text[1..] + behind;
      assert forall i | 0 <= i < |text[1..]| :: text[1..][i] == text[i + 1];
      BlockIsInside(text[1..], behind, rest);
    }
  }

  lemma QuotedLength(quote: char, body: seq<Unit>, tail: string, d: Dialect)
    requires IsQuote(quote, d) && BodyOk(body, quote, d)
    ensures var b := PrintBody(body, quote);
      TokenLength([quote] + (b + tail), d) == |b| + ToClosingQuote(tail, quote, !Escapes(quote, d)) + 2
  {
    var s := [quote] + (PrintBody(body, quote) + tail);
    assert s[1..] == PrintBody(body, quote) + tail;
    BodyIsInside(body, quote, tail, d);
  }

  predicate IsOpen(p: Piece) {
    p.OpenQuoted? || p.OpenDash? || p.OpenHash? || p.OpenBlock?
  }

  /** The scanner moves over a piece that is not a mark in one turn. */
  ghost predicate IsToken(p: Piece, rest: string, d: Dialect) {
    var s := PrintPiece(p) + rest;
    && s != "" && s[0] != '?'
    && (if IsOpen(p) then rest == "" && TokenLength(s, d) >= |s| else TokenLength(s, d) == |PrintPiece(p)|)
  }

  lemma PieceIsToken(p: Piece, rest: string, d: Dialect)
    requires !p.Mark? && PieceOk(p, rest, d)
    ensures IsToken(p, rest, d)
  {
    hide IsToken;
    match p
    case Plain(c) => PlainIsToken(c, rest, d);
    case Quoted(quote, body) => QuotedIsToken(quote, body, rest, d);
    case DashLine(text, end) => DashIsToken(text, end, rest, d);
    case HashLine(text, end) => HashIsToken(text, end, rest, d);
    case Block(text) => BlockIsToken(text, rest, d);
    case OpenQuoted(quote, body, backslash) => OpenQuotedIsToken(quote, body, backslash, d);
    case OpenDash(text) => OpenDashIsToken(text, d);
    case OpenHash(text) => OpenHashIsToken(text, d);
    case OpenBlock(text) => OpenBlockIsToken(text, d);
  }

  lemma PlainIsToken(c: char, rest: string, d: Dialect)
    requires PieceOk(Plain(c), rest, d)
    ensures IsToken(Plain(c), rest, d)
  {
    assert ([c] + rest)[1..] == rest;
  }

  lemma QuotedIsToken(quote: char, body: seq<Unit>, rest: string, d: Dialect)
    requires PieceOk(Quoted(quote, body), rest, d)
    ensures IsToken(Quoted(quote, body), rest, d)
  {
    hide PrintBody;
    hide TokenLength;
    var tail := [quote] + rest;
    assert PrintPiece(Quoted(quote, body)) + rest == [quote] + (PrintBody(body, quote) + tail);
    QuotedLength(quote, body, tail, d);
    assert tail[0] == quote && (rest != "" ==> tail[1] == rest[0]);
  }

  lemma DashIsToken(text: string, end: char, rest: string, d: Dialect)
    requires OneLine(text) && IsLineEnd(end)
    ensures IsToken(DashLine(text, end), rest, d)
  {
    var s := PrintPiece(DashLine(text, end)) + rest;
    assert s[2..] == text + ([end] + rest);
    LineIsInside(text, [end] + rest);
  }

  lemma HashIsToken(text: string, end: char, rest: string, d: Dialect)
    requires d.MySql? && OneLine(text) && IsLineEnd(end)
    ensures IsToken(HashLine(text, end), rest, d)
  {
    var s := PrintPiece(HashLine(text, end)) + rest;
    assert s == ("#" + text) + ([end] + rest);
    LineIsInside("#" + text, [end] + rest);
  }

  lemma BlockIsToken(text: string, rest: string, d: Dialect)
    requires NoEnd(text, "*/")
    ensures IsToken(Block(text), rest, d)
  {
    var s := PrintPiece(Block(text)) + rest;
    assert s[2..] == text + "*/" + rest;
    BlockIsInside(text, "*/", rest);
  }

  lemma OpenQuotedIsToken(quote: char, body: seq<Unit>, backslash: bool, d: Dialect)
    requires PieceOk(OpenQuoted(quote, body, backslash), "", d)
    ensures IsToken(OpenQuoted(quote, body, backslash), "", d)
  {
    hide TokenLength;
    var tail := if backslash then "\\" else "";
    assert PrintPiece(OpenQuoted(quote, body, backslash)) + "" == [quote] + (PrintBody(body, quote) + tail);
    QuotedLength(quote, body, tail, d);
  }

  lemma OpenDashIsToken(text: string, d: Dialect)
    requires OneLine(text)
    ensures IsToken(OpenDash(text), "", d)
  {
    var s := PrintPiece(OpenDash(text)) + "";
    assert s[2..] == text + "";
    LineIsInside(text, "");
  }

  lemma OpenHashIsToken(text: string, d: Dialect)
    requires d.MySql? && OneLine(text)
    ensures IsToken(OpenHash(text), "", d)
  {
    var s := PrintPiece(OpenHash(text)) + "";
    assert s == ("#" + text) + "";
    LineIsInside("#" + text, "");
  }

  lemma OpenBlockIsToken(text: string, d: Dialect)
    requires NoEnd(text, "")
    ensures IsToken(OpenBlock(text), "", d)
  {
    var s := PrintPiece(OpenBlock(text)) + "";
    assert s[2..] == text + "" + "";
    BlockIsInside(text, "", "");
  }

  lemma PieceIsSkipped(p: Piece, rest: string, d: Dialect)
    requires !p.Mark? && PieceOk(p, rest, d)
    ensures FirstMark(PrintPiece(p) + rest, d) == Shifted(FirstMark(rest, d), |PrintPiece(p)|)
  {
    hide FirstMark;
    hide TokenLength;
    hide PieceOk;
    var s := PrintPiece(p) + rest;
    PieceIsToken(p, rest, d);
    if TokenLength(s, d) == |PrintPiece(p)| {
      assert s[|PrintPiece(p)|..] == rest;
      MarkStep(s, |PrintPiece(p)|, rest, d);
    } else {
      NoMarkAhead(s, d);
      NoMarkInNothing(d);
    }
  }

  lemma NoMarkInNothing(d: Dialect)
    ensures FirstMark("", d) == None
  {
  }

  lemma MarkCuts(rest: string, d: Dialect)
    ensures Segments("?" + rest, d) == [""] + Segments(rest, d)
  {
    hide Segments;
    var s := "?" + rest;
    assert FirstMark(s, d) == Some(0);
    CutAt(s, 0, d);
    assert s[..0] == "" && s[0 + 1..] == rest;
  }

  /** The scanners cut a printed text exactly at the pieces that are marks: in both dialects, with
    * or without backslash escapes, and whatever quotes and comments hold. */
  lemma {:induction false} MarksAreMarks(pieces: seq<Piece>, d: Dialect)
    requires Ok(pieces, d)
    ensures Segments(Print(pieces), d) == Cut(pieces)
  {
    hide FirstMark;
    hide Segments;
    hide PieceOk;
    hide PrintPiece;
    if pieces == [] {
      NotCut("", d);
    } else {
      var p, rest := pieces[0], Print(pieces[1..]);
      MarksAreMarks(pieces[1..], d);
      if p.Mark? {
        PrintMark();
        MarkCuts(rest, d);
      } else {
        PieceIsSkipped(p, rest, d);
        SkippedIsAttached(PrintPiece(p), rest, d);
      }
    }
  }

  lemma PrintMark()
    ensures PrintPiece(Mark) == "?"
  {
  }

  // ----- every text ------------------------------------------------------------------------------

  /** The inside of quotes ends here, or with a lone backslash. */
  predicate BodyEnds(s: string, quote: char, d: Dialect) {
    s == "" || (Escapes(quote, d) && s == "\\")
    || (s[0] == quote && !(quote == '\\' && Escapes(quote, d)) && !BeginsWith(s[1..], quote))
  }

  function FirstUnit(s: string, quote: char, d: Dialect): Unit
    requires !BodyEnds(s, quote, d)
  {
    if Escapes(quote, d) && s[0] == '\\' then Pair(s[1]) else if s[0] == quote then Doubled else One(s[0])
  }

  lemma FirstUnitIsOk(s: string, quote: char, d: Dialect)
    requires !BodyEnds(s, quote, d)
    ensures var u := FirstUnit(s, quote, d); var n := |PrintUnit(u, quote)|;
      UnitOk(u, quote, d) && 1 <= n <= |s| && s == PrintUnit(u, quote) + s[n..]
  {
  }

  /** The inside of quotes, up to the closing quote or to the end of the text. */
  lemma {:induction false} SplitBody(s: string, quote: char, d: Dialect)
      returns (body: seq<Unit>, rest: string, backslash: bool)
    ensures BodyOk(body, quote, d) && (backslash ==> Escapes(quote, d) && rest == "")
    ensures s == PrintBody(body, quote) + (if backslash then "\\" else rest)
    ensures rest != "" ==> rest[0] == quote && !BeginsWith(rest[1..], quote)
    decreases |s|
  {
    hide PrintUnit;
    hide UnitOk;
    if BodyEnds(s, quote, d) {
      backslash := Escapes(quote, d) && s == "\\" && quote != '\\';
      return [], if backslash then "" else s, backslash;
    }
    hide BodyEnds;
    hide FirstUnit;
    FirstUnitIsOk(s, quote, d);
    var u := FirstUnit(s, quote, d);
    var others;
    others, rest, backslash := SplitBody(s[|PrintUnit(u, quote)|..], quote, d);
    body := [u] + others;
    assert body[1..] == others;
    assert PrintBody(body, quote) + (if backslash then "\\" else rest)
      == PrintUnit(u, quote) + (PrintBody(others, quote) + (if backslash then "\\" else rest));
  }

  lemma {:induction false} SplitLine(s: string) returns (text: string, rest: string)
    ensures s == text + rest && OneLine(text) && (rest != "" ==> IsLineEnd(rest[0]))
  {
    if s == "" || IsLineEnd(s[0]) {
      return "", s;
    }
    text, rest := SplitLine(s[1..]);
    text := [s[0]] + text;
  }

  lemma {:induction false} SplitBlock(s: string) returns (text: string, closed: bool, rest: string)
    ensures closed ==> s == text + "*/" + rest && NoEnd(text, "*/")
    ensures !closed ==> s == text && NoEnd(text, "")
  {
    if s == "" {
      return "", false, "";
    } else if |s| >= 2 && s[0] == '*' && s[1] == '/' {
      assert s == "" + "*/" + s[2..];
      return "", true, s[2..];
    }
    var later;
    later, closed, rest := SplitBlock(s[1..]);
    text := [s[0]] + later;
    var behind := if closed then "*/" else "";
    assert (text + behind)[1..] == later + behind;
    assert s == [s[0]] + s[1..];
    forall i | 0 <= i < |text|
      ensures !(text[i] == '*' && i + 1 < |text + behind| && (text + behind)[i + 1] == '/')
    {
      if i > 0 {
        assert text[i] == later[i - 1] && (text + behind)[i] == (later + behind)[i - 1];
      }
    }
  }

  /** The first piece of a text, and the rest. */
  lemma FirstPiece(s: string, d: Dialect) returns (p: Piece, rest: string)
    requires s != ""
    ensures s == PrintPiece(p) + rest && PieceOk(p, rest, d)
  {
    if s[0] == '?' {
      p, rest := Mark, s[1..];
    } else if IsQuote(s[0], d) {
      p, rest := FirstQuoted(s, d);
    } else if s[0] == '#' && d.MySql? {
      p, rest := FirstHash(s, d);
    } else if s[0] == '-' && BeginsWith(s[1..], '-') {
      p, rest := FirstDash(s, d);
    } else if s[0] == '/' && BeginsWith(s[1..], '*') {
      var text, closed, r := SplitBlock(s[2..]);
      assert s == "/*" + s[2..];
      p, rest := if closed then Block(text) else OpenBlock(text), if closed then r else "";
    } else {
      p, rest := Plain(s[0]), s[1..];
    }
  }

  lemma FirstHash(s: string, d: Dialect) returns (p: Piece, rest: string)
    requires s != "" && s[0] == '#' && d.MySql?
    ensures s == PrintPiece(p) + rest && PieceOk(p, rest, d)
  {
    var text, r := SplitLine(s[1..]);
    assert s == "#" + s[1..];
    if r == "" {
      return OpenHash(text), "";
    }
    p, rest := HashLine(text, r[0]), r[1..];
  }

  lemma FirstDash(s: string, d: Dialect) returns (p: Piece, rest: string)
    requires |s| >= 2 && s[0] == '-' && s[1] == '-'
    ensures s == PrintPiece(p) + rest && PieceOk(p, rest, d)
  {
    var text, r := SplitLine(s[2..]);
    assert s == "--" + s[2..];
    if r == "" {
      return OpenDash(text), "";
    }
    p, rest := DashLine(text, r[0]), r[1..];
  }

  lemma FirstQuoted(s: string, d: Dialect) returns (p: Piece, rest: string)
    requires s != "" && IsQuote(s[0], d)
    ensures s == PrintPiece(p) + rest && PieceOk(p, rest, d)
  {
    hide BodyOk;
    hide PrintBody;
    var quote := s[0];
    var body, r, backslash := SplitBody(s[1..], quote, d);
    assert s == [quote] + s[1..];
    if r == "" {
      p, rest := OpenQuoted(quote, body, backslash), "";
    } else {
      p, rest := Quoted(quote, body), r[1..];
      assert r == [quote] + rest;
    }
  }

  /** Every text is printed by some pieces, so the scanners are right about every text. */
  lemma {:induction false} EveryTextHasPieces(s: string, d: Dialect) returns (pieces: seq<Piece>)
    ensures Ok(pieces, d) && Print(pieces) == s
    ensures Segments(s, d) == Cut(pieces)
    decreases |s|
  {
    hide PieceOk;
    if s == "" {
      pieces := [];
    } else {
      var p, rest := FirstPiece(s, d);
      PieceHasText(p);
      var others := EveryTextHasPieces(rest, d);
      pieces := [p] + others;
      assert pieces[1..] == others;
    }
    MarksAreMarks(pieces, d);
  }

  lemma PieceHasText(p: Piece)
    ensures PrintPiece(p) != ""
  {
  }
}
