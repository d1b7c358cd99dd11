/** Finding the placeholders of an SQL text: hand-written scanners that skip literals, quoted
  * names and comments. */
module SqlScanner {
  import opened Wrappers

  /** Which of the two scanners: MySQL's, with or without backslash escapes, or PostgreSQL's,
    * which knows no backslash escapes, no back-quoted names and no `#` comments. */
  datatype Dialect = MySql(raw: bool) | PostgreSql {
    predicate Raw() {
      PostgreSql? || raw
    }
  }

  // ----- the scanners as functions of the text ahead ---------------------------------------------

  /** Inside a quoted part: the distance to the closing quote, or to the end of the text.  A
    * doubled quote, and unless disabled a backslash with its successor, does not close. */
  function ToClosingQuote(s: string, quote: char, raw: bool): (n: nat)
    ensures n <= |s|
    ensures n < |s| ==> s[n] == quote
  {
    if s == [] then 0
    else if !raw && s[0] == '\\' && |s| == 1 then 1
    else if (!raw && s[0] == '\\') || (s[0] == quote && |s| > 1 && s[1] == quote)
      then 2 + ToClosingQuote(s[2..], quote, raw)
    else if s[0] == quote then 0
    else 1 + ToClosingQuote(s[1..], quote, raw)
  }

  /** The distance to the end of the line. */
  function ToLineEnd(s: string): (n: nat)
    ensures n <= |s|
  {
    if s == [] || s[0] == '\n' || s[0] == '\r' then 0 else 1 + ToLineEnd(s[1..])
  }

  /** Inside a block comment: the distance to its last character, or past it if it never ends. */
  function ToCommentEnd(s: string): (n: nat)
    ensures n <= |s|
  {
    if |s| < 2 then 0 else if s[0] == '*' && s[1] == '/' then 1 else 1 + ToCommentEnd(s[1..])
  }

  /** How far one turn of the scanner's loop moves. */
  function TokenLength(s: string, d: Dialect): (n: nat)
    requires s != []
    ensures n >= 1
  {
    match s[0]
    case '\'' => ToClosingQuote(s[1..], '\'', d.Raw()) + 2
    case '"' => ToClosingQuote(s[1..], '"', d.Raw()) + 2
    case '`' => if d.MySql? then ToClosingQuote(s[1..], '`', true) + 2 else 1
    case '-' => if |s| > 1 && s[1] == '-' then ToLineEnd(s[2..]) + 3 else 1
    case '#' => if d.MySql? then ToLineEnd(s) + 1 else 1
    case '/' => if |s| > 1 && s[1] == '*' then ToCommentEnd(s[2..]) + 3 else 1
    case _ => 1
  }

  function Shifted(r: Option<nat>, distance: nat): Option<nat> {
    if r.Some? then Some(r.value + distance) else None
  }

  lemma ShiftedByZero(r: Option<nat>)
    ensures Shifted(r, 0) == r
  {
  }

  lemma ShiftedTwice(r: Option<nat>, m: nat, n: nat)
    ensures Shifted(Shifted(r, m), n) == Shifted(r, m + n)
  {
  }

  lemma ShiftedBack(r: Option<nat>, m: nat, n: nat)
    requires Shifted(r, m) == Some(n)
    ensures r == Some(n - m)
  {
  }

  /** The first `?` outside literals, quoted names and comments. */
  function FirstMark(s: string, d: Dialect): (r: Option<nat>)
    ensures r.Some? ==> r.value < |s| && s[r.value] == '?'
    decreases |s|
  {
    if s == [] then None
    else if s[0] == '?' then Some(0)
    else
      var n := TokenLength(s, d);
      if n >= |s| then None else Shifted(FirstMark(s[n..], d), n)
  }

  /** One turn of the scanner, with the rest of the text named. */
  lemma MarkStep(s: string, n: nat, rest: string, d: Dialect)
    requires s != [] && s[0] != '?' && n == TokenLength(s, d) <= |s| && s[n..] == rest
    ensures FirstMark(s, d) == Shifted(FirstMark(rest, d), n)
  {
  }

  lemma NoMarkAhead(s: string, d: Dialect)
    requires s != [] && s[0] != '?' && TokenLength(s, d) >= |s|
    ensures FirstMark(s, d) == None
  {
  }

  lemma MarkBound(s: string, d: Dialect)
    requires s != [] && FirstMark(s, d).Some? && FirstMark(s, d) != Some(0)
    ensures s[0] != '?'
    ensures TokenLength(s, d) <= FirstMark(s, d).value
  {
  }

  // ----- the scanners as loops ---------------------------------------------------------------------

  /** One character of a quoted part, or an escaped pair. */
  lemma QuotedStep(sql: string, i: nat, quote: char, raw: bool)
    requires i < |sql|
    ensures var n := ToClosingQuote(sql[i..], quote, raw);
      if !raw && sql[i] == '\\' then
        if i + 1 < |sql| then n == 2 + ToClosingQuote(sql[i + 2..], quote, raw)
        else n == 1 + ToClosingQuote(sql[i + 1..], quote, raw)
      else if sql[i] == quote then
        if i + 1 < |sql| && sql[i + 1] == quote then n == 2 + ToClosingQuote(sql[i + 2..], quote, raw) else n == 0
      else n == 1 + ToClosingQuote(sql[i + 1..], quote, raw)
  {
    assert sql[i..][1..] == sql[i + 1..];
    if i + 1 < |sql| {
      assert sql[i..][2..] == sql[i + 2..];
    }
  }

  method SkipQuoted(sql: string, start: nat, quote: char, raw: bool) returns (i: nat)
    requires start <= |sql|
    ensures i == start + ToClosingQuote(sql[start..], quote, raw)
  {
    hide ToClosingQuote;
    i := start;
    while i < |sql|
      invariant start <= i <= |sql|
      invariant i + ToClosingQuote(sql[i..], quote, raw) == start + ToClosingQuote(sql[start..], quote, raw)
    {
      QuotedStep(sql, i, quote, raw);
      if !raw && sql[i] == '\\' {
        i := i + if i + 1 < |sql| then 2 else 1;
        continue;
      }
      if sql[i] == quote {
        if i + 1 < |sql| && sql[i + 1] == quote {
          i := i + 2;
          continue;
        }
        break;
      }
      i := i + 1;
    }
  }

  method SkipLine(sql: string, start: nat) returns (i: nat)
    requires start <= |sql|
    ensures i == start + ToLineEnd(sql[start..])
  {
    i := start;
    while i < |sql| && sql[i] != '\n' && sql[i] != '\r'
      invariant start <= i <= |sql|
      invariant i + ToLineEnd(sql[i..]) == start + ToLineEnd(sql[start..])
    {
      i := i + 1;
    }
  }

  method SkipComment(sql: string, start: nat) returns (i: nat)
    requires start <= |sql|
    ensures i == start + ToCommentEnd(sql[start..])
  {
    i := start;
    while i + 1 < |sql| && !(sql[i] == '*' && sql[i + 1] == '/')
      invariant start <= i <= |sql|
      invariant i + ToCommentEnd(sql[i..]) == start + ToCommentEnd(sql[start..])
    {
      i := i + 1;
    }
    if i + 1 < |sql| {
      i := i + 1;
    }
  }

  /** The `switch` of `find_next_placeholder` or of `find_next_postgresql_placeholder` and the loop's own increment. */
  method SkipToken(sql: string, start: nat, d: Dialect) returns (i: nat)
    requires start < |sql|
    ensures i == start + TokenLength(sql[start..], d)
  {
    i := start;
    match sql[i] {
      case '\'' =>
        i := SkipQuoted(sql, start + 1, '\'', d.Raw());
      case '"' =>
        i := SkipQuoted(sql, start + 1, '"', d.Raw());
      case '`' =>
        if d.MySql? {
          i := SkipQuoted(sql, start + 1, '`', true);
        }
      case '-' =>
        if i + 1 < |sql| && sql[i + 1] == '-' {
          i := SkipLine(sql, start + 2);
        }
      case '#' =>
        if d.MySql? {
          i := SkipLine(sql, start);
        }
      case '/' =>
        if i + 1 < |sql| && sql[i + 1] == '*' {
          i := SkipComment(sql, start + 2);
        }
      case _ =>
    }
    i := i + 1;
  }

  /** The first mark at or after `i`, as a position in the whole text. */
  function Ahead(sql: string, i: nat, d: Dialect): Option<nat> {
    if i < |sql| then Shifted(FirstMark(sql[i..], d), i) else None
  }

  lemma AheadAtMark(sql: string, i: nat, d: Dialect)
    requires i < |sql| && sql[i] == '?'
    ensures Ahead(sql, i, d) == Some(i)
  {
  }

  lemma AheadStep(sql: string, i: nat, d: Dialect)
    requires i < |sql| && sql[i] != '?'
    ensures Ahead(sql, i, d) == Ahead(sql, i + TokenLength(sql[i..], d), d)
  {
    hide FirstMark;
    hide TokenLength;
    var n := TokenLength(sql[i..], d);
    if i + n < |sql| {
      assert sql[i..][n..] == sql[i + n..];
      MarkStep(sql[i..], n, sql[i + n..], d);
      ShiftedTwice(FirstMark(sql[i + n..], d), n, i);
    } else {
      NoMarkAhead(sql[i..], d);
    }
  }

  /** `find_next_placeholder` and `find_next_postgresql_placeholder`; `None` is `npos`. */
  method FindNextPlaceholder(sql: string, start: nat, d: Dialect) returns (r: Option<nat>)
    ensures r == Ahead(sql, start, d)
  {
    hide FirstMark;
    hide TokenLength;
    var i := start;
    while i < |sql|
      invariant start <= i && Ahead(sql, start, d) == Ahead(sql, i, d)
    {
      if sql[i] == '?' {
        AheadAtMark(sql, i, d);
        return Some(i);
      }
      AheadStep(sql, i, d);
      i := SkipToken(sql, i, d);
    }
    r := None;
  }

  // ----- the text cut at its marks -----------------------------------------------------------------

  /** The text cut at its top-level marks. */
  function Segments(s: string, d: Dialect): (segments: seq<string>)
    ensures |segments| >= 1
    decreases |s|
  {
    var k := FirstMark(s, d);
    if k.None? then [s] else [s[..k.value]] + Segments(s[k.value + 1..], d)
  }

  lemma CutAt(s: string, k: nat, d: Dialect)
    requires FirstMark(s, d) == Some(k)
    ensures Segments(s, d) == [s[..k]] + Segments(s[k + 1..], d)
  {
    hide FirstMark;
  }

  lemma NotCut(s: string, d: Dialect)
    requires s == "" || FirstMark(s, d) == None
    ensures Segments(s, d) == [s]
  {
  }

  /** `p` in front of the first piece. */
  function Attach(p: string, pieces: seq<string>): seq<string>
    requires pieces != []
  {
    [p + pieces[0]] + pieces[1..]
  }

  /** Text that the scanner passes over is part of the first piece. */
  lemma SkippedIsAttached(p: string, rest: string, d: Dialect)
    requires FirstMark(p + rest, d) == Shifted(FirstMark(rest, d), |p|)
    ensures Segments(p + rest, d) == Attach(p, Segments(rest, d))
  {
    hide FirstMark;
    hide Segments;
    hide Attach;
    var k := FirstMark(rest, d);
    if k.Some? {
      CutBehind(p, rest, k.value, d);
    } else {
      CutNowhere(p, rest, d);
    }
  }

  lemma CutNowhere(p: string, rest: string, d: Dialect)
    requires FirstMark(rest, d) == None && FirstMark(p + rest, d) == None
    ensures Segments(p + rest, d) == Attach(p, Segments(rest, d))
  {
    hide FirstMark;
    hide Segments;
    NotCut(rest, d);
    NotCut(p + rest, d);
    assert [rest][1..] == [];
  }

  lemma CutBehind(p: string, rest: string, k: nat, d: Dialect)
    requires FirstMark(rest, d) == Some(k) && FirstMark(p + rest, d) == Some(|p| + k)
    ensures Segments(p + rest, d) == Attach(p, Segments(rest, d))
  {
    hide FirstMark;
    hide Segments;
    var others := Segments(rest[k + 1..], d);
    CutAt(rest, k, d);
    CutAt(p + rest, |p| + k, d);
    SplitAround(p, rest, k);
    AttachFirst(p, rest[..k], others);
  }

  lemma AttachFirst(p: string, first: string, others: seq<string>)
    ensures Attach(p, [first] + others) == [p + first] + others
  {
  }

  lemma SplitAround(p: string, rest: string, k: nat)
    requires k < |rest|
    ensures (p + rest)[..|p| + k] == p + rest[..k]
    ensures (p + rest)[|p| + k + 1..] == rest[k + 1..]
  {
  }

  /** seg0 + v0 + seg1 + ... + segn */
  function Interleave(segments: seq<string>, values: seq<string>): string
    requires |segments| == |values| + 1
  {
    if values == [] then segments[0] else segments[0] + values[0] + Interleave(segments[1..], values[1..])
  }

  /** The marks themselves as values. */
  function Marks(n: nat): (m: seq<string>)
    ensures |m| == n
  {
    if n == 0 then [] else ["?"] + Marks(n - 1)
  }

  /** The pieces are the text: putting the marks back restores it. */
  lemma {:induction false} SegmentsCoverText(s: string, d: Dialect)
    ensures var segments := Segments(s, d); Interleave(segments, Marks(|segments| - 1)) == s
    decreases |s|
  {
    hide FirstMark;
    var k := FirstMark(s, d);
    if k.Some? {
      var rest := s[k.value + 1..];
      var later := Segments(rest, d);
      SegmentsCoverText(rest, d);
      CoverStep(s[..k.value], later, rest);
      assert s == s[..k.value] + "?" + rest;
    }
  }

  lemma CoverStep(first: string, later: seq<string>, rest: string)
    requires |later| >= 1 && Interleave(later, Marks(|later| - 1)) == rest
    ensures Interleave([first] + later, Marks(|later|)) == first + "?" + rest
  {
    assert ([first] + later)[1..] == later;
    assert Marks(|later|)[1..] == Marks(|later| - 1);
  }

  // ----- what surrounds a mark ---------------------------------------------------------------------

  lemma SplitAt(s: string, t: string, n: nat)
    requires n <= |s|
    ensures (s + t)[n..] == s[n..] + t
  {
  }

  /** A closing quote is found whatever follows, except one more quote right behind it. */
  lemma {:induction false} ClosingQuoteStays(s: string, u: string, t: string, quote: char, raw: bool)
    requires ToClosingQuote(s + u, quote, raw) < |s|
    requires ToClosingQuote(s + u, quote, raw) + 1 < |s| || t == [] || t[0] != quote
    ensures ToClosingQuote(s + t, quote, raw) == ToClosingQuote(s + u, quote, raw)
  {
    if !raw && s[0] == '\\' && |s + u| == 1 {
    } else if (!raw && s[0] == '\\') || (s[0] == quote && |s + u| > 1 && (s + u)[1] == quote) {
      SplitAt(s, u, 2);
      SplitAt(s, t, 2);
      ClosingQuoteStays(s[2..], u, t, quote, raw);
    } else if s[0] != quote {
      SplitAt(s, u, 1);
      SplitAt(s, t, 1);
      ClosingQuoteStays(s[1..], u, t, quote, raw);
    }
  }

  lemma {:induction false} LineEndStays(s: string, u: string, t: string)
    requires ToLineEnd(s + u) < |s|
    ensures ToLineEnd(s + t) == ToLineEnd(s + u)
  {
    if s[0] != '\n' && s[0] != '\r' {
      SplitAt(s, u, 1);
      SplitAt(s, t, 1);
      LineEndStays(s[1..], u, t);
    }
  }

  lemma {:induction false} CommentEndStays(s: string, u: string, t: string)
    requires ToCommentEnd(s + u) < |s| && u != []
    ensures ToCommentEnd(s + t) == ToCommentEnd(s + u)
  {
    assert |s| >= 2;
    if !(s[0] == '*' && s[1] == '/') {
      SplitAt(s, u, 1);
      SplitAt(s, t, 1);
      CommentEndStays(s[1..], u, t);
    }
  }

  /** A quote right behind a closing quote reopens the quoted part. */
  lemma {:induction false} ClosingQuoteMerges(s: string, u: string, t: string, quote: char, raw: bool)
    requires ToClosingQuote(s + u, quote, raw) + 1 == |s|
    requires u == [] || u[0] != quote
    requires t != [] && t[0] == quote
    ensures ToClosingQuote(s + t, quote, raw) == |s| + 1 + ToClosingQuote(t[1..], quote, raw)
  {
    if (!raw && s[0] == '\\') || (s[0] == quote && |s| > 1 && s[1] == quote) {
      SplitAt(s, u, 2);
      SplitAt(s, t, 2);
      ClosingQuoteMerges(s[2..], u, t, quote, raw);
    } else if s[0] == quote {
      assert (s + t)[2..] == t[1..];
    } else {
      SplitAt(s, u, 1);
      SplitAt(s, t, 1);
      ClosingQuoteMerges(s[1..], u, t, quote, raw);
    }
  }

  /** What a mark may be replaced by: nothing that could change the token before it, except that
    * a literal may touch a literal and a minus sign may follow a minus sign. */
  predicate Fits(t: string) {
    t == [] || (t[0] != '"' && t[0] != '`' && t[0] != '*')
  }

  /** A minus sign behind a minus sign begins a comment. */
  predicate Joins(s: string, t: string) {
    s != [] && s[|s| - 1] == '-' && t != [] && t[0] == '-'
  }

  /** A literal ends where `s` ends, and another one follows. */
  predicate Touches(s: string, n: nat, t: string)
    requires s != []
  {
    n == |s| && s[0] == '\'' && t != [] && t[0] == '\''
  }

  lemma TokenStays(s: string, u: string, t: string, d: Dialect)
    requires s != [] && TokenLength(s + u, d) <= |s| && u != [] && u[0] == '?'
    requires TokenLength(s + u, d) == |s| ==> Fits(t) && !Joins(s, t) && !Touches(s, |s|, t)
    ensures TokenLength(s + t, d) == TokenLength(s + u, d)
  {
    hide ToClosingQuote;
    hide ToLineEnd;
    hide ToCommentEnd;
    hide Shifted;
    SplitAt(s, u, 1);
    SplitAt(s, t, 1);
    match s[0]
    case '\'' => ClosingQuoteStays(s[1..], u, t, '\'', d.Raw());
    case '"' => ClosingQuoteStays(s[1..], u, t, '"', d.Raw());
    case '`' =>
      if d.MySql? {
        ClosingQuoteStays(s[1..], u, t, '`', true);
      }
    case '-' =>
      if |s| > 1 && s[1] == '-' {
        SplitAt(s, u, 2);
        SplitAt(s, t, 2);
        LineEndStays(s[2..], u, t);
      }
    case '#' =>
      if d.MySql? {
        LineEndStays(s, u, t);
      }
    case '/' =>
      if |s| > 1 && s[1] == '*' {
        SplitAt(s, u, 2);
        SplitAt(s, t, 2);
        CommentEndStays(s[2..], u, t);
      }
    case _ =>
  }

  /** Two literals that touch are one token, which ends where the second one ends. */
  lemma TouchingLiterals(s: string, u: string, t: string, d: Dialect)
    requires s != [] && s[0] == '\'' && TokenLength(s + u, d) == |s|
    requires (u == [] || u[0] != '\'') && t != [] && t[0] == '\''
    ensures FirstMark(s + t, d) == Shifted(FirstMark(t, d), |s|)
  {
    SplitAt(s, u, 1);
    SplitAt(s, t, 1);
    ClosingQuoteMerges(s[1..], u, t, '\'', d.Raw());
    OneTokenMore(s, t, TokenLength(t, d), d);
  }

  lemma OneTokenMore(s: string, t: string, n: nat, d: Dialect)
    requires s != [] && t != [] && s[0] != '?' && t[0] != '?'
    requires n == TokenLength(t, d) && |s| + n == TokenLength(s + t, d)
    ensures FirstMark(s + t, d) == Shifted(FirstMark(t, d), |s|)
  {
    hide FirstMark;
    hide TokenLength;
    if n <= |t| {
      assert (s + t)[|s| + n..] == t[n..];
      MarkStep(s + t, |s| + n, t[n..], d);
      MarkStep(t, n, t[n..], d);
      ShiftedTwice(FirstMark(t[n..], d), n, |s|);
    } else {
      NoMarkAhead(s + t, d);
      NoMarkAhead(t, d);
    }
  }

  /** Scanning up to a mark and going on with other text in its place. */
  lemma {:induction false} ScanPast(s: string, u: string, t: string, d: Dialect)
    requires u != [] && u[0] == '?' && FirstMark(s + u, d) == Some(|s|) && Fits(t) && !Joins(s, t)
    ensures FirstMark(s + t, d) == Shifted(FirstMark(t, d), |s|)
    decreases |s|
  {
    hide FirstMark;
    hide TokenLength;
    if s == [] {
      assert s + t == t;
      ShiftedByZero(FirstMark(t, d));
    } else {
      MarkBound(s + u, d);
      assert (s + u)[0] == s[0];
      var n := TokenLength(s + u, d);
      if Touches(s, n, t) {
        TouchingLiterals(s, u, t, d);
      } else {
        TokenStays(s, u, t, d);
        ScanSteps(s, u, t, n, d);
        ShiftedBack(FirstMark(s[n..] + u, d), n, |s|);
        ScanPast(s[n..], u, t, d);
        ShiftedTwice(FirstMark(t, d), |s| - n, n);
      }
    }
  }

  lemma ScanSteps(s: string, u: string, t: string, n: nat, d: Dialect)
    requires s != [] && s[0] != '?' && n <= |s|
    requires n == TokenLength(s + u, d) && n == TokenLength(s + t, d)
    ensures FirstMark(s + u, d) == Shifted(FirstMark(s[n..] + u, d), n)
    ensures FirstMark(s + t, d) == Shifted(FirstMark(s[n..] + t, d), n)
  {
    hide FirstMark;
    hide TokenLength;
    SplitAt(s, u, n);
    SplitAt(s, t, n);
    MarkStep(s + u, n, s[n..] + u, d);
    MarkStep(s + t, n, s[n..] + t, d);
  }

  /** A token of several characters that does not end with the text does not end in a minus. */
  lemma LastOfToken(s: string, n: nat, d: Dialect)
    requires s != [] && n == TokenLength(s, d) && 1 < n < |s|
    ensures s[n - 1] != '-'
  {
    if s[0] == '/' {
      CommentLast(s[2..]);
    } else if s[0] == '#' {
      LineLast(s);
    } else if s[0] == '-' {
      LineLast(s[2..]);
    }
  }

  lemma {:induction false} LineLast(s: string)
    requires ToLineEnd(s) < |s|
    ensures s[ToLineEnd(s)] != '-'
  {
    if s[0] != '\n' && s[0] != '\r' {
      LineLast(s[1..]);
    }
  }

  lemma {:induction false} CommentLast(s: string)
    requires ToCommentEnd(s) + 1 < |s|
    ensures s[ToCommentEnd(s)] == '/'
  {
    if !(s[0] == '*' && s[1] == '/') {
      CommentLast(s[1..]);
    }
  }

  /** A minus sign right before a mark is met by the scanner, whatever takes the mark's place. */
  lemma {:induction false} MinusIsMet(s: string, u: string, t: string, d: Dialect)
    requires u != [] && u[0] == '?' && FirstMark(s + u, d) == Some(|s|)
    requires s != [] && s[|s| - 1] == '-'
    ensures FirstMark(s + t, d) == Shifted(FirstMark("-" + t, d), |s| - 1)
    decreases |s|
  {
    hide FirstMark;
    hide TokenLength;
    if |s| == 1 {
      assert s == "-";
      ShiftedByZero(FirstMark("-" + t, d));
    } else {
      MarkBound(s + u, d);
      assert (s + u)[0] == s[0];
      var n := TokenLength(s + u, d);
      if n == |s| {
        LastOfToken(s + u, n, d);
        assert false;
      } else {
        TokenStays(s, u, t, d);
        ScanSteps(s, u, t, n, d);
        ShiftedBack(FirstMark(s[n..] + u, d), n, |s|);
        MinusIsMet(s[n..], u, t, d);
        ShiftedTwice(FirstMark("-" + t, d), |s| - n - 1, n);
      }
    }
  }

  // ----- plain text ----------------------------------------------------------------------------

  /** Not the beginning of anything for the scanner. */
  predicate PlainChar(c: char, d: Dialect) {
    c != '?' && c != '\'' && c != '"' && c != '-' && c != '/' && (d.MySql? ==> c != '`' && c != '#')
  }

  predicate Plain(s: string, d: Dialect) {
    forall i | 0 <= i < |s| :: PlainChar(s[i], d)
  }

  predicate NumberChar(c: char) {
    '0' <= c <= '9' || 'a' <= c <= 'z' || 'A' <= c <= 'Z' || c == '.' || c == ','
  }

  /** How numbers are printed: perhaps a minus sign, then digits, a point or letters. */
  predicate NumberText(s: string) {
    && s != [] && (NumberChar(s[0]) || (s[0] == '-' && |s| > 1))
    && forall i | 1 <= i < |s| :: NumberChar(s[i])
  }

  lemma OneCharIsSkipped(s: string, d: Dialect)
    requires s != [] && (PlainChar(s[0], d) || (s[0] == '-' && |s| > 1 && s[1] != '-'))
    ensures FirstMark(s, d) == Shifted(FirstMark(s[1..], d), 1)
  {
    MarkStep(s, 1, s[1..], d);
  }

  lemma {:induction false} PlainIsSkipped(p: string, rest: string, d: Dialect)
    requires Plain(p, d)
    ensures FirstMark(p + rest, d) == Shifted(FirstMark(rest, d), |p|)
  {
    hide FirstMark;
    hide TokenLength;
    if p == [] {
      assert [] + rest == rest;
      ShiftedByZero(FirstMark(rest, d));
    } else {
      PlainIsSkipped(p[1..], rest, d);
      SplitAt(p, rest, 1);
      OneCharIsSkipped(p + rest, d);
      ShiftedTwice(FirstMark(rest, d), |p| - 1, 1);
    }
  }

  lemma NumberIsSkipped(t: string, rest: string, d: Dialect)
    requires NumberText(t)
    ensures FirstMark(t + rest, d) == Shifted(FirstMark(rest, d), |t|)
  {
    hide FirstMark;
    PlainIsSkipped(t[1..], rest, d);
    SplitAt(t, rest, 1);
    OneCharIsSkipped(t + rest, d);
    ShiftedTwice(FirstMark(rest, d), |t| - 1, 1);
  }

  // ----- literals ----------------------------------------------------------------------------------

  /** One character of `escape_mysql_string`. */
  function EscapeChar(c: char, raw: bool): string {
    if raw then if c == '\'' then "''" else [c]
    else
      match c
      case '\0' => "\\0"
      case '\n' => "\\n"
      case '\r' => "\\r"
      case '\\' => "\\\\"
      case '\'' => "\\'"
      case '"' => "\\\""
      case '\U{1A}' => "\\Z"
      case _ => [c]
  }

  function EscapeChars(v: string, raw: bool): string {
    if v == [] then [] else EscapeChar(v[0], raw) + EscapeChars(v[1..], raw)
  }

  function Escaped(v: string, raw: bool): string {
    "'" + EscapeChars(v, raw) + "'"
  }

  lemma {:induction false} EscapeCharsAppend(v: string, c: char, raw: bool)
    ensures EscapeChars(v + [c], raw) == EscapeChars(v, raw) + EscapeChar(c, raw)
  {
    hide EscapeChar;
    if v == [] {
      assert (v + [c])[1..] == [];
    } else {
      EscapeCharsAppend(v[1..], c, raw);
      assert (v + [c])[1..] == v[1..] + [c];
    }
  }

  /** The scanner passes over one escaped character without mistaking it for the end. */
  lemma EscapedCharIsInside(c: char, s: string, raw: bool)
    requires s != []
    ensures ToClosingQuote(EscapeChar(c, raw) + s, '\'', raw) == |EscapeChar(c, raw)| + ToClosingQuote(s, '\'', raw)
  {
    var e := EscapeChar(c, raw);
    if |e| == 1 {
      PlainIsInside(e[0], s, raw);
    } else {
      PairIsInside(e[0], e[1], s, raw);
      assert e == [e[0], e[1]];
    }
  }

  lemma PlainIsInside(c: char, s: string, raw: bool)
    requires s != [] && c != '\'' && (raw || c != '\\')
    ensures ToClosingQuote([c] + s, '\'', raw) == 1 + ToClosingQuote(s, '\'', raw)
  {
    assert ([c] + s)[1..] == s;
  }

  lemma PairIsInside(c: char, d: char, s: string, raw: bool)
    requires (!raw && c == '\\') || (c == '\'' && d == '\'')
    ensures ToClosingQuote([c, d] + s, '\'', raw) == 2 + ToClosingQuote(s, '\'', raw)
  {
    assert ([c, d] + s)[2..] == s;
  }

  lemma {:induction false} EscapedCharsAreInside(v: string, rest: string, raw: bool)
    ensures ToClosingQuote(EscapeChars(v, raw) + "'" + rest, '\'', raw) == |EscapeChars(v, raw)|
      <==> rest == [] || rest[0] != '\''
  {
    var tail := EscapeChars(v, raw) + "'" + rest;
    if v == [] {
      assert tail == "'" + rest;
    } else {
      var later := EscapeChars(v[1..], raw) + "'" + rest;
      assert tail == EscapeChar(v[0], raw) + later;
      EscapedCharIsInside(v[0], later, raw);
      EscapedCharsAreInside(v[1..], rest, raw);
    }
  }

  /** Whatever the value, its literal is one token that ends at its own last quote: exactly if no
    * further quote follows. */
  lemma LiteralIsOneToken(v: string, rest: string, d: Dialect)
    ensures TokenLength(Escaped(v, d.Raw()) + rest, d) == |Escaped(v, d.Raw())| <==> rest == [] || rest[0] != '\''
  {
    hide EscapeChars;
    EscapedCharsAreInside(v, rest, d.Raw());
    assert (Escaped(v, d.Raw()) + rest)[1..] == EscapeChars(v, d.Raw()) + "'" + rest;
  }

  /** A literal hides every mark in its value and none behind it, even if a literal follows. */
  lemma LiteralIsSkipped(v: string, rest: string, d: Dialect)
    ensures FirstMark(Escaped(v, d.Raw()) + rest, d) == Shifted(FirstMark(rest, d), |Escaped(v, d.Raw())|)
  {
    var e := Escaped(v, d.Raw());
    LiteralIsOneToken(v, rest, d);
    LiteralIsOneToken(v, [], d);
    if rest == [] || rest[0] != '\'' {
      assert (e + rest)[|e|..] == rest;
      MarkStep(e + rest, |e|, rest, d);
    } else {
      TouchingLiterals(e, [], rest, d);
    }
  }
}
