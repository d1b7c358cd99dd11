/** JSON strings by the grammar of section 7 of RFC 8259, with a table of escapes of its own, and
  * what the reader makes of them. */
module JsonGrammar {
  import opened Wire
  import opened Utf8
  import opened Wrappers
  import opened JsonString

  // ----- hexadecimal digits ------------------------------------------------------------------------

  /** The sixteen digits, the letters in both cases, and nothing else. */
  lemma DigitValues()
    ensures forall c: byte | 0x30 <= c <= 0x39 :: HexValue(c) == Some(c - 0x30)
    ensures HexValue(0x41) == HexValue(0x61) == Some(10)
    ensures HexValue(0x42) == HexValue(0x62) == Some(11)
    ensures HexValue(0x43) == HexValue(0x63) == Some(12)
    ensures HexValue(0x44) == HexValue(0x64) == Some(13)
    ensures HexValue(0x45) == HexValue(0x65) == Some(14)
    ensures HexValue(0x46) == HexValue(0x66) == Some(15)
    ensures forall c: byte | HexValue(c).Some? :: 0x30 <= c <= 0x39 || 0x41 <= c <= 0x46 || 0x61 <= c <= 0x66
  {
  }

  /** Letters are written as capitals. */
  lemma CapitalsAreWritten(cp: nat)
    requires cp <= 0xFFFF
    ensures |Hex4(cp)| == 4 && forall i | 0 <= i < 4 :: 0x30 <= Hex4(cp)[i] <= 0x39 || 0x41 <= Hex4(cp)[i] <= 0x46
  {
    var s := Hex4(cp);
    assert s[0] == HexDigit(cp / 4096) && s[1] == HexDigit(cp / 256 % 16) && s[2] == HexDigit(cp / 16 % 16)
      && s[3] == HexDigit(cp % 16);
  }

  /** The same character, a letter perhaps in the other case. */
  predicate SameLetter(c: byte, d: byte) {
    c == d || (0x41 <= c <= 0x5A && d == c + 0x20) || (0x41 <= d <= 0x5A && c == d + 0x20)
  }

  predicate SameLetters(s: bytes, t: bytes) {
    |s| == |t| && forall i | 0 <= i < |s| :: SameLetter(s[i], t[i])
  }

  lemma CaseOfDigit(c: byte, d: byte)
    requires SameLetter(c, d)
    ensures HexValue(c) == HexValue(d)
  {
  }

  /** The case of letters does not change the number. */
  lemma {:induction false} CaseOfNumber(s: bytes, t: bytes)
    requires SameLetters(s, t)
    ensures HexNumber(s) == HexNumber(t)
  {
    hide HexValue;
    if s != [] {
      CaseOfNumber(s[..|s| - 1], t[..|t| - 1]);
      CaseOfDigit(s[|s| - 1], t[|t| - 1]);
    }
  }

  /** Four digits, the first one worth 4096. */
  lemma FourDigits(s: bytes)
    requires |s| == 4 && forall i | 0 <= i < 4 :: HexValue(s[i]).Some?
    ensures HexNumber(s) == Some(4096 * HexValue(s[0]).value + 256 * HexValue(s[1]).value
                                 + 16 * HexValue(s[2]).value + HexValue(s[3]).value)
  {
    hide HexValue;
    assert s[..3][..2] == s[..2] && s[..2][..1] == s[..1] && s[..1][..0] == [];
    assert s[..3][2] == s[2] && s[..2][1] == s[1] && s[..1][0] == s[0];
    assert HexNumber(s[..1]) == Some(HexValue(s[0]).value);
    assert HexNumber(s[..2]) == Some(HexValue(s[0]).value * 16 + HexValue(s[1]).value);
  }

  // ----- the grammar -----------------------------------------------------------------------------

  /** A byte that stands for itself; one of the standard's eight escapes of two characters; four
    * hexadecimal digits; or, beyond the standard, a backslash before any other character. */
  datatype Piece =
    | Raw(c: byte)
    | Quote | Backslash | Slash | Backspace | FormFeed | LineFeed | CarriageReturn | Tab
    | Unicode(digits: bytes)
    | Lenient(c: byte)

  predicate PieceOk(p: Piece) {
    match p
    case Raw(c) => c != 0x22 && c != 0x5C
    case Unicode(digits) => |digits| == 4 && forall i | 0 <= i < 4 :: HexValue(digits[i]).Some?
    case Lenient(c) => c !in [0x22, 0x5C, 0x2F, 0x62, 0x66, 0x6E, 0x72, 0x74, 0x75]
    case _ => true
  }

  predicate Ok(ps: seq<Piece>) {
    forall i | 0 <= i < |ps| :: PieceOk(ps[i])
  }

  function PrintPiece(p: Piece): (s: bytes)
    ensures s != []
  {
    match p
    case Raw(c) => [c]
    case Quote => [0x5C, 0x22]
    case Backslash => [0x5C, 0x5C]
    case Slash => [0x5C, 0x2F]
    case Backspace => [0x5C, 0x62]
    case FormFeed => [0x5C, 0x66]
    case LineFeed => [0x5C, 0x6E]
    case CarriageReturn => [0x5C, 0x72]
    case Tab => [0x5C, 0x74]
    case Unicode(digits) => [0x5C, 0x75] + digits
    case Lenient(c) => [0x5C, c]
  }

  function Print(ps: seq<Piece>): bytes {
    if ps == [] then [] else PrintPiece(ps[0]) + Print(ps[1..])
  }

  function CodeOf(digits: bytes): nat
    requires PieceOk(Unicode(digits))
  {
    4096 * HexValue(digits[0]).value + 256 * HexValue(digits[1]).value
    + 16 * HexValue(digits[2]).value + HexValue(digits[3]).value
  }

  lemma CodeBound(digits: bytes)
    requires PieceOk(Unicode(digits))
    ensures CodeOf(digits) <= 0xFFFF
  {
    DigitBound(digits[0]);
    DigitBound(digits[1]);
    DigitBound(digits[2]);
    DigitBound(digits[3]);
  }

  /** The bytes that a piece stands for; each `\\u` escape by itself. */
  function Denoted(p: Piece): bytes
    requires PieceOk(p)
  {
    match p
    case Raw(c) => [c]
    case Quote => [0x22]
    case Backslash => [0x5C]
    case Slash => [0x2F]
    case Backspace => [0x08]
    case FormFeed => [0x0C]
    case LineFeed => [0x0A]
    case CarriageReturn => [0x0D]
    case Tab => [0x09]
    case Unicode(digits) => CodeBound(digits); EncodeUtf8(CodeOf(digits))
    case Lenient(c) => [c]
  }

  function Text(ps: seq<Piece>): bytes
    requires Ok(ps)
  {
    if ps == [] then [] else Denoted(ps[0]) + Text(ps[1..])
  }

  // ----- the reader against the grammar ----------------------------------------------------------

  lemma UnicodePiece(digits: bytes, t: bytes)
    requires PieceOk(Unicode(digits)) && t != []
    ensures Unescape([0x75] + digits + t) == Some((Denoted(Unicode(digits)), t))
  {
    hide HexNumber;
    hide HexValue;
    var s := [0x75] + digits + t;
    assert s[1..5] == digits && s[5..] == t;
    FourDigits(digits);
    CodeBound(digits);
  }

  lemma LetterPiece(c: byte, t: bytes)
    requires c != 0x75
    ensures Unescape([c] + t) == Some(([if c == 0x6E then 0x0A else if c == 0x74 then 0x09 else if c == 0x72 then 0x0D
                                        else if c == 0x62 then 0x08 else if c == 0x66 then 0x0C else c], t))
  {
    assert ([c] + t)[1..] == t;
  }

  lemma PieceIsRead(p: Piece, t: bytes)
    requires PieceOk(p) && t != []
    ensures Unquoted(PrintPiece(p) + t) == Joined(Denoted(p), Unquoted(t))
  {
    hide Joined;
    hide CodeOf;
    hide Text;
    hide SameSpelling;
    hide WrittenOne;
    hide Unquoted;
    hide Unescape;
    match p
    case Raw(c) => PlainIsRead(c, t);
    case Unicode(digits) =>
      UnicodePiece(digits, t);
      EscapeIsRead([0x75] + digits, Denoted(p), t);
      assert PrintPiece(p) + t == [BACKSLASH] + ([0x75] + digits) + t;
    case _ =>
      var c := PrintPiece(p)[1];
      LetterPiece(c, t);
      EscapeIsRead([c], Denoted(p), t);
      assert PrintPiece(p) + t == [BACKSLASH] + [c] + t;
  }

  /** Every string of the grammar is read as the bytes that it stands for, to just past its closing
    * quote. */
  lemma {:induction false} StringIsRead(ps: seq<Piece>, rest: bytes)
    requires Ok(ps)
    ensures Unquoted(Print(ps) + [QUOTE] + rest) == Some((Text(ps), rest))
  {
    var tail := [QUOTE] + rest;
    assert Print(ps) + [QUOTE] + rest == Print(ps) + tail;
    if ps == [] {
      assert [] + tail == tail && tail[1..] == rest && tail[..0] == [];
    } else {
      hide Unquoted;
      hide PrintPiece;
      hide Denoted;
      StringIsRead(ps[1..], rest);
      var later := Print(ps[1..]);
      assert later + [QUOTE] + rest == later + tail;
      Assoc(PrintPiece(ps[0]), later, tail);
      PieceIsRead(ps[0], later + tail);
    }
  }

  predicate IsTwoCharacterEscape(p: Piece) {
    !p.Raw? && !p.Unicode?
  }

  lemma LastPiece(p: Piece)
    requires PieceOk(p)
    ensures Unquoted(PrintPiece(p)) == if IsTwoCharacterEscape(p) then Some((Denoted(p), [])) else None
  {
    hide Unquoted;
    hide Unescape;
    match p
    case Raw(c) => NothingCloses(c);
    case Unicode(digits) => DigitsAtEnd(digits);
    case _ =>
      var c := PrintPiece(p)[1];
      LetterPiece(c, []);
      assert [c] + [] == [c] && PrintPiece(p) == [BACKSLASH] + [c] + [];
      EscapeIsRead([c], Denoted(p), []);
      UnquotedEnd();
      JoinedEnd(Denoted(p));
  }

  lemma NothingCloses(c: byte)
    requires c != 0x22 && c != 0x5C
    ensures Unquoted([c]) == None
  {
    assert [c][1..] == [];
  }

  lemma DigitsAtEnd(digits: bytes)
    requires |digits| == 4
    ensures Unquoted([0x5C, 0x75] + digits) == None
  {
    var s := [0x5C, 0x75] + digits;
    assert s[0 + 1..] == [0x75] + digits && FirstStop(s) == Some(0);
    assert Unescape([0x75] + digits) == None;
  }

  lemma TextOf(p: Piece)
    requires PieceOk(p)
    ensures Text([p]) == Denoted(p) && Print([p]) == PrintPiece(p)
  {
    hide Denoted;
    hide PrintPiece;
    assert [p][1..] == [] && Text([]) == [];
  }

  /** Without a closing quote a string is accepted if and only if it is empty or ends with an escape
    * of two characters. */
  lemma {:induction false} OpenExactly(ps: seq<Piece>)
    requires Ok(ps)
    ensures Unquoted(Print(ps))
      == if ps == [] || IsTwoCharacterEscape(ps[|ps| - 1]) then Some((Text(ps), [])) else None
  {
    hide PieceOk;
    hide IsTwoCharacterEscape;
    if ps == [] {
      assert Print(ps) == [];
    } else if |ps| == 1 {
      hide Unquoted;
      assert ps == [ps[0]];
      TextOf(ps[0]);
      LastPiece(ps[0]);
    } else {
      hide Unquoted;
      OpenExactly(ps[1..]);
      var tail := Print(ps[1..]);
      assert tail == PrintPiece(ps[1]) + Print(ps[1..][1..]);
      PieceIsRead(ps[0], tail);
    }
  }

  // ----- spelling --------------------------------------------------------------------------------

  /** The same pieces, with the letters of `\\u` escapes in any case. */
  predicate SameSpelling(ps: seq<Piece>, qs: seq<Piece>) {
    |ps| == |qs| && forall i | 0 <= i < |ps| ::
      ps[i] == qs[i] || (ps[i].Unicode? && qs[i].Unicode? && SameLetters(ps[i].digits, qs[i].digits))
  }

  lemma CaseOfPiece(p: Piece, q: Piece)
    requires PieceOk(p) && p.Unicode? && q.Unicode? && SameLetters(p.digits, q.digits)
    ensures PieceOk(q) && Denoted(p) == Denoted(q)
  {
    hide HexValue;
    forall i | 0 <= i < 4 ensures HexValue(p.digits[i]) == HexValue(q.digits[i]) {
      CaseOfDigit(p.digits[i], q.digits[i]);
    }
  }

  lemma {:induction false} SpellingIsFree(ps: seq<Piece>, qs: seq<Piece>)
    requires Ok(ps) && SameSpelling(ps, qs)
    ensures Ok(qs) && Text(qs) == Text(ps)
  {
    hide PieceOk;
    hide Denoted;
    hide SameLetters;
    if ps != [] {
      if ps[0] != qs[0] {
        CaseOfPiece(ps[0], qs[0]);
      }
      SpellingIsFree(ps[1..], qs[1..]);
      assert forall i | 0 < i < |qs| :: qs[i] == qs[1..][i - 1];
    }
  }

  /** What the writer writes, as pieces. */
  function WrittenOne(cp: nat): seq<Piece>
    requires IsScalar(cp)
  {
    if cp == 0x22 then [Quote]
    else if cp == 0x5C then [Backslash]
    else if cp == 0x08 then [Backspace]
    else if cp == 0x09 then [Tab]
    else if cp == 0x0A then [LineFeed]
    else if cp == 0x0C then [FormFeed]
    else if cp == 0x0D then [CarriageReturn]
    else if 0x20 <= cp < 0x80 then [Raw(cp)]
    else if cp <= 0xFFFF then [Unicode(Hex4(cp))]
    else [Unicode(Hex4(Lead(cp))), Unicode(Hex4(Trail(cp)))]
  }

  function WrittenPieces(cps: seq<nat>): seq<Piece>
    requires Scalars(cps)
  {
    if cps == [] then [] else WrittenOne(cps[0]) + WrittenPieces(cps[1..])
  }

  lemma Hex4IsOk(cp: nat)
    requires cp <= 0xFFFF
    ensures PieceOk(Unicode(Hex4(cp))) && CodeOf(Hex4(cp)) == cp
  {
    hide HexValue;
    hide HexNumber;
    DigitRoundTrip(cp / 4096);
    DigitRoundTrip(cp / 256 % 16);
    DigitRoundTrip(cp / 16 % 16);
    DigitRoundTrip(cp % 16);
    FourDigits(Hex4(cp));
    Hex4RoundTrip(cp);
  }

  lemma PrintTwo(p: Piece, q: Piece)
    ensures Print([p]) == PrintPiece(p) && Print([p, q]) == PrintPiece(p) + PrintPiece(q)
  {
    assert [p, q][1..] == [q] && [p][1..] == [];
    assert Print([q]) == PrintPiece(q) + [];
  }

  lemma OneIsWritten(cp: nat)
    requires IsScalar(cp)
    ensures Ok(WrittenOne(cp)) && Print(WrittenOne(cp)) == EscapeOne(cp)
  {
    hide Print;
    hide Hex4;
    var ps := WrittenOne(cp);
    PrintTwo(ps[0], ps[|ps| - 1]);
    if cp > 0xFFFF {
      Hex4IsOk(Lead(cp));
      Hex4IsOk(Trail(cp));
    } else {
      Hex4IsOk(cp);
      if cp < 0x20 {
        SmallHex4(cp);
      }
    }
  }

  lemma SmallHex4(cp: nat)
    requires cp < 0x80
    ensures Hex4(cp) == [0x30, 0x30, HexDigit(cp / 16), HexDigit(cp % 16)]
  {
  }

  lemma {:induction false} PrintConcat(ps: seq<Piece>, qs: seq<Piece>)
    ensures Print(ps + qs) == Print(ps) + Print(qs)
  {
    if ps == [] {
      assert ps + qs == qs;
    } else {
      assert (ps + qs)[1..] == ps[1..] + qs;
      PrintConcat(ps[1..], qs);
    }
  }

  lemma {:induction false} WrittenIsPrinted(cps: seq<nat>)
    requires Scalars(cps)
    ensures Ok(WrittenPieces(cps)) && Print(WrittenPieces(cps)) == EscapedText(cps)
  {
    hide WrittenOne;
    hide EscapeOne;
    hide PieceOk;
    if cps != [] {
      OneIsWritten(cps[0]);
      WrittenIsPrinted(cps[1..]);
      PrintConcat(WrittenOne(cps[0]), WrittenPieces(cps[1..]));
    }
  }

  // ----- what is written, by the standard ----------------------------------------------------------

  /** UTF-16 (section 2.2 of RFC 2781): two units, a high and a low half, for a character beyond
    * the first 65536. */
  function FromUtf16(units: seq<nat>): Option<seq<nat>> {
    if units == [] then Some([])
    else if units[0] < 0xD800 || units[0] > 0xDFFF then Later(units[0], FromUtf16(units[1..]))
    else if units[0] < 0xDC00 && |units| >= 2 && 0xDC00 <= units[1] <= 0xDFFF then
      Later(0x1_0000 + (units[0] - 0xD800) * 0x400 + (units[1] - 0xDC00), FromUtf16(units[2..]))
    else None
  }

  function Later(cp: nat, r: Option<seq<nat>>): Option<seq<nat>> {
    if r.None? then None else Some([cp] + r.value)
  }

  /** The unit that a piece stands for; a `\u` escape gives one by its number. */
  function UnitOf(p: Piece): nat
    requires PieceOk(p)
  {
    match p
    case Raw(c) => c
    case Quote => '"' as nat
    case Backslash => '\\' as nat
    case Slash => '/' as nat
    case Backspace => 8
    case FormFeed => 12
    case LineFeed => 10
    case CarriageReturn => 13
    case Tab => 9
    case Unicode(digits) => CodeOf(digits)
    case Lenient(c) => c
  }

  function Units(ps: seq<Piece>): (units: seq<nat>)
    requires Ok(ps)
    ensures |units| == |ps|
  {
    if ps == [] then [] else [UnitOf(ps[0])] + Units(ps[1..])
  }

  /** Only what every JSON reader knows: characters that stand for themselves are ASCII and not
    * control characters. */
  predicate Standard(p: Piece) {
    (p.Raw? ==> 0x20 <= p.c < 0x80) && !p.Lenient?
  }

  lemma {:induction false} UnitsConcat(ps: seq<Piece>, qs: seq<Piece>)
    requires Ok(ps) && Ok(qs)
    ensures Ok(ps + qs) && Units(ps + qs) == Units(ps) + Units(qs)
  {
    hide UnitOf;
    hide PieceOk;
    if ps == [] {
      assert ps + qs == qs && [] + Units(qs) == Units(qs);
    } else {
      assert (ps + qs)[1..] == ps[1..] + qs;
      UnitsConcat(ps[1..], qs);
      assert [UnitOf(ps[0])] + (Units(ps[1..]) + Units(qs)) == [UnitOf(ps[0])] + Units(ps[1..]) + Units(qs);
    }
  }

  lemma OneHasUnits(cp: nat)
    requires IsScalar(cp)
    ensures var ps := WrittenOne(cp);
      && Ok(ps) && (forall i | 0 <= i < |ps| :: Standard(ps[i]))
      && Units(ps) == if cp > 0xFFFF then [Lead(cp), Trail(cp)] else [cp]
  {
    hide Hex4;
    OneIsWritten(cp);
    var ps := WrittenOne(cp);
    if cp > 0xFFFF {
      Hex4IsOk(Lead(cp));
      Hex4IsOk(Trail(cp));
      assert ps[1..] == [ps[1]] && ps[1..][1..] == [];
      assert Units(ps[1..]) == [Trail(cp)] + [];
    } else {
      Hex4IsOk(cp);
      assert ps[1..] == [];
      assert Units(ps) == [UnitOf(ps[0])] + [];
      SingleUnit(cp);
    }
  }

  lemma SingleUnit(cp: nat)
    requires IsScalar(cp) && cp <= 0xFFFF
    requires PieceOk(Unicode(Hex4(cp))) && CodeOf(Hex4(cp)) == cp
    ensures var p := WrittenOne(cp)[0]; PieceOk(p) && Standard(p) && UnitOf(p) == cp
  {
    hide Hex4;
    hide CodeOf;
  }

  lemma OneDenotes(cp: nat, others: seq<nat>)
    requires IsScalar(cp) && Ok(WrittenOne(cp))
    ensures FromUtf16(Units(WrittenOne(cp)) + others) == Later(cp, FromUtf16(others))
  {
    hide FromUtf16;
    hide WrittenOne;
    hide Units;
    OneHasUnits(cp);
    if cp > 0xFFFF {
      PairDenotes(cp, others);
    } else {
      SingleDenotes(cp, others);
    }
  }

  lemma SingleDenotes(cp: nat, others: seq<nat>)
    requires cp < 0xD800 || cp > 0xDFFF
    ensures FromUtf16([cp] + others) == Later(cp, FromUtf16(others))
  {
    assert ([cp] + others)[1..] == others;
  }

  lemma PairDenotes(cp: nat, others: seq<nat>)
    requires 0x1_0000 <= cp <= 0x10_FFFF
    ensures FromUtf16([Lead(cp), Trail(cp)] + others) == Later(cp, FromUtf16(others))
  {
    assert ([Lead(cp), Trail(cp)] + others)[2..] == others;
  }

  /** The text that is written for any characters consists of standard pieces which, read as
    * UTF-16, denote exactly those characters. */
  lemma {:induction false} WrittenDenotes(cps: seq<nat>) returns (ps: seq<Piece>)
    requires Scalars(cps)
    ensures Ok(ps) && Print(ps) == EscapedText(cps) && (forall i | 0 <= i < |ps| :: Standard(ps[i]))
    ensures FromUtf16(Units(ps)) == Some(cps)
  {
    hide WrittenOne;
    hide PieceOk;
    hide EscapeOne;
    hide FromUtf16;
    if cps == [] {
      ps := [];
      NoUnits();
    } else {
      var first := WrittenOne(cps[0]);
      var others := WrittenDenotes(cps[1..]);
      OneIsWritten(cps[0]);
      ps := first + others;
      PrintConcat(first, others);
      UnitsConcat(first, others);
      OneHasUnits(cps[0]);
      OneDenotes(cps[0], Units(others));
      assert [cps[0]] + cps[1..] == cps;
    }
  }

  lemma NoUnits()
    ensures FromUtf16([]) == Some([])
  {
  }

  /** The round trip with the letters of the written escapes put in any case. */
  lemma AnyCaseRoundTrip(cps: seq<nat>, qs: seq<Piece>, rest: bytes)
    requires Scalars(cps) && SameSpelling(WrittenPieces(cps), qs)
    ensures var back := Unquoted(Print(qs) + [QUOTE] + rest);
      && back.Some? && back.value.1 == rest
      && (back.value.0 == Utf8Text(cps) <==> forall i | 0 <= i < |cps| :: cps[i] <= 0xFFFF)
  {
    hide Unquoted;
    WrittenIsPrinted(cps);
    SpellingIsFree(WrittenPieces(cps), qs);
    StringIsRead(qs, rest);
    StringIsRead(WrittenPieces(cps), rest);
    TextIsRead(cps, rest);
    ReadBackLength(cps);
  }

  // ----- every accepted string -------------------------------------------------------------------

  lemma PlainPieces(s: bytes) returns (ps: seq<Piece>)
    requires forall i | 0 <= i < |s| :: s[i] != 0x22 && s[i] != 0x5C
    ensures Ok(ps) && Print(ps) == s
  {
    if s == [] {
      return [];
    }
    var others := PlainPieces(s[1..]);
    ps := [Raw(s[0])] + others;
    assert ps[1..] == others && s == [s[0]] + s[1..];
  }

  /** An escape that the reader takes. */
  lemma EscapeHasPiece(s: bytes) returns (p: Piece)
    requires Unescape(s).Some?
    ensures PieceOk(p) && [BACKSLASH] + s == PrintPiece(p) + Unescape(s).value.1
  {
    if s[0] == 0x75 {
      DigitsOfNumber(s[1..5]);
      p := Unicode(s[1..5]);
      assert s == [0x75] + s[1..5] + s[5..];
    } else {
      p := if s[0] == 0x22 then Quote else if s[0] == 0x5C then Backslash else if s[0] == 0x2F then Slash
           else if s[0] == 0x62 then Backspace else if s[0] == 0x66 then FormFeed else if s[0] == 0x6E then LineFeed
           else if s[0] == 0x72 then CarriageReturn else if s[0] == 0x74 then Tab else Lenient(s[0]);
      assert s == [s[0]] + s[1..];
    }
  }

  lemma {:induction false} DigitsOfNumber(s: bytes)
    requires HexNumber(s).Some?
    ensures forall i | 0 <= i < |s| :: HexValue(s[i]).Some?
  {
    hide HexValue;
    if s != [] {
      DigitsOfNumber(s[..|s| - 1]);
      assert forall i | 0 <= i < |s| - 1 :: s[i] == s[..|s| - 1][i];
    }
  }

  lemma {:induction false} StopIsFirst(s: bytes)
    requires FirstStop(s).Some?
    ensures forall i | 0 <= i < FirstStop(s).value :: s[i] != 0x22 && s[i] != 0x5C
  {
    if FirstStop(s).value > 0 {
      StopIsFirst(s[1..]);
      assert forall i | 0 < i < |s| :: s[i] == s[1..][i - 1];
    }
  }

  /** What an accepted text has behind its pieces. */
  function Closing(s: bytes): bytes
    requires Unquoted(s).Some?
  {
    if EndsOpen(s) then [] else [QUOTE] + Unquoted(s).value.1
  }

  lemma InFront(plain: seq<Piece>, p: Piece, others: seq<Piece>, close: bytes)
    ensures Print(plain + ([p] + others)) + close == Print(plain) + (PrintPiece(p) + (Print(others) + close))
  {
    hide Print;
    PrintConcat(plain, [p] + others);
    PrintFirst(p, others);
    Assoc(PrintPiece(p), Print(others), close);
    Assoc(Print(plain), PrintPiece(p) + Print(others), close);
  }

  lemma PrintFirst(p: Piece, others: seq<Piece>)
    ensures Print([p] + others) == PrintPiece(p) + Print(others)
  {
    assert ([p] + others)[1..] == others;
  }

  /** One string of plain characters and an escape at a time. */
  lemma ClosingStep(s: bytes)
    requires s != [] && Unquoted(s).Some?
    ensures FirstStop(s).Some?
    ensures var k := FirstStop(s).value;
      if s[k] == QUOTE then Closing(s) == s[k..]
      else
        && s[k] == BACKSLASH && Unescape(s[k + 1..]).Some?
        && var rest := Unescape(s[k + 1..]).value.1;
        |rest| < |s| && Unquoted(rest).Some? && Closing(s) == Closing(rest)
  {
    FirstOfAccepted(s);
    hide Unquoted;
    hide EndsOpen;
    hide Unescape;
    var k := FirstStop(s).value;
    assert s[k..] == [s[k]] + s[k + 1..];
  }

  lemma {:induction false} AcceptedIsSpelled(s: bytes) returns (ps: seq<Piece>)
    requires Unquoted(s).Some?
    ensures Ok(ps) && s == Print(ps) + Closing(s)
    decreases |s|
  {
    hide Unquoted;
    hide Unescape;
    hide PieceOk;
    hide PrintPiece;
    hide Closing;
    if s == [] {
      ps := [];
      NothingIsSpelled();
      return;
    }
    ClosingStep(s);
    StopIsFirst(s);
    var k := FirstStop(s).value;
    hide FirstStop;
    hide Print;
    var plain := PlainPieces(s[..k]);
    if s[k] == QUOTE {
      ps := plain;
      SplitAtQuote(s, k);
    } else {
      var p := EscapeHasPiece(s[k + 1..]);
      var rest := Unescape(s[k + 1..]).value.1;
      var others := AcceptedIsSpelled(rest);
      ps := plain + ([p] + others);
      EscapeInFront(s, k, plain, p, rest, others, Closing(s));
    }
  }

  lemma EscapeInFront(s: bytes, k: nat, plain: seq<Piece>, p: Piece, rest: bytes, others: seq<Piece>, close: bytes)
    requires k < |s| && Print(plain) == s[..k]
    requires [s[k]] + s[k + 1..] == PrintPiece(p) + rest && rest == Print(others) + close
    ensures s == Print(plain + ([p] + others)) + close
  {
    hide Print;
    hide PrintPiece;
    InFront(plain, p, others, close);
    SplitAtStop(s, k);
  }

  lemma NothingIsSpelled()
    ensures Unquoted([]).Some? && Closing([]) == []
  {
  }

  lemma SplitAtQuote(s: bytes, k: nat)
    requires k < |s|
    ensures s == s[..k] + s[k..]
  {
  }

  lemma SplitAtStop(s: bytes, k: nat)
    requires k < |s|
    ensures s == s[..k] + ([s[k]] + s[k + 1..])
  {
  }

  /** Every accepted string is one of the grammar, and is closed or ends behind its last escape. */
  lemma AcceptedHasPieces(s: bytes) returns (ps: seq<Piece>)
    requires Unquoted(s).Some?
    ensures Ok(ps)
    ensures if EndsOpen(s) then s == Print(ps) else s == Print(ps) + [QUOTE] + Unquoted(s).value.1
  {
    hide Unquoted;
    hide EndsOpen;
    ps := AcceptedIsSpelled(s);
    Assoc(Print(ps), [QUOTE], Unquoted(s).value.1);
    assert Print(ps) + [] == Print(ps);
  }
}
