/** Skipping a JSON value without parsing it: white space, comments, strings and bracketed
  * values.  The functions take the text ahead of the cursor and give the text that is left;
  * `None` is an exception. */
module JsonSkip {
  import opened Wire
  import opened Utf8
  import opened Wrappers

  const QUOTE: byte := 0x22
  const STAR: byte := 0x2A
  const COMMA: byte := 0x2C
  const SLASH: byte := 0x2F
  const COLON: byte := 0x3A
  const NEWLINE: byte := 0x0A
  const BACKSLASH: byte := 0x5C

  datatype Bracket = Square | Curly {
    function Open(): byte {
      if this == Square then 0x5B else 0x7B
    }

    function Close(): byte {
      if this == Square then 0x5D else 0x7D
    }
  }

  // ----- the skippers as functions of the text ahead --------------------------------------------------------

  function ToLineEnd(s: bytes): (r: bytes)
    ensures |r| <= |s|
  {
    if s == [] || s[0] == NEWLINE then s else ToLineEnd(s[1..])
  }

  /** A star is read together with the character behind it. */
  function BehindBlock(s: bytes): (r: bytes)
    ensures |r| <= |s|
  {
    if s == [] then []
    else if s[0] != STAR then BehindBlock(s[1..])
    else if |s| == 1 then []
    else if s[1] == SLASH then s[2..]
    else BehindBlock(s[2..])
  }

  /** `skip_comment`, at a slash */
  function SkipComment(s: bytes): (r: Option<bytes>)
    requires s != []
    ensures r.Some? ==> |r.value| < |s|
  {
    if |s| == 1 then None
    else if s[1] == SLASH then Some(ToLineEnd(s[2..]))
    else if s[1] == STAR then Some(BehindBlock(s[2..]))
    else None
  }

  function SkipWs(s: bytes): (r: Option<bytes>)
    decreases |s|
  {
    if s == [] then Some([])
    else if s[0] < 33 then SkipWs(s[1..])
    else if s[0] == SLASH then
      var c := SkipComment(s);
      if c.None? then None else SkipWs(c.value)
    else Some(s)
  }

  /** Inside a string. */
  function BehindString(s: bytes): (r: bytes)
    ensures |r| <= |s|
  {
    if s == [] then []
    else if s[0] == QUOTE then s[1..]
    else if s[0] == BACKSLASH then if |s| == 1 then [] else BehindString(s[2..])
    else BehindString(s[1..])
  }

  /** `skip_string`, at its opening quote */
  function SkipString(s: bytes): (r: bytes)
    requires s != []
    ensures |r| < |s|
  {
    BehindString(s[1..])
  }

  /** The loop of `skip_until_closed` with `depth` brackets of the kind still open. */
  function BehindClosed(s: bytes, b: Bracket, depth: nat): Option<bytes>
    decreases |s|
  {
    if s == [] || depth == 0 then Some(s)
    else if s[0] == SLASH then
      var c := SkipComment(s);
      if c.None? then None else BehindClosed(c.value, b, depth)
    else if s[0] == QUOTE then BehindClosed(SkipString(s), b, depth)
    else if s[0] == b.Open() then BehindClosed(s[1..], b, depth + 1)
    else if s[0] == b.Close() then BehindClosed(s[1..], b, depth - 1)
    else BehindClosed(s[1..], b, depth)
  }

  predicate IsDelimiter(c: byte) {
    c == COMMA || c == 0x7D || c == 0x5D
  }

  /** The loop of `skip_object_value`. */
  function BehindValue(s: bytes): Option<bytes>
    decreases |s|
  {
    if s == [] then Some([])
    else if s[0] == 0x7B then BehindClosed(s[1..], Curly, 1)
    else if s[0] == 0x5B then BehindClosed(s[1..], Square, 1)
    else if s[0] == QUOTE then Some(SkipString(s))
    else if s[0] == SLASH then
      var c := SkipComment(s);
      if c.None? then None else BehindValue(c.value)
    else if IsDelimiter(s[0]) then Some(s)
    else BehindValue(s[1..])
  }

  function SkipObjectValue(s: bytes): Option<bytes> {
    var r := SkipWs(s);
    if r.None? then None else BehindValue(r.value)
  }

  // ----- the skippers as loops over a cursor ---------------------------------------------------------------------

  /** The cursor that a skipper leaves, against the text that its function leaves. */
  ghost predicate Leaves(text: bytes, r: Option<nat>, spec: Option<bytes>) {
    if spec.None? then r.None? else r.Some? && r.value <= |text| && text[r.value..] == spec.value
  }

  method SkipCommentAt(text: bytes, start: nat) returns (r: Option<nat>)
    requires start < |text|
    ensures Leaves(text, r, SkipComment(text[start..]))
    ensures r.Some? ==> r.value > start
  {
    hide SkipWs;
    var it := start + 1;
    if it == |text| {
      return None;
    }
    assert text[start..][1] == text[it] && text[start..][2..] == text[it + 1..];
    if text[it] == SLASH {
      it := it + 1;
      while it != |text| && text[it] != NEWLINE
        invariant start + 2 <= it <= |text|
        invariant ToLineEnd(text[start + 2..]) == ToLineEnd(text[it..])
      {
        assert text[it..][1..] == text[it + 1..];
        it := it + 1;
      }
    } else if text[it] == STAR {
      it := it + 1;
      while it != |text|
        invariant start + 2 <= it <= |text|
        invariant BehindBlock(text[start + 2..]) == BehindBlock(text[it..])
        decreases |text| - it
      {
        ghost var ahead := text[it..];
        assert ahead[1..] == text[it + 1..];
        if text[it] == STAR {
          it := it + 1;
          if it == |text| {
            break;
          }
          assert ahead[1] == text[it] && ahead[2..] == text[it + 1..];
          if text[it] == SLASH {
            it := it + 1;
            return Some(it);
          }
        }
        it := it + 1;
      }
    } else {
      return None;
    }
    r := Some(it);
  }

  method SkipWsAt(text: bytes, start: nat) returns (r: Option<nat>)
    requires start <= |text|
    ensures Leaves(text, r, SkipWs(text[start..]))
    ensures r.Some? ==> r.value >= start
  {
    hide SkipComment;
    var it := start;
    while it != |text|
      invariant start <= it <= |text| && SkipWs(text[start..]) == SkipWs(text[it..])
      decreases |text| - it
    {
      assert text[it..][1..] == text[it + 1..];
      if text[it] < 33 {
        it := it + 1;
      } else if text[it] == SLASH {
        var next := SkipCommentAt(text, it);
        if next.None? {
          return None;
        }
        it := next.value;
      } else {
        break;
      }
    }
    r := Some(it);
  }

  method SkipStringAt(text: bytes, start: nat) returns (it: nat)
    requires start < |text|
    ensures start < it <= |text| && text[it..] == SkipString(text[start..])
  {
    it := start + 1;
    assert text[start..][1..] == text[it..];
    while it < |text|
      invariant start < it <= |text| && BehindString(text[start + 1..]) == BehindString(text[it..])
      decreases |text| - it
    {
      ghost var ahead := text[it..];
      assert ahead[1..] == text[it + 1..];
      if text[it] == QUOTE {
        it := it + 1;
        return;
      } else if text[it] == BACKSLASH {
        it := it + 1;
        if it == |text| {
          break;
        }
        assert ahead[2..] == text[it + 1..];
      }
      it := it + 1;
    }
  }

  method SkipUntilClosed(text: bytes, start: nat, b: Bracket) returns (r: Option<nat>)
    requires start < |text|
    ensures Leaves(text, r, BehindClosed(text[start + 1..], b, 1))
    ensures r.Some? ==> r.value > start
  {
    hide SkipComment;
    hide SkipString;
    var it := start + 1;
    var openCount, closeCount := 1, 0;
    while it < |text| && openCount > closeCount
      invariant start < it <= |text| && 0 <= closeCount <= openCount
      invariant BehindClosed(text[start + 1..], b, 1) == BehindClosed(text[it..], b, openCount - closeCount)
      decreases |text| - it
    {
      assert text[it..][1..] == text[it + 1..];
      var c := text[it];
      if c == SLASH {
        var next := SkipCommentAt(text, it);
        if next.None? {
          return None;
        }
        it := next.value;
      } else if c == QUOTE {
        it := SkipStringAt(text, it);
      } else if c == b.Open() {
        openCount := openCount + 1;
        it := it + 1;
      } else if c == b.Close() {
        closeCount := closeCount + 1;
        it := it + 1;
      } else {
        it := it + 1;
      }
    }
    r := Some(it);
  }

  method SkipObjectValueAt(text: bytes, start: nat) returns (r: Option<nat>)
    requires start <= |text|
    ensures Leaves(text, r, SkipObjectValue(text[start..]))
  {
    hide SkipComment;
    hide SkipString;
    hide BehindClosed;
    hide SkipWs;
    r := SkipWsAt(text, start);
    if r.None? {
      return;
    }
    var it := r.value;
    while it != |text|
      invariant it <= |text| && SkipObjectValue(text[start..]) == BehindValue(text[it..])
      decreases |text| - it
    {
      assert text[it..][1..] == text[it + 1..];
      var c := text[it];
      if c == 0x7B {
        r := SkipUntilClosed(text, it, Curly);
        return;
      } else if c == 0x5B {
        r := SkipUntilClosed(text, it, Square);
        return;
      } else if c == QUOTE {
        it := SkipStringAt(text, it);
        return Some(it);
      } else if c == SLASH {
        r := SkipCommentAt(text, it);
        if r.None? {
          return;
        }
        it := r.value;
      } else if IsDelimiter(c) {
        break;
      } else {
        it := it + 1;
      }
    }
    r := Some(it);
  }

  // ----- printed values --------------------------------------------------------------------------------------------

  datatype Blank = Char(c: byte) | Line(text: bytes) | Block(body: bytes) {
    function Print(): bytes {
      match this
      case Char(c) => [c]
      case Line(text) => [SLASH, SLASH] + text + [NEWLINE]
      case Block(body) => [SLASH, STAR] + body + [STAR, SLASH]
    }
  }

  type Space = seq<Blank>

  datatype Json =
    | Literal(text: bytes)
    | Text(body: bytes)
    | Array(start: Space, items: seq<Item>)
    | Object(start: Space, members: seq<Item>)

  /** An element, or a member with its key, and the white space around every part. */
  datatype Item = Item(before: Space, key: bytes, colon: Space, behind: Space, value: Json, after: Space)

  function PrintSpace(w: Space): bytes {
    if w == [] then [] else w[0].Print() + PrintSpace(w[1..])
  }

  function PrintString(body: bytes): bytes {
    [QUOTE] + body + [QUOTE]
  }

  function Print(v: Json): bytes {
    match v
    case Literal(text) => text
    case Text(body) => PrintString(body)
    case Array(start, items) => [Square.Open()] + PrintSpace(start) + PrintItems(items, false) + [Square.Close()]
    case Object(start, members) => [Curly.Open()] + PrintSpace(start) + PrintItems(members, true) + [Curly.Close()]
  }

  function PrintKey(i: Item): bytes {
    PrintString(i.key) + PrintSpace(i.colon) + [COLON] + PrintSpace(i.behind)
  }

  function PrintItem(i: Item, keyed: bool): bytes {
    PrintSpace(i.before) + (if keyed then PrintKey(i) else []) + Print(i.value) + PrintSpace(i.after)
  }

  function PrintItems(items: seq<Item>, keyed: bool): bytes {
    if items == [] then []
    else PrintItem(items[0], keyed) + (if |items| > 1 then [COMMA] else []) + PrintItems(items[1..], keyed)
  }

  /** The stars at the end of a comment's body. */
  function TrailingStars(body: bytes): nat {
    if body == [] || body[|body| - 1] != STAR then 0 else 1 + TrailingStars(body[..|body| - 1])
  }

  predicate NoBlockEnd(body: bytes) {
    forall i | 0 <= i < |body| - 1 :: !(body[i] == STAR && body[i + 1] == SLASH)
  }

  predicate BlankOk(b: Blank) {
    match b
    case Char(c) => c < 33
    case Line(text) => NEWLINE !in text
    case Block(body) => NoBlockEnd(body) && TrailingStars(body) % 2 == 0
  }

  predicate SpaceOk(w: Space) {
    forall i | 0 <= i < |w| :: BlankOk(w[i])
  }

  /** Quotes are escaped, and every backslash escapes something. */
  predicate BodyOk(body: bytes) {
    if body == [] then true
    else if body[0] == BACKSLASH then |body| >= 2 && BodyOk(body[2..])
    else body[0] != QUOTE && BodyOk(body[1..])
  }

  predicate LiteralChar(c: byte) {
    c >= 33 && c != QUOTE && c != SLASH && c != COMMA && c != 0x5B && c != 0x5D && c != 0x7B && c != 0x7D
  }

  predicate JsonOk(v: Json) {
    match v
    case Literal(text) => text != [] && forall i | 0 <= i < |text| :: LiteralChar(text[i])
    case Text(body) => BodyOk(body)
    case Array(start, items) => SpaceOk(start) && forall i | 0 <= i < |items| :: ItemOk(items[i])
    case Object(start, members) => SpaceOk(start) && forall i | 0 <= i < |members| :: ItemOk(members[i])
  }

  predicate ItemOk(i: Item) {
    SpaceOk(i.before) && BodyOk(i.key) && SpaceOk(i.colon) && SpaceOk(i.behind) && JsonOk(i.value) && SpaceOk(i.after)
  }

  // ----- comments ---------------------------------------------------------------------------------------------------

  lemma {:induction false} StarsOfConcat(a: bytes, b: bytes)
    ensures TrailingStars(a + b) == if TrailingStars(b) < |b| then TrailingStars(b) else |b| + TrailingStars(a)
    ensures TrailingStars(b) <= |b|
  {
    if b == [] {
      assert a + b == a;
    } else {
      var n := |b| - 1;
      assert (a + b)[..|a + b| - 1] == a + b[..n];
      StarsOfConcat(a, b[..n]);
    }
  }

  lemma {:induction false} BlockShrinks(s: bytes)
    requires s != []
    ensures |BehindBlock(s)| < |s|
  {
    if s[0] != STAR && |s| > 1 {
      BlockShrinks(s[1..]);
    } else if |s| > 2 && s[1] != SLASH {
      BlockShrinks(s[2..]);
    }
  }

  /** A block comment is skipped exactly, neither less nor more, if and only if the stars in front
    * of its closing star are even in number: the scanner reads a star together with the next
    * character, so an odd one hides the end. */
  lemma {:induction false} BlockCommentSkipped(body: bytes, rest: bytes)
    requires NoBlockEnd(body) && rest != []
    ensures BehindBlock(body + [STAR, SLASH] + rest) == rest <==> TrailingStars(body) % 2 == 0
    ensures BehindBlock(body + [STAR, SLASH] + []) == []
  {
    var s := body + [STAR, SLASH] + rest;
    if body == [] {
      assert s[2..] == rest;
      assert body + [STAR, SLASH] + [] == [STAR, SLASH];
    } else if body[0] != STAR {
      OneLess(body, rest);
      BlockCommentSkipped(body[1..], rest);
    } else if |body| == 1 {
      assert s[2..] == [SLASH] + rest && ([SLASH] + rest)[1..] == rest;
      BlockShrinks(rest);
      OneStar(body);
    } else {
      TwoLess(body, rest);
      BlockCommentSkipped(body[2..], rest);
    }
  }

  lemma OneStar(body: bytes)
    requires body == [STAR]
    ensures TrailingStars(body) == 1
    ensures BehindBlock(body + [STAR, SLASH] + []) == []
  {
    assert body[..0] == [];
    var s := body + [STAR, SLASH] + [];
    assert s[2..] == [SLASH];
  }

  lemma OneLess(body: bytes, rest: bytes)
    requires body != [] && body[0] != STAR && NoBlockEnd(body)
    ensures NoBlockEnd(body[1..]) && TrailingStars(body) == TrailingStars(body[1..])
    ensures BehindBlock(body + [STAR, SLASH] + rest) == BehindBlock(body[1..] + [STAR, SLASH] + rest)
    ensures BehindBlock(body + [STAR, SLASH] + []) == BehindBlock(body[1..] + [STAR, SLASH] + [])
  {
    assert body == [body[0]] + body[1..];
    StarsOfConcat([body[0]], body[1..]);
    assert TrailingStars([body[0]]) == 0;
    assert forall i | 0 <= i < |body[1..]| :: body[1..][i] == body[i + 1];
    assert (body + [STAR, SLASH] + rest)[1..] == body[1..] + [STAR, SLASH] + rest;
    assert (body + [STAR, SLASH] + [])[1..] == body[1..] + [STAR, SLASH] + [];
  }

  lemma TwoLess(body: bytes, rest: bytes)
    requires |body| >= 2 && body[0] == STAR && NoBlockEnd(body)
    ensures NoBlockEnd(body[2..]) && TrailingStars(body) % 2 == TrailingStars(body[2..]) % 2
    ensures BehindBlock(body + [STAR, SLASH] + rest) == BehindBlock(body[2..] + [STAR, SLASH] + rest)
    ensures BehindBlock(body + [STAR, SLASH] + []) == BehindBlock(body[2..] + [STAR, SLASH] + [])
  {
    assert body == body[..2] + body[2..];
    StarsOfConcat(body[..2], body[2..]);
    StarThen(body[..2]);
    assert forall i | 0 <= i < |body[2..]| :: body[2..][i] == body[i + 2];
    StarPair(body, rest);
    StarPair(body, []);
  }

  lemma StarThen(two: bytes)
    requires |two| == 2 && two[0] == STAR
    ensures TrailingStars(two) % 2 == 0
  {
    assert two[..1] == [STAR] && [STAR][..0] == [];
    assert TrailingStars([STAR]) == 1;
  }

  lemma StarPair(body: bytes, t: bytes)
    requires |body| >= 2 && body[0] == STAR && body[1] != SLASH
    ensures BehindBlock(body + [STAR, SLASH] + t) == BehindBlock(body[2..] + [STAR, SLASH] + t)
  {
    assert (body + [STAR, SLASH] + t)[2..] == body[2..] + [STAR, SLASH] + t;
  }

  /** The least example: the comment that only consists of three stars runs on. */
  lemma ThreeStars()
    ensures SkipComment([SLASH, STAR, STAR, STAR, SLASH, COMMA]) == Some([])
  {
    var s: bytes := [STAR, STAR, SLASH, COMMA];
    assert [SLASH, STAR, STAR, STAR, SLASH, COMMA][2..] == s;
    assert s[2..] == [SLASH, COMMA] && [SLASH, COMMA][1..] == [COMMA] && [COMMA][1..] == [];
    assert BehindBlock([COMMA]) == [];
    assert BehindBlock([SLASH, COMMA]) == [];
    assert BehindBlock(s) == [];
  }

  lemma {:induction false} LineSkipped(text: bytes, rest: bytes)
    requires NEWLINE !in text
    ensures ToLineEnd(text + [NEWLINE] + rest) == [NEWLINE] + rest
  {
    var s := text + [NEWLINE] + rest;
    if text == [] {
      assert s == [NEWLINE] + rest;
    } else {
      LineSkipped(text[1..], rest);
      assert s[1..] == text[1..] + [NEWLINE] + rest;
    }
  }

  /** A comment is left behind, except for the end of its line. */
  lemma CommentSkipped(b: Blank, rest: bytes)
    requires BlankOk(b) && !b.Char?
    ensures var s := b.Print() + rest;
      && s[0] == SLASH
      && SkipComment(s) == Some(if b.Line? then [NEWLINE] + rest else rest)
  {
    hide Print;
    hide ToLineEnd;
    hide BehindBlock;
    hide SkipWs;
    hide BehindString;
    hide SkipString;
    hide BehindClosed;
    hide PrintItem;
    hide PrintItems;
    hide TrailingStars;
    var s := b.Print() + rest;
    match b
    case Line(text) =>
      LineSkipped(text, rest);
      assert s[2..] == text + [NEWLINE] + rest;
    case Block(body) =>
      assert s[2..] == body + [STAR, SLASH] + rest;
      BlockCommentSkipped(body, if rest == [] then [SLASH] else rest);
  }

  // ----- what leaves the bracket count alone -----------------------------------------------------------------------

  ghost predicate Passes(p: bytes, rest: bytes, b: Bracket, depth: nat) {
    BehindClosed(p + rest, b, depth) == BehindClosed(rest, b, depth)
  }

  lemma PassConcat(p: bytes, q: bytes, rest: bytes, b: Bracket, depth: nat)
    requires Passes(q, rest, b, depth) && Passes(p, q + rest, b, depth)
    ensures Passes(p + q, rest, b, depth)
  {
    hide BehindClosed;
    Assoc(p, q, rest);
  }

  lemma NothingPasses(rest: bytes, b: Bracket, depth: nat)
    ensures Passes([], rest, b, depth)
  {
    assert [] + rest == rest;
  }

  /** A character that is none of those counted or skipped. */
  predicate Neutral(c: byte) {
    c != SLASH && c != QUOTE && c != 0x5B && c != 0x5D && c != 0x7B && c != 0x7D
  }

  lemma CharPasses(c: byte, rest: bytes, b: Bracket, depth: nat)
    requires Neutral(c)
    requires depth > 0
    ensures Passes([c], rest, b, depth)
  {
    assert ([c] + rest)[1..] == rest;
  }

  lemma BlankPasses(w: Blank, rest: bytes, b: Bracket, depth: nat)
    requires BlankOk(w) && depth > 0
    ensures Passes(w.Print(), rest, b, depth)
  {
    hide SkipComment;
    if w.Char? {
      CharPasses(w.c, rest, b, depth);
    } else {
      CommentSkipped(w, rest);
      CharPasses(NEWLINE, rest, b, depth);
    }
  }

  lemma {:induction false} SpacePasses(w: Space, rest: bytes, b: Bracket, depth: nat)
    requires SpaceOk(w) && depth > 0
    ensures Passes(PrintSpace(w), rest, b, depth)
  {
    hide Passes;
    if w == [] {
      NothingPasses(rest, b, depth);
    } else {
      SpacePasses(w[1..], rest, b, depth);
      BlankPasses(w[0], PrintSpace(w[1..]) + rest, b, depth);
      PassConcat(w[0].Print(), PrintSpace(w[1..]), rest, b, depth);
    }
  }

  lemma {:induction false} StringSkipped(body: bytes, rest: bytes)
    requires BodyOk(body)
    ensures BehindString(body + [QUOTE] + rest) == rest
  {
    var s := body + [QUOTE] + rest;
    if body == [] {
      assert s[1..] == rest;
    } else if body[0] == BACKSLASH {
      assert s[2..] == body[2..] + [QUOTE] + rest;
      StringSkipped(body[2..], rest);
    } else {
      assert s[1..] == body[1..] + [QUOTE] + rest;
      StringSkipped(body[1..], rest);
    }
  }

  lemma WholeStringSkipped(body: bytes, rest: bytes)
    requires BodyOk(body)
    ensures var s := PrintString(body) + rest; s[0] == QUOTE && SkipString(s) == rest
  {
    StringSkipped(body, rest);
    assert (PrintString(body) + rest)[1..] == body + [QUOTE] + rest;
  }

  lemma StringPasses(body: bytes, rest: bytes, b: Bracket, depth: nat)
    requires BodyOk(body) && depth > 0
    ensures Passes(PrintString(body), rest, b, depth)
  {
    hide SkipString;
    WholeStringSkipped(body, rest);
  }

  lemma {:induction false} LiteralPasses(text: bytes, rest: bytes, b: Bracket, depth: nat)
    requires (forall i | 0 <= i < |text| :: LiteralChar(text[i])) && depth > 0
    ensures Passes(text, rest, b, depth)
  {
    hide Passes;
    if text == [] {
      NothingPasses(rest, b, depth);
    } else {
      LiteralPasses(text[1..], rest, b, depth);
      CharPasses(text[0], text[1..] + rest, b, depth);
      PassConcat([text[0]], text[1..], rest, b, depth);
      assert text == [text[0]] + text[1..];
    }
  }

  /** Brackets around something that passes at every depth. */
  lemma BracketsPass(kind: Bracket, inner: bytes, rest: bytes, b: Bracket, depth: nat)
    requires depth > 0
    requires Passes(inner, [kind.Close()] + rest, b, if kind == b then depth + 1 else depth)
    ensures Passes([kind.Open()] + inner + [kind.Close()], rest, b, depth)
  {
    var close := [kind.Close()] + rest;
    assert [kind.Open()] + inner + [kind.Close()] + rest == [kind.Open()] + (inner + close);
    assert ([kind.Open()] + (inner + close))[1..] == inner + close;
    assert close[1..] == rest;
  }

  lemma KeyPasses(i: Item, rest: bytes, b: Bracket, depth: nat)
    requires ItemOk(i) && depth > 0
    ensures Passes(PrintKey(i), rest, b, depth)
  {
    hide Passes;
    var key, colon, behind := PrintString(i.key), PrintSpace(i.colon), PrintSpace(i.behind);
    SpacePasses(i.behind, rest, b, depth);
    CharPasses(COLON, behind + rest, b, depth);
    PassConcat([COLON], behind, rest, b, depth);
    var r1 := [COLON] + behind;
    SpacePasses(i.colon, r1 + rest, b, depth);
    PassConcat(colon, r1, rest, b, depth);
    StringPasses(i.key, colon + r1 + rest, b, depth);
    PassConcat(key, colon + r1, rest, b, depth);
    assert PrintKey(i) == key + (colon + r1);
  }

  /** A printed value leaves the bracket count as it was, whatever is nested in it and whatever
    * its strings and comments contain. */
  lemma {:induction false} ValuePasses(v: Json, rest: bytes, b: Bracket, depth: nat)
    requires JsonOk(v) && depth > 0
    ensures Passes(Print(v), rest, b, depth)
    decreases v, 0
  {
    hide Passes;
    match v
    case Literal(text) => LiteralPasses(text, rest, b, depth);
    case Text(body) => StringPasses(body, rest, b, depth);
    case Array(start, items) => ListPasses(v, Square, start, items, false, rest, b, depth);
    case Object(start, members) => ListPasses(v, Curly, start, members, true, rest, b, depth);
  }

  lemma {:induction false} ListPasses(v: Json, kind: Bracket, start: Space, items: seq<Item>, keyed: bool,
      rest: bytes, b: Bracket, depth: nat)
    requires SpaceOk(start) && (forall i | 0 <= i < |items| :: ItemOk(items[i])) && depth > 0
    requires v == (if kind == Square then Array(start, items) else Object(start, items))
    ensures Passes([kind.Open()] + PrintSpace(start) + PrintItems(items, keyed) + [kind.Close()], rest, b, depth)
    decreases items, 1
  {
    hide Passes;
    var inside := if kind == b then depth + 1 else depth;
    var close := [kind.Close()] + rest;
    ItemsPass(items, keyed, close, b, inside);
    SpacePasses(start, PrintItems(items, keyed) + close, b, inside);
    PassConcat(PrintSpace(start), PrintItems(items, keyed), close, b, inside);
    BracketsPass(kind, PrintSpace(start) + PrintItems(items, keyed), rest, b, depth);
    Assoc([kind.Open()], PrintSpace(start), PrintItems(items, keyed));
  }

  lemma {:induction false} ItemsPass(items: seq<Item>, keyed: bool, rest: bytes, b: Bracket, depth: nat)
    requires (forall i | 0 <= i < |items| :: ItemOk(items[i])) && depth > 0
    ensures Passes(PrintItems(items, keyed), rest, b, depth)
    decreases items, 0
  {
    hide Passes;
    if items == [] {
      NothingPasses(rest, b, depth);
    } else {
      var first, later := PrintItem(items[0], keyed), PrintItems(items[1..], keyed);
      var comma := if |items| > 1 then [COMMA] else [];
      ItemsPass(items[1..], keyed, rest, b, depth);
      if |items| > 1 {
        CharPasses(COMMA, later + rest, b, depth);
      } else {
        NothingPasses(later + rest, b, depth);
      }
      PassConcat(comma, later, rest, b, depth);
      ItemPasses(items[0], keyed, comma + later + rest, b, depth);
      PassConcat(first, comma + later, rest, b, depth);
      Assoc(first, comma, later);
    }
  }

  lemma {:induction false} ItemPasses(i: Item, keyed: bool, rest: bytes, b: Bracket, depth: nat)
    requires ItemOk(i) && depth > 0
    ensures Passes(PrintItem(i, keyed), rest, b, depth)
    decreases i
  {
    hide Passes;
    var before, value, after := PrintSpace(i.before), Print(i.value), PrintSpace(i.after);
    var key := if keyed then PrintKey(i) else [];
    SpacePasses(i.after, rest, b, depth);
    ValuePasses(i.value, after + rest, b, depth);
    PassConcat(value, after, rest, b, depth);
    if keyed {
      KeyPasses(i, value + after + rest, b, depth);
    } else {
      NothingPasses(value + after + rest, b, depth);
    }
    PassConcat(key, value + after, rest, b, depth);
    SpacePasses(i.before, key + (value + after) + rest, b, depth);
    PassConcat(before, key + (value + after), rest, b, depth);
    FourParts(before, key, value, after);
  }

  lemma FourParts(a: bytes, b: bytes, c: bytes, d: bytes)
    ensures a + (b + (c + d)) == a + b + c + d
  {
  }

  // ----- white space and values at the top ------------------------------------------

  lemma {:induction false} SpaceSkipped(w: Space, rest: bytes)
    requires SpaceOk(w)
    ensures SkipWs(PrintSpace(w) + rest) == SkipWs(rest)
    ensures BehindValue(PrintSpace(w) + rest) == BehindValue(rest)
  {
    if w == [] {
      assert PrintSpace(w) + rest == rest;
    } else {
      var tail := PrintSpace(w[1..]) + rest;
      SpaceSkipped(w[1..], rest);
      Assoc(w[0].Print(), PrintSpace(w[1..]), rest);
      BlankSkipped(w[0], tail);
    }
  }

  lemma BlankSkipped(w: Blank, rest: bytes)
    requires BlankOk(w)
    ensures SkipWs(w.Print() + rest) == SkipWs(rest)
    ensures BehindValue(w.Print() + rest) == BehindValue(rest)
  {
    hide SkipComment;
    if w.Char? {
      assert ([w.c] + rest)[1..] == rest;
    } else {
      CommentSkipped(w, rest);
      assert ([NEWLINE] + rest)[1..] == rest;
    }
  }

  lemma {:induction false} LiteralSkipped(text: bytes, rest: bytes)
    requires forall i | 0 <= i < |text| :: LiteralChar(text[i])
    ensures BehindValue(text + rest) == BehindValue(rest)
  {
    if text == [] {
      assert text + rest == rest;
    } else {
      LiteralSkipped(text[1..], rest);
      assert (text + rest)[1..] == text[1..] + rest;
    }
  }

  /** A bracketed value is left right behind its closing bracket. */
  lemma ListSkipped(kind: Bracket, start: Space, items: seq<Item>, keyed: bool, rest: bytes)
    requires SpaceOk(start) && forall i | 0 <= i < |items| :: ItemOk(items[i])
    ensures BehindValue([kind.Open()] + PrintSpace(start) + PrintItems(items, keyed) + [kind.Close()] + rest)
      == Some(rest)
  {
    hide Passes;
    var inner, close := PrintSpace(start) + PrintItems(items, keyed), [kind.Close()] + rest;
    ItemsPass(items, keyed, close, kind, 1);
    SpacePasses(start, PrintItems(items, keyed) + close, kind, 1);
    PassConcat(PrintSpace(start), PrintItems(items, keyed), close, kind, 1);
    ClosedRight(kind, inner, rest);
    FourParts([kind.Open()], PrintSpace(start), PrintItems(items, keyed), close);
    Assoc([kind.Open()] + PrintSpace(start) + PrintItems(items, keyed), [kind.Close()], rest);
    Assoc(PrintSpace(start), PrintItems(items, keyed), close);
  }

  lemma ClosedRight(kind: Bracket, inner: bytes, rest: bytes)
    requires Passes(inner, [kind.Close()] + rest, kind, 1)
    ensures BehindValue([kind.Open()] + (inner + ([kind.Close()] + rest))) == Some(rest)
  {
    var close := [kind.Close()] + rest;
    assert ([kind.Open()] + (inner + close))[1..] == inner + close;
    assert close[1..] == rest;
    assert BehindClosed(rest, kind, 0) == Some(rest);
    assert BehindClosed(close, kind, 1) == Some(rest);
    assert Passes(inner, close, kind, 1);
  }

  lemma DelimiterStops(c: byte, rest: bytes)
    requires IsDelimiter(c)
    ensures BehindValue([c] + rest) == Some([c] + rest) && SkipWs([c] + rest) == Some([c] + rest)
  {
  }

  /** Every JSON value, printed with any white space and comments inside and around it, and
    * followed by a comma or a closing bracket: skipping it and then white space ends exactly at
    * that delimiter. */
  lemma SkippingConsumesOneValue(w: Space, v: Json, w': Space, c: byte, rest: bytes)
    requires SpaceOk(w) && JsonOk(v) && SpaceOk(w') && IsDelimiter(c)
    ensures var r := SkipObjectValue(PrintSpace(w) + (Print(v) + (PrintSpace(w') + ([c] + rest))));
      r.Some? && SkipWs(r.value) == Some([c] + rest)
  {
    var stop := [c] + rest;
    var tail := PrintSpace(w') + stop;
    SpaceSkipped(w, Print(v) + tail);
    SpaceSkipped(w', stop);
    DelimiterStops(c, rest);
    StartsVisibly(v, tail);
    ValueSkipped(v, tail);
  }

  lemma StartsVisibly(v: Json, rest: bytes)
    requires JsonOk(v)
    ensures SkipWs(Print(v) + rest) == Some(Print(v) + rest)
  {
    assert (Print(v) + rest)[0] == Print(v)[0];
  }

  lemma ValueSkipped(v: Json, rest: bytes)
    requires JsonOk(v)
    ensures BehindValue(Print(v) + rest) == if v.Literal? then BehindValue(rest) else Some(rest)
  {
    match v
    case Literal(text) => LiteralSkipped(text, rest);
    case Text(body) => WholeStringSkipped(body, rest);
    case Array(start, items) => ListSkipped(Square, start, items, false, rest);
    case Object(start, members) => ListSkipped(Curly, start, members, true, rest);
  }
}
