/** Where skipping and reading JSON fail, and where they do not although the text is broken off. */
module JsonFailures {
  import opened Wire
  import opened Wrappers
  import opened JsonSkip
  import JsonString
  import JsonText

  /** A slash that begins no comment. */
  predicate BareSlash(t: bytes) {
    t != [] && t[0] == '/' as byte && (|t| == 1 || (t[1] != '/' as byte && t[1] != '*' as byte))
  }

  /** Behind any white space and comments a bare slash is an error for every reader. */
  lemma BareSlashFails(w: Space, t: bytes)
    requires SpaceOk(w) && BareSlash(t)
    ensures SkipWs(PrintSpace(w) + t) == None
    ensures SkipObjectValue(PrintSpace(w) + t) == None
    ensures JsonText.StringValue(PrintSpace(w) + t) == None
  {
    hide PrintSpace;
    SpaceSkipped(w, t);
  }

  /** So it is within a value: behind a literal, or in the middle of an array or an object. */
  lemma BareSlashInside(kind: Bracket, start: Space, items: seq<Item>, keyed: bool, literal: bytes, t: bytes)
    requires SpaceOk(start) && (forall i | 0 <= i < |items| :: ItemOk(items[i])) && BareSlash(t)
    requires forall i | 0 <= i < |literal| :: LiteralChar(literal[i])
    ensures BehindValue(literal + t) == None
    ensures BehindValue([kind.Open()] + (PrintSpace(start) + PrintItems(items, keyed) + t)) == None
  {
    LiteralSkipped(literal, t);
    UpTo(kind, start, items, keyed, t);
    assert BehindClosed(t, kind, 1) == None;
  }

  /** The list is read up to what follows its items. */
  lemma UpTo(kind: Bracket, start: Space, items: seq<Item>, keyed: bool, t: bytes)
    requires SpaceOk(start) && forall i | 0 <= i < |items| :: ItemOk(items[i])
    ensures BehindValue([kind.Open()] + (PrintSpace(start) + PrintItems(items, keyed) + t)) == BehindClosed(t, kind, 1)
  {
    hide PrintItems;
    var s := [kind.Open()] + (PrintSpace(start) + PrintItems(items, keyed) + t);
    ItemsPass(items, keyed, t, kind, 1);
    SpacePasses(start, PrintItems(items, keyed) + t, kind, 1);
    PassConcat(PrintSpace(start), PrintItems(items, keyed), t, kind, 1);
    assert s[1..] == PrintSpace(start) + PrintItems(items, keyed) + t;
  }

  /** A list or a string that is broken off is taken for a value that ends there. */
  lemma BrokenOffIsAccepted(kind: Bracket, start: Space, items: seq<Item>, keyed: bool, body: bytes)
    requires SpaceOk(start) && (forall i | 0 <= i < |items| :: ItemOk(items[i])) && BodyOk(body)
    ensures BehindValue([kind.Open()] + (PrintSpace(start) + PrintItems(items, keyed))) == Some([])
    ensures BehindValue([0x22] + body) == Some([])
  {
    UpTo(kind, start, items, keyed, []);
    assert PrintSpace(start) + PrintItems(items, keyed) + [] == PrintSpace(start) + PrintItems(items, keyed);
    BrokenBody(body);
    assert ([0x22] + body)[1..] == body;
  }

  lemma {:induction false} BrokenBody(body: bytes)
    requires BodyOk(body)
    ensures BehindString(body) == []
  {
    if body != [] {
      BrokenBody(body[if body[0] == 0x5C then 2 else 1..]);
    }
  }

  /** So is a comment, behind any white space. */
  lemma OpenCommentIsAccepted(w: Space, line: bytes, block: bytes)
    requires SpaceOk(w) && 0x0A !in line && NoBlockEnd(block)
    ensures SkipWs(PrintSpace(w) + ([0x2F, 0x2F] + line)) == Some([])
    ensures SkipWs(PrintSpace(w) + ([0x2F, 0x2A] + block)) == Some([])
  {
    hide PrintSpace;
    var s, t := [0x2F, 0x2F] + line, [0x2F, 0x2A] + block;
    SpaceSkipped(w, s);
    SpaceSkipped(w, t);
    OpenLine(line);
    OpenBlock(block);
    assert s[2..] == line && t[2..] == block;
    assert SkipComment(s) == Some([]) && SkipComment(t) == Some([]);
  }

  lemma {:induction false} OpenLine(line: bytes)
    requires 0x0A !in line
    ensures ToLineEnd(line) == []
  {
    if line != [] {
      OpenLine(line[1..]);
    }
  }

  lemma {:induction false} OpenBlock(block: bytes)
    requires NoBlockEnd(block)
    ensures BehindBlock(block) == []
  {
    if |block| >= 2 {
      var n := if block[0] == 0x2A then 2 else 1;
      assert forall i | 0 <= i < |block[n..]| :: block[n..][i] == block[i + n];
      OpenBlock(block[n..]);
    } else if block != [] {
      assert block[1..] == [];
    }
  }

  /** A closing bracket of the other kind does not close. */
  lemma OtherBracketStays(kind: Bracket, other: Bracket, rest: bytes)
    requires kind != other
    ensures BehindClosed([other.Close()] + rest, kind, 1) == BehindClosed(rest, kind, 1)
    ensures BehindClosed([kind.Close()] + rest, kind, 1) == Some(rest)
  {
    assert ([other.Close()] + rest)[1..] == rest && ([kind.Close()] + rest)[1..] == rest;
  }

  /** The delimiters are the comma and the two closing brackets; a bare value goes on over anything
    * else but quotes, opening brackets and slashes, white space and colons included. */
  lemma BareValueEnds(text: bytes, c: byte, rest: bytes)
    requires forall i | 0 <= i < |text| :: text[i] !in [0x22, 0x2F, 0x5B, 0x7B, 0x2C, 0x5D, 0x7D]
    requires c in [',' as byte, ']' as byte, '}' as byte]
    ensures BehindValue(text + ([c] + rest)) == Some([c] + rest) && BehindValue(text) == Some([])
  {
    hide BehindValue;
    BareTextPasses(text, [c] + rest);
    DelimiterStops(c, rest);
    BareTextPasses(text, []);
    NothingLeft();
    assert text + [] == text;
  }

  lemma NothingLeft()
    ensures BehindValue([]) == Some([])
  {
  }

  lemma {:induction false} BareTextPasses(text: bytes, tail: bytes)
    requires forall i | 0 <= i < |text| :: text[i] !in [0x22, 0x2F, 0x5B, 0x7B, 0x2C, 0x5D, 0x7D]
    ensures BehindValue(text + tail) == BehindValue(tail)
  {
    hide SkipString;
    hide SkipComment;
    hide BehindClosed;
    if text == [] {
      assert text + tail == tail;
    } else {
      BareTextPasses(text[1..], tail);
      assert (text + tail)[1..] == text[1..] + tail;
    }
  }

  /** Something else than a string or `null`, or nothing at all, is an error for the reader of
    * strings. */
  lemma NoStringFails(w: Space, t: bytes)
    requires SpaceOk(w)
    requires t == [] || (t[0] >= 33 && t[0] !in [0x22, 0x2F] && !([0x6E, 0x75, 0x6C, 0x6C] <= t))
    ensures JsonText.StringValue(PrintSpace(w) + t) == None
  {
    hide PrintSpace;
    SpaceSkipped(w, t);
    if t != [] {
      JsonText.NothingToSkip(t);
    }
  }
}
