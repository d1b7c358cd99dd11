/** JSON strings: escaping on output and unescaping on input (RFC 8259, section 7). */
module JsonString {
  import opened Wire
  import opened Utf8
  import Swar
  import opened Wrappers

  const QUOTE: byte := 0x22
  const BACKSLASH: byte := 0x5C

  // ----- hexadecimal escapes ---------------------------------------------------------------------------

  /** `hexDigits` */
  function HexDigit(n: nat): byte
    requires n < 16
  {
    if n < 10 then 0x30 + n else 0x41 + (n - 10)
  }

  function HexValue(c: byte): Option<nat> {
    if 0x30 <= c <= 0x39 then Some(c - 0x30)
    else if 0x41 <= c <= 0x46 then Some(c - 0x41 + 10)
    else if 0x61 <= c <= 0x66 then Some(c - 0x61 + 10)
    else None
  }

  function Hex4(cp: nat): (s: bytes)
    requires cp <= 0xFFFF
    ensures |s| == 4
  {
    [HexDigit(cp / 4096), HexDigit(cp / 256 % 16), HexDigit(cp / 16 % 16), HexDigit(cp % 16)]
  }

  /** The value of hexadecimal digits, most significant first. */
  function HexNumber(s: bytes): Option<nat> {
    if s == [] then Some(0)
    else
      var high, low := HexNumber(s[..|s| - 1]), HexValue(s[|s| - 1]);
      if high.None? || low.None? then None else Some(high.value * 16 + low.value)
  }

  /** `parse_unicode_hex4` */
  method ParseUnicodeHex4(text: bytes, it: nat) returns (r: Option<nat>)
    requires it + 4 <= |text|
    ensures r == HexNumber(text[it..it + 4])
  {
    HexStart(text, it);
    hide HexNumber;
    var codepoint: nat := 0;
    for i := 0 to 4
      invariant HexNumber(text[it..it + i]) == Some(codepoint)
    {
      var c := text[it + i];
      HexStep(text, it, i);
      if 0x30 <= c <= 0x39 {
        codepoint := codepoint * 16 + c - 0x30;
      } else if 0x41 <= c <= 0x46 {
        codepoint := codepoint * 16 + c - (0x41 - 10);
      } else if 0x61 <= c <= 0x66 {
        codepoint := codepoint * 16 + c - (0x61 - 10);
      } else {
        return None;
      }
    }
    r := Some(codepoint);
  }

  lemma HexStart(text: bytes, it: nat)
    requires it <= |text|
    ensures HexNumber(text[it..it + 0]) == Some(0)
  {
    assert text[it..it + 0] == [];
  }

  /** One more digit. */
  lemma HexStep(text: bytes, it: nat, i: nat)
    requires i < 4 && it + 4 <= |text| && HexNumber(text[it..it + i]).Some?
    ensures var high, low := HexNumber(text[it..it + i]).value, HexValue(text[it + i]);
      if low.None? then HexNumber(text[it..it + 4]) == None
      else HexNumber(text[it..it + i + 1]) == Some(high * 16 + low.value)
  {
    var s := text[it..it + i + 1];
    assert s[..|s| - 1] == text[it..it + i] && s[|s| - 1] == text[it + i];
    PrefixFails(text[it..it + 4], i + 1);
    assert text[it..it + 4][..i + 1] == s;
  }

  lemma {:induction false} PrefixFails(s: bytes, n: nat)
    requires n <= |s|
    ensures HexNumber(s[..n]).None? ==> HexNumber(s).None?
    decreases |s|
  {
    if n < |s| {
      PrefixFails(s[..|s| - 1], n);
      assert s[..|s| - 1][..n] == s[..n];
    } else {
      assert s[..n] == s;
    }
  }

  lemma DigitRoundTrip(n: nat)
    requires n < 16
    ensures HexValue(HexDigit(n)) == Some(n)
  {
  }

  lemma Hex4RoundTrip(cp: nat)
    requires cp <= 0xFFFF
    ensures HexNumber(Hex4(cp)) == Some(cp)
  {
    hide HexDigit;
    hide HexValue;
    var (a, b, c, d) := (cp / 4096, cp / 256 % 16, cp / 16 % 16, cp % 16);
    DigitRoundTrip(a);
    DigitRoundTrip(b);
    DigitRoundTrip(c);
    DigitRoundTrip(d);
    var s := Hex4(cp);
    assert s[..3] == [s[0], s[1], s[2]] && s[..3][..2] == [s[0], s[1]] && [s[0], s[1]][..1] == [s[0]]
      && [s[0]][..0] == [];
    assert HexNumber([s[0]]) == Some(a);
    assert HexNumber([s[0], s[1]]) == Some(a * 16 + b);
    assert HexNumber(s[..3]) == Some((a * 16 + b) * 16 + c);
    assert cp == cp / 16 * 16 + d && cp / 16 == cp / 256 * 16 + c && cp / 256 == a * 16 + b;
  }

  // ----- writing --------------------------------------------------------------------------------------------

  /** `\u` with four digits */
  function UnicodeEscape(cp: nat): bytes
    requires cp <= 0xFFFF
  {
    [BACKSLASH, 0x75] + Hex4(cp)
  }

  function Lead(cp: nat): nat
    requires 0x1_0000 <= cp <= 0x10_FFFF
  {
    (cp - 0x1_0000) / 1024 + 0xD800
  }

  function Trail(cp: nat): nat
    requires 0x1_0000 <= cp <= 0x10_FFFF
  {
    (cp - 0x1_0000) % 1024 + 0xDC00
  }

  /** The letter behind the backslash, 0 for characters that are not escaped. */
  function EscapeLetter(c: byte): byte {
    if c == 0x08 then 0x62
    else if c == 0x09 then 0x74
    else if c == 0x0A then 0x6E
    else if c == 0x0C then 0x66
    else if c == 0x0D then 0x72
    else if c < 0x20 then 0x75
    else if c == QUOTE || c == BACKSLASH then c
    else 0
  }

  function EscapeAscii(c: byte): bytes {
    var letter := EscapeLetter(c);
    if letter == 0 then [c]
    else if letter == 0x75 then [BACKSLASH, letter, 0x30, 0x30, HexDigit(c / 16), HexDigit(c % 16)]
    else [BACKSLASH, letter]
  }

  /** One code point of the output. */
  function EscapeOne(cp: nat): (s: bytes)
    requires IsScalar(cp)
    ensures s != []
  {
    if cp < 0x80 then EscapeAscii(cp)
    else if cp <= 0xFFFF then UnicodeEscape(cp)
    else UnicodeEscape(Lead(cp)) + UnicodeEscape(Trail(cp))
  }

  function Less(n: nat, k: nat): nat {
    if k < n then n - k else 0
  }

  /** The text of `n` bytes is followed by at least three others. */
  ghost predicate Followed(memory: bytes, n: nat) {
    n > 0 ==> n + 3 <= |memory|
  }

  lemma FollowedIsComplete(memory: bytes, n: nat)
    requires n > 0 && Followed(memory, n)
    ensures !Incomplete(memory)
    ensures Followed(memory[Wanted(memory[0])..], Less(n, Wanted(memory[0])))
  {
  }

  /** `write_string_with_escape` for the first `n` bytes of the memory ahead; `None` is the
    * exception for illegal UTF-8.  A sequence that begins before the end of the text is decoded
    * whole, wherever it ends. */
  function Written(memory: bytes, n: nat): Option<bytes>
    requires Followed(memory, n)
    decreases n
  {
    if n == 0 then Some([])
    else
      FollowedIsComplete(memory, n);
      var r := Decode(memory);
      if r.None? then None
      else
        EncodeInvertsDecode(memory);
        Prepend(EscapeOne(r.value.0), Written(memory[r.value.1..], Less(n, r.value.1)))
  }

  function Prepend(done: bytes, r: Option<bytes>): Option<bytes> {
    if r.None? then None else Some(done + r.value)
  }

  lemma PrependTwice(a: bytes, b: bytes, r: Option<bytes>)
    ensures Prepend(a, Prepend(b, r)) == Prepend(a + b, r)
  {
    if r.Some? {
      Assoc(a, b, r.value);
    }
  }

  lemma PrependNothing(done: bytes)
    ensures Prepend(done, Some([])) == Some(done)
  {
    assert done + [] == done;
  }

  /** Whether bytes behind the text are read for its last sequence. */
  predicate ReadsPast(text: bytes)
    decreases |text|
  {
    text != [] && (Incomplete(text) || (Decode(text).Some? && ReadsPast(text[Wanted(text[0])..])))
  }

  method WriteUnicodeToString(memory: bytes, it: nat, out: Writer) returns (ok: bool, next: nat)
    requires it < |memory| && !Incomplete(memory[it..])
    modifies out
    ensures next == it + Wanted(memory[it])
    ensures match Decode(memory[it..])
      case None => !ok
      case Some(d) => ok && (d.0 >= 0x80 ==> IsScalar(d.0) && out.out == old(out.out) + EscapeOne(d.0))
  {
    hide EscapeOne;
    hide Decode;
    if Decode(memory[it..]).Some? {
      EncodeInvertsDecode(memory[it..]);
    }
    var decoder := new Decoder(memory, it);
    ok := decoder.DecodeUtf8();
    next := decoder.it;
    if ok {
      WriteEscapes(decoder.codepoint, out);
    }
  }

  method WriteHex4(cp: nat, out: Writer)
    requires cp <= 0xFFFF
    modifies out
    ensures out.out == old(out.out) + Hex4(cp)
  {
    out.Write([HexDigit(cp / 4096 % 16), HexDigit(cp / 256 % 16), HexDigit(cp / 16 % 16), HexDigit(cp % 16)]);
    assert cp / 4096 % 16 == cp / 4096;
  }

  /** One `\\u` escape, or two for a surrogate pair. */
  method WriteEscapes(cp: nat, out: Writer)
    requires IsScalar(cp)
    modifies out
    ensures cp >= 0x80 ==> out.out == old(out.out) + EscapeOne(cp)
  {
    hide Hex4;
    ghost var before := out.out;
    out.Write([BACKSLASH, 0x75]);
    if cp <= 0xD7FF || 0xE000 <= cp <= 0xFFFF {
      WriteHex4(cp, out);
      Assoc(before, [BACKSLASH, 0x75], Hex4(cp));
    } else {
      var s := cp - 0x1_0000;
      var lead, trail := s / 1024 + 0xD800, s % 1024 + 0xDC00;
      WriteHex4(lead, out);
      out.Write([BACKSLASH, 0x75]);
      WriteHex4(trail, out);
      SixParts(before, [BACKSLASH, 0x75], Hex4(lead), Hex4(trail));
    }
  }

  lemma SixParts(before: bytes, u: bytes, a: bytes, b: bytes)
    ensures before + u + a + u + b == before + ((u + a) + (u + b))
  {
    Assoc(before, u, a);
    Assoc(before, u + a, u);
    Assoc(before, u + a + u, b);
    Assoc(u + a, u, b);
  }

  method WriteAscii(c: byte, out: Writer)
    requires c < 0x80
    modifies out
    ensures out.out == old(out.out) + EscapeOne(c)
  {
    if EscapeLetter(c) != 0 {
      ghost var before := out.out;
      out.Write([BACKSLASH]);
      out.Write([EscapeLetter(c)]);
      Assoc(before, [BACKSLASH], [EscapeLetter(c)]);
      if EscapeLetter(c) == 0x75 {
        out.Write([0x30, 0x30, HexDigit(c / 16), HexDigit(c % 16)]);
        Assoc(before, [BACKSLASH, EscapeLetter(c)], [0x30, 0x30, HexDigit(c / 16), HexDigit(c % 16)]);
      }
    } else {
      out.Write([c]);
    }
  }

  /** The writer for the first `length` bytes of the memory; `it` is how far it has read when it
    * ends or throws. */
  method WriteStringWithEscape(memory: bytes, length: nat, out: Writer) returns (ok: bool, it: nat)
    requires Followed(memory, length)
    modifies out
    ensures match Written(memory, length)
      case None => !ok
      case Some(w) => ok && out.out == old(out.out) + w
    ensures length <= |memory| && (it > length <==> ReadsPast(memory[..length]))
  {
    hide Written;
    hide Decode;
    hide EscapeOne;
    hide ReadsPast;
    it := 0;
    assert memory[0..] == memory;
    while it < length
      invariant it <= |memory| && length <= |memory| && Followed(memory[it..], Less(length, it))
      invariant Prepend(old(out.out), Written(memory, length))
        == Prepend(out.out, Written(memory[it..], Less(length, it)))
      invariant it <= length ==> (ReadsPast(memory[..length]) <==> ReadsPast(memory[it..length]))
      invariant it > length ==> ReadsPast(memory[..length])
      decreases Less(length, it)
    {
      WrittenStep(memory, length, it, out.out);
      ReadsPastStep(memory, length, it);
      if memory[it] >= 0x80 {
        ok, it := WriteUnicodeToString(memory, it, out);
        if !ok {
          return;
        }
      } else {
        WriteAscii(memory[it], out);
        it := it + 1;
      }
    }
    assert it <= length ==> memory[it..length] == [];
    WrittenEnd(memory[it..], out.out);
    ok := true;
  }

  lemma WrittenEnd(memory: bytes, done: bytes)
    ensures Prepend(done, Written(memory, 0)) == Some(done)
    ensures !ReadsPast([])
  {
    PrependNothing(done);
  }

  lemma WrittenStep(memory: bytes, n: nat, it: nat, done: bytes)
    requires it < n <= |memory| && Followed(memory[it..], n - it)
    ensures !Incomplete(memory[it..]) && it + Wanted(memory[it]) <= |memory|
    ensures Followed(memory[it + Wanted(memory[it])..], Less(n, it + Wanted(memory[it])))
    ensures var w := it + Wanted(memory[it]);
      match Decode(memory[it..])
      case None => Written(memory[it..], n - it) == None
      case Some(d) =>
        && IsScalar(d.0)
        && Prepend(done, Written(memory[it..], n - it))
          == Prepend(done + EscapeOne(d.0), Written(memory[w..], Less(n, w)))
    ensures memory[it] < 0x80 ==> Wanted(memory[it]) == 1 && Decode(memory[it..]) == Some((memory[it] as nat, 1))
    ensures memory[it] >= 0x80 && Decode(memory[it..]).Some? ==> Decode(memory[it..]).value.0 >= 0x80
  {
    hide Decode;
    hide EscapeOne;
    var s := memory[it..];
    FollowedIsComplete(s, n - it);
    FirstByte(s);
    if Decode(s).Some? {
      EncodeInvertsDecode(s);
      var d := Decode(s).value;
      assert s[d.1..] == memory[it + d.1..];
      PrependTwice(done, EscapeOne(d.0), Written(s[d.1..], Less(n - it, d.1)));
    }
  }

  lemma ReadsPastStep(memory: bytes, n: nat, it: nat)
    requires it < n <= |memory| && Followed(memory[it..], n - it)
    ensures !Incomplete(memory[it..])
    ensures var w := it + Wanted(memory[it]);
      ReadsPast(memory[it..n]) <==> w > n || (Decode(memory[it..]).Some? && ReadsPast(memory[w..n]))
  {
    hide Decode;
    var s, w := memory[it..n], it + Wanted(memory[it]);
    FollowedIsComplete(memory[it..], n - it);
    if w <= n {
      DecodePrefix(s, memory[n..]);
      assert memory[it..] == s + memory[n..];
      assert s[Wanted(s[0])..] == memory[w..n];
    }
  }

  lemma FirstByte(s: bytes)
    requires s != [] && !Incomplete(s)
    ensures s[0] < 0x80 ==> Wanted(s[0]) == 1 && Decode(s) == Some((s[0] as nat, 1))
    ensures s[0] >= 0x80 && Decode(s).Some? ==> Decode(s).value.0 >= 0x80
  {
    hide WellFormedLength;
    ShortForms(At(s, 0), At(s, 1), At(s, 2), At(s, 3));
    if Decode(s).Some? {
      EncodeInvertsDecode(s);
    }
  }

  // ----- reading -----------------------------------------------------------------------------------------------

  predicate IsStop(c: byte) {
    c == BACKSLASH || c == QUOTE
  }

  /** The distance to the first backslash or quote. */
  function FirstStop(s: bytes): (r: Option<nat>)
    ensures r.Some? ==> r.value < |s| && IsStop(s[r.value])
  {
    if s == [] then None
    else if IsStop(s[0]) then Some(0)
    else
      var later := FirstStop(s[1..]);
      if later.None? then None else Some(1 + later.value)
  }

  /** `parse_escape`: the bytes that an escape stands for, and what follows it. */
  function Unescape(s: bytes): (r: Option<(bytes, bytes)>)
    ensures r.Some? ==> |r.value.1| < |s|
  {
    if s == [] then None
    else if s[0] == 0x75 then
      if |s| - 1 <= 4 || HexNumber(s[1..5]).None? then None
      else
        HexBound(s[1..5]);
        Some((EncodeUtf8(HexNumber(s[1..5]).value), s[5..]))
    else if s[0] == 0x6E then Some(([0x0A], s[1..]))
    else if s[0] == 0x74 then Some(([0x09], s[1..]))
    else if s[0] == 0x72 then Some(([0x0D], s[1..]))
    else if s[0] == 0x62 then Some(([0x08], s[1..]))
    else if s[0] == 0x66 then Some(([0x0C], s[1..]))
    else Some(([s[0]], s[1..]))
  }

  lemma HexBound(s: bytes)
    requires |s| == 4 && HexNumber(s).Some?
    ensures HexNumber(s).value <= 0xFFFF
  {
    hide HexValue;
    assert s[..3][..2] == s[..2] && s[..2][..1] == s[..1] && s[..1][..0] == [];
    PrefixFails(s, 1);
    PrefixFails(s, 2);
    PrefixFails(s, 3);
    DigitBound(s[0]);
    DigitBound(s[1]);
    DigitBound(s[2]);
    DigitBound(s[3]);
    assert s[..3][2] == s[2] && s[..2][1] == s[1] && s[..1][0] == s[0];
    assert HexNumber(s[..1]).value <= 0xF;
    assert HexNumber(s[..2]).value <= 0xFF;
    assert HexNumber(s[..3]).value <= 0xFFF;
  }

  lemma DigitBound(c: byte)
    ensures HexValue(c).Some? ==> HexValue(c).value <= 15
  {
  }

  /** A string from behind its opening quote: the value, and what follows the closing quote.  A
    * text that ends right behind an escape, or at once, is accepted without a closing quote. */
  function Unquoted(s: bytes): Option<(bytes, bytes)>
    decreases |s|
  {
    if s == [] then Some(([], []))
    else
      var k := FirstStop(s);
      if k.None? then None
      else if s[k.value] == QUOTE then Some((s[..k.value], s[k.value + 1..]))
      else
        var e := Unescape(s[k.value + 1..]);
        if e.None? then None else Joined(s[..k.value] + e.value.0, Unquoted(e.value.1))
  }

  function Joined(done: bytes, r: Option<(bytes, bytes)>): Option<(bytes, bytes)> {
    if r.None? then None else Some((done + r.value.0, r.value.1))
  }

  lemma JoinedTwice(a: bytes, b: bytes, r: Option<(bytes, bytes)>)
    ensures Joined(a, Joined(b, r)) == Joined(a + b, r)
  {
    if r.Some? {
      Assoc(a, b, r.value.0);
    }
  }

  lemma JoinedNothing(r: Option<(bytes, bytes)>)
    ensures Joined([], r) == r
  {
    if r.Some? {
      assert [] + r.value.0 == r.value.0;
    }
  }

  lemma JoinedThrice(a: bytes, b: bytes, c: bytes, r: Option<(bytes, bytes)>)
    ensures Joined(a, Joined(b + c, r)) == Joined(a + b + c, r)
    ensures Joined(a, None) == None
  {
    Assoc(a, b, c);
    JoinedTwice(a, b + c, r);
  }

  lemma JoinedEnd(a: bytes)
    ensures Joined(a, Some(([], []))) == Some((a, []))
  {
    assert a + [] == a;
  }

  lemma UnquotedEnd()
    ensures Unquoted([]) == Some(([], []))
  {
  }

  lemma SliceStop(text: bytes, start: nat, it: nat)
    requires start <= it < |text|
    ensures var k := it - start;
      text[start..][k] == text[it] && text[start..][..k] == text[start..it] && text[start..][k + 1..] == text[it + 1..]
  {
  }

  /** One turn of the reader's loop. */
  lemma UnquotedStep(text: bytes, it: nat, done: bytes)
    requires it < |text|
    ensures var k := FirstStop(text[it..]);
      if k.None? then Joined(done, Unquoted(text[it..])) == None
      else
        var at := it + k.value;
        at < |text| && IsStop(text[at]) &&
        var taken := done + text[it..at];
        if text[at] == QUOTE then Joined(done, Unquoted(text[it..])) == Some((taken, text[at + 1..]))
        else
          var e := Unescape(text[at + 1..]);
          Joined(done, Unquoted(text[it..]))
            == if e.None? then None else Joined(taken + e.value.0, Unquoted(e.value.1))
  {
    hide FirstStop;
    hide Unescape;
    var k := FirstStop(text[it..]);
    if k.Some? {
      var at := it + k.value;
      SliceStop(text, it, at);
      var e := Unescape(text[at + 1..]);
      if text[at] != QUOTE && e.Some? {
        JoinedThrice(done, text[it..at], e.value.0, Unquoted(e.value.1));
      }
    }
  }

  /** The word-wise scanner works on the same bytes as bit vectors. */
  function Octets(s: bytes): (o: seq<Swar.octet>)
    ensures |o| == |s| && forall i | 0 <= i < |s| :: o[i] == s[i] as bv8
  {
    seq(|s|, i requires 0 <= i < |s| => s[i] as bv8)
  }

  lemma OctetStops(c: byte)
    ensures Swar.IsEscapeOrQuote(c as bv8) <==> IsStop(c)
  {
    assert c as bv8 == 0x22 ==> (c as bv8) as int == 0x22;
    assert c as bv8 == 0x5c ==> (c as bv8) as int == 0x5c;
  }

  lemma {:induction false} SameStop(text: bytes, it: nat)
    requires it <= |text|
    ensures var r := Swar.ByteScan(Octets(text), it, Swar.IsEscapeOrQuote);
      var k := FirstStop(text[it..]);
      if k.None? then r.None? else r == Some(it + k.value)
    decreases |text| - it
  {
    hide FirstStop;
    hide IsStop;
    hide Octets;
    StopStep(text, it);
    if it < |text| {
      OctetStops(text[it]);
      SameStop(text, it + 1);
    }
  }

  lemma StopStep(text: bytes, it: nat)
    requires it <= |text|
    ensures FirstStop(text[it..])
      == if it == |text| then None
        else if IsStop(text[it]) then Some(0)
        else
          var later := FirstStop(text[it + 1..]);
          if later.None? then None else Some(1 + later.value)
  {
    if it < |text| {
      assert text[it..][1..] == text[it + 1..];
    }
  }

  method ParseEscape(text: bytes, start: nat) returns (r: Option<(bytes, nat)>)
    requires start <= |text|
    ensures match Unescape(text[start..])
      case None => r.None?
      case Some(e) => r.Some? && r.value.0 == e.0 && start < r.value.1 <= |text| && text[r.value.1..] == e.1
  {
    if start == |text| {
      return None;
    }
    var c := text[start];
    var it := start + 1;
    assert text[start..][1..] == text[it..];
    if c == 0x75 {
      if |text| - it <= 4 {
        return None;
      }
      assert text[start..][1..5] == text[it..it + 4] && text[start..][5..] == text[it + 4..];
      var cp := ParseUnicodeHex4(text, it);
      if cp.None? {
        return None;
      }
      HexBound(text[it..it + 4]);
      return Some((EncodeUtf8(cp.value), it + 4));
    }
    var b := if c == 0x6E then 0x0A else if c == 0x74 then 0x09 else if c == 0x72 then 0x0D
             else if c == 0x62 then 0x08 else if c == 0x66 then 0x0C else c;
    r := Some(([b], it));
  }

  /** `from_json_impl` for strings, from behind the opening quote. */
  method ReadString(text: bytes, begin: nat) returns (r: Option<(bytes, nat)>)
    requires begin <= |text|
    ensures match Unquoted(text[begin..])
      case None => r.None?
      case Some(u) => r.Some? && r.value.0 == u.0 && r.value.1 <= |text| && text[r.value.1..] == u.1
  {
    hide Octets;
    hide Unescape;
    hide FirstStop;
    hide Joined;
    hide Unquoted;
    var value: bytes := [];
    var it, start := begin, begin;
    JoinedNothing(Unquoted(text[begin..]));
    while it < |text|
      invariant start == it <= |text|
      invariant Unquoted(text[begin..]) == Joined(value, Unquoted(text[it..]))
      decreases |text| - it
    {
      ghost var before := value;
      var stop := Swar.SkipTillEscapeOrQuote(Octets(text), it);
      SameStop(text, it);
      UnquotedStep(text, it, before);
      if stop.None? {
        return None;
      }
      it := stop.value;
      value := value + text[start..it];
      it := it + 1;
      if text[it - 1] == QUOTE {
        return Some((value, it));
      }
      var e := ParseEscape(text, it);
      if e.None? {
        return None;
      }
      value := value + e.value.0;
      it := e.value.1;
      start := it;
    }
    assert text[it..] == [] && value + [] == value;
    JoinedEnd(value);
    assert Unquoted([]) == Some(([], [])) by { UnquotedEnd(); }
    r := Some((value, it));
  }

  // ----- round trip ------------------------------------------------------------------------------------------------

  ghost predicate Scalars(cps: seq<nat>) {
    forall i | 0 <= i < |cps| :: IsScalar(cps[i])
  }

  /** A text of scalar values as UTF-8. */
  function Utf8Text(cps: seq<nat>): bytes
    requires Scalars(cps)
  {
    if cps == [] then [] else EncodeUtf8(cps[0]) + Utf8Text(cps[1..])
  }

  function EscapedText(cps: seq<nat>): bytes
    requires Scalars(cps)
  {
    if cps == [] then [] else EscapeOne(cps[0]) + EscapedText(cps[1..])
  }

  /** What the reader makes of one written code point: each half of a surrogate pair is
    * encoded by itself. */
  function ReadBack(cp: nat): bytes
    requires IsScalar(cp)
  {
    if cp <= 0xFFFF then EncodeUtf8(cp) else EncodeUtf8(Lead(cp)) + EncodeUtf8(Trail(cp))
  }

  function ReadBackText(cps: seq<nat>): bytes
    requires Scalars(cps)
  {
    if cps == [] then [] else ReadBack(cps[0]) + ReadBackText(cps[1..])
  }

  lemma {:induction false} WrittenText(cps: seq<nat>, behind: bytes)
    requires Scalars(cps) && |behind| >= 3
    ensures Written(Utf8Text(cps) + behind, |Utf8Text(cps)|) == Some(EscapedText(cps))
  {
    if cps != [] {
      hide Decode;
      hide EncodeUtf8;
      hide EscapeOne;
      var e, rest := EncodeUtf8(cps[0]), Utf8Text(cps[1..]);
      var memory := e + rest + behind;
      Assoc(e, rest, behind);
      DecodeInvertsEncode(cps[0], rest + behind);
      assert memory[|e|..] == rest + behind;
      assert Less(|e + rest|, |e|) == |rest|;
      WrittenText(cps[1..], behind);
    }
  }

  lemma PlainIsRead(c: byte, t: bytes)
    requires !IsStop(c) && t != []
    ensures Unquoted([c] + t) == Joined([c], Unquoted(t))
  {
    hide Unescape;
    var s := [c] + t;
    assert s[1..] == t;
    var k := FirstStop(t);
    if k.Some? {
      assert s[..1 + k.value] == [c] + t[..k.value];
      assert s[1 + k.value + 1..] == t[k.value + 1..];
      if t[k.value] != QUOTE {
        var e := Unescape(t[k.value + 1..]);
        if e.Some? {
          Assoc([c], t[..k.value], e.value.0);
          JoinedTwice([c], t[..k.value] + e.value.0, Unquoted(e.value.1));
        }
      }
    }
  }

  lemma EscapeIsRead(e: bytes, v: bytes, t: bytes)
    requires Unescape(e + t) == Some((v, t))
    ensures Unquoted([BACKSLASH] + e + t) == Joined(v, Unquoted(t))
  {
    hide Unescape;
    var s := [BACKSLASH] + e + t;
    assert s[1..] == e + t;
    assert s[..0] + v == v;
  }

  lemma UnicodeIsRead(cp: nat, t: bytes)
    requires cp <= 0xFFFF && t != []
    ensures Unquoted(UnicodeEscape(cp) + t) == Joined(EncodeUtf8(cp), Unquoted(t))
  {
    hide Unquoted;
    hide Hex4;
    hide HexNumber;
    var e := [0x75] + Hex4(cp);
    assert (e + t)[1..5] == Hex4(cp) && (e + t)[5..] == t;
    Hex4RoundTrip(cp);
    EscapeIsRead(e, EncodeUtf8(cp), t);
    assert UnicodeEscape(cp) + t == [BACKSLASH] + e + t;
  }

  lemma AsciiIsRead(c: byte, t: bytes)
    requires c < 0x80 && t != []
    ensures Unquoted(EscapeAscii(c) + t) == Joined([c], Unquoted(t))
  {
    hide Unquoted;
    var letter := EscapeLetter(c);
    if letter == 0 {
      PlainIsRead(c, t);
    } else if letter == 0x75 {
      assert EscapeAscii(c) == UnicodeEscape(c);
      UnicodeIsRead(c, t);
    } else {
      assert ([letter] + t)[1..] == t;
      EscapeIsRead([letter], [c], t);
      assert EscapeAscii(c) + t == [BACKSLASH] + [letter] + t;
    }
  }

  lemma OneIsRead(cp: nat, t: bytes)
    requires IsScalar(cp) && t != []
    ensures Unquoted(EscapeOne(cp) + t) == Joined(ReadBack(cp), Unquoted(t))
  {
    hide Unquoted;
    if cp < 0x80 {
      AsciiIsRead(cp, t);
    } else if cp <= 0xFFFF {
      UnicodeIsRead(cp, t);
    } else {
      var lead, trail := UnicodeEscape(Lead(cp)), UnicodeEscape(Trail(cp));
      UnicodeIsRead(Trail(cp), t);
      UnicodeIsRead(Lead(cp), trail + t);
      Assoc(lead, trail, t);
      JoinedTwice(EncodeUtf8(Lead(cp)), EncodeUtf8(Trail(cp)), Unquoted(t));
    }
  }

  lemma {:induction false} TextIsRead(cps: seq<nat>, rest: bytes)
    requires Scalars(cps)
    ensures Unquoted(EscapedText(cps) + [QUOTE] + rest) == Some((ReadBackText(cps), rest))
  {
    var tail := [QUOTE] + rest;
    assert EscapedText(cps) + [QUOTE] + rest == EscapedText(cps) + tail;
    if cps == [] {
      assert [] + tail == tail && tail[1..] == rest && tail[..0] == [];
    } else {
      hide Unquoted;
      TextIsRead(cps[1..], rest);
      var later := EscapedText(cps[1..]);
      assert later + [QUOTE] + rest == later + tail;
      Assoc(EscapeOne(cps[0]), later, tail);
      OneIsRead(cps[0], later + tail);
    }
  }

  lemma {:induction false} ReadBackLength(cps: seq<nat>)
    requires Scalars(cps)
    ensures |ReadBackText(cps)| >= |Utf8Text(cps)|
    ensures if forall i | 0 <= i < |cps| :: cps[i] <= 0xFFFF then ReadBackText(cps) == Utf8Text(cps)
      else |ReadBackText(cps)| > |Utf8Text(cps)|
  {
    if cps != [] {
      ReadBackLength(cps[1..]);
      assert (forall i | 0 <= i < |cps| :: cps[i] <= 0xFFFF)
        <==> cps[0] <= 0xFFFF && forall i | 0 <= i < |cps[1..]| :: cps[1..][i] <= 0xFFFF;
    }
  }

  /** Writing a text and reading it back stops just past the closing quote, and gives the text
    * back exactly if it has no code point above U+FFFF. */
  lemma JsonStringRoundTrip(cps: seq<nat>, behind: bytes, rest: bytes)
    requires Scalars(cps) && |behind| >= 3
    ensures var text, written := Utf8Text(cps), Written(Utf8Text(cps) + behind, |Utf8Text(cps)|);
      && written.Some?
      && var back := Unquoted(written.value + [QUOTE] + rest);
      && back.Some? && back.value.1 == rest
      && (back.value.0 == text <==> forall i | 0 <= i < |cps| :: cps[i] <= 0xFFFF)
  {
    WrittenText(cps, behind);
    TextIsRead(cps, rest);
    ReadBackLength(cps);
  }

  /** The least code point that does not come back: the first one above U+FFFF. */
  lemma PairIsLost(behind: bytes, rest: bytes)
    requires |behind| >= 3
    ensures Scalars([0x1_0000])
    ensures var text := Utf8Text([0x1_0000]);
      var written := Written(text + behind, |text|);
      written.Some? && Unquoted(written.value + [QUOTE] + rest) != Some((text, rest))
  {
    JsonStringRoundTrip([0x1_0000], behind, rest);
    assert [0x1_0000][0] > 0xFFFF;
  }

  // ----- strings that are not closed ---------------------------------------------------------------

  /** A character or an escape of the string starts at `n`. */
  predicate StartsAt(s: bytes, n: nat)
    decreases |s|
  {
    n == 0 ||
    (s != [] &&
      if s[0] != BACKSLASH then StartsAt(s[1..], n - 1)
      else
        var e := Unescape(s[1..]);
        e.Some? && |s| - |e.value.1| <= n && StartsAt(e.value.1, n - (|s| - |e.value.1|)))
  }

  /** A quote that is not part of an escape. */
  predicate ClosedAt(s: bytes, n: nat) {
    n < |s| && s[n] == QUOTE && StartsAt(s, n)
  }

  /** Escapes, each behind plain characters, and nothing behind the last one. */
  predicate EndsOpen(s: bytes)
    decreases |s|
  {
    s == [] ||
    var k := FirstStop(s);
    k.Some? && s[k.value] == BACKSLASH &&
    var e := Unescape(s[k.value + 1..]);
    e.Some? && EndsOpen(e.value.1)
  }

  lemma UnescapedRest(s: bytes)
    requires Unescape(s).Some?
    ensures var rest := Unescape(s).value.1; rest == s[|s| - |rest|..]
  {
  }

  /** Plain characters in front. */
  lemma {:induction false} PlainAhead(s: bytes, n: nat)
    requires FirstStop(s).Some?
    ensures n < FirstStop(s).value ==> s[n] != QUOTE
    ensures n >= FirstStop(s).value ==>
      (StartsAt(s, n) <==> StartsAt(s[FirstStop(s).value..], n - FirstStop(s).value))
  {
    var k := FirstStop(s).value;
    if k > 0 {
      assert s[1..][k - 1..] == s[k..];
      if n > 0 {
        PlainAhead(s[1..], n - 1);
      }
    } else {
      assert s[0..] == s;
    }
  }

  /** Where a quote closes the string, if its first stop is an escape. */
  lemma ClosedBehindEscape(s: bytes, n: nat)
    requires FirstStop(s).Some? && s[FirstStop(s).value] == BACKSLASH
    requires Unescape(s[FirstStop(s).value + 1..]).Some?
    ensures var rest := Unescape(s[FirstStop(s).value + 1..]).value.1;
      var o := |s| - |rest|;
      && 0 < o && rest == s[o..]
      && (ClosedAt(s, n) <==> n >= o && ClosedAt(rest, n - o))
  {
    hide FirstStop;
    hide Unescape;
    var k := FirstStop(s).value;
    UnescapedRest(s[k + 1..]);
    PlainAhead(s, n);
    assert s[k..][1..] == s[k + 1..];
  }

  /** An accepted string is closed by a quote, and read to just behind it, if and only if its text
    * does not end at once or right behind an escape. */
  lemma {:induction false} ClosedExactly(s: bytes)
    requires Unquoted(s).Some?
    ensures (exists n: nat :: ClosedAt(s, n)) <==> !EndsOpen(s)
    ensures EndsOpen(s) ==> Unquoted(s).value.1 == []
    ensures !EndsOpen(s) ==> exists n: nat :: ClosedAt(s, n) && Unquoted(s).value.1 == s[n + 1..]
    decreases |s|
  {
    if s != [] {
      FirstOfAccepted(s);
      hide *;
      var k := FirstStop(s).value;
      if s[k] == QUOTE {
        QuoteFirst(s);
      } else {
        var rest := Unescape(s[k + 1..]).value.1;
        ClosedExactly(rest);
        if !EndsOpen(rest) {
          var m: nat :| ClosedAt(rest, m) && Unquoted(rest).value.1 == rest[m + 1..];
          ClosedLater(s, rest, m);
        } else {
          forall n: nat ensures !ClosedAt(s, n) {
            ClosedBehindEscape(s, n);
          }
        }
      }
    }
  }

  /** What an accepted text begins with. */
  lemma FirstOfAccepted(s: bytes)
    requires s != [] && Unquoted(s).Some?
    ensures FirstStop(s).Some?
    ensures var k := FirstStop(s).value;
      if s[k] == QUOTE then Unquoted(s).value.1 == s[k + 1..] && !EndsOpen(s)
      else
        && s[k] == BACKSLASH && Unescape(s[k + 1..]).Some?
        && var rest := Unescape(s[k + 1..]).value.1;
        && |rest| < |s| && Unquoted(rest).Some? && Unquoted(s).value.1 == Unquoted(rest).value.1
        && (EndsOpen(s) <==> EndsOpen(rest))
  {
    hide Unescape;
  }

  lemma QuoteFirst(s: bytes)
    requires FirstStop(s).Some? && s[FirstStop(s).value] == QUOTE
    ensures ClosedAt(s, FirstStop(s).value)
  {
    PlainAhead(s, FirstStop(s).value);
  }

  /** A quote that closes what follows the first escape closes the text. */
  lemma ClosedLater(s: bytes, rest: bytes, m: nat)
    requires FirstStop(s).Some? && s[FirstStop(s).value] == BACKSLASH
    requires Unescape(s[FirstStop(s).value + 1..]).Some? && rest == Unescape(s[FirstStop(s).value + 1..]).value.1
    requires ClosedAt(rest, m)
    ensures var n := |s| - |rest| + m; n >= 0 && ClosedAt(s, n) && rest[m + 1..] == s[n + 1..]
  {
    hide FirstStop;
    hide Unescape;
    hide StartsAt;
    var o := |s| - |rest|;
    ClosedBehindEscape(s, 0);
    ClosedBehindEscape(s, o + m);
    TailOfTail(s, o, m + 1);
  }

  lemma TailOfTail(s: bytes, o: nat, n: nat)
    requires o + n <= |s|
    ensures s[o..][n..] == s[o + n..]
  {
  }

  /** And every such text is accepted. */
  lemma {:induction false} OpenIsAccepted(s: bytes)
    requires EndsOpen(s)
    ensures Unquoted(s).Some?
    decreases |s|
  {
    if s != [] {
      OpenIsAccepted(Unescape(s[FirstStop(s).value + 1..]).value.1);
    }
  }

  /** The least ones: no text at all, and one escape. */
  lemma OpenStrings()
    ensures Unquoted([]) == Some(([], []))
    ensures EndsOpen([BACKSLASH, 0x6E]) && Unquoted([BACKSLASH, 0x6E]) == Some(([0x0A], []))
  {
    var s: bytes, e: bytes := [BACKSLASH, 0x6E], [0x6E];
    assert s[0 + 1..] == e && e[1..] == [] && e + [] == e && [BACKSLASH] + e + [] == s;
    UnquotedEnd();
    EscapeIsRead(e, [0x0A], []);
    JoinedEnd([0x0A]);
  }

  // ----- reading past the end --------------------------------------------------------------------

  /** `text` is well-formed up to a last sequence that it ends within. */
  ghost predicate EndsWithin(text: bytes, cps: seq<nat>, last: bytes) {
    Scalars(cps) && text == Utf8Text(cps) + last && Incomplete(last)
  }

  lemma {:induction false} EndingFound(text: bytes) returns (cps: seq<nat>, last: bytes)
    requires ReadsPast(text)
    ensures EndsWithin(text, cps, last)
    decreases |text|
  {
    hide Decode;
    hide EncodeUtf8;
    if Incomplete(text) {
      cps, last := [], text;
      assert [] + text == text;
    } else {
      EncodeInvertsDecode(text);
      var d := Decode(text).value;
      var others;
      others, last := EndingFound(text[d.1..]);
      cps := [d.0] + others;
      assert cps[1..] == others && Utf8Text(cps) == text[..d.1] + Utf8Text(others);
      CutAndJoined(text, d.1, Utf8Text(others), last);
    }
  }

  lemma CutAndJoined(text: bytes, n: nat, middle: bytes, last: bytes)
    requires n <= |text| && text[n..] == middle + last
    ensures text == text[..n] + middle + last
  {
    Assoc(text[..n], middle, last);
  }

  lemma OneMoreRead(cp: nat, rest: bytes)
    requires IsScalar(cp)
    ensures ReadsPast(EncodeUtf8(cp) + rest) <==> ReadsPast(rest)
  {
    hide Decode;
    DecodeInvertsEncode(cp, rest);
    EncodedLength(cp);
    var e := EncodeUtf8(cp);
    assert (e + rest)[0] == e[0] && (e + rest)[|e|..] == rest;
  }

  lemma {:induction false} ReadsPastText(cps: seq<nat>, last: bytes)
    requires Scalars(cps)
    ensures ReadsPast(Utf8Text(cps) + last) <==> ReadsPast(last)
  {
    if cps == [] {
      assert [] + last == last;
    } else {
      hide EncodeUtf8;
      hide ReadsPast;
      var e, rest := EncodeUtf8(cps[0]), Utf8Text(cps[1..]);
      Assoc(e, rest, last);
      OneMoreRead(cps[0], rest + last);
      ReadsPastText(cps[1..], last);
    }
  }

  /** The writer reads behind the end of a text exactly if the text, well-formed up to there, ends
    * in an incomplete sequence: never for UTF-8. */
  lemma ReadsPastExactly(text: bytes)
    ensures ReadsPast(text) <==> exists cps: seq<nat>, last: bytes :: EndsWithin(text, cps, last)
  {
    if ReadsPast(text) {
      var cps, last := EndingFound(text);
    }
    if cps: seq<nat>, last: bytes :| EndsWithin(text, cps, last) {
      ReadsPastText(cps, last);
    }
  }

  lemma Utf8StaysInside(cps: seq<nat>)
    requires Scalars(cps)
    ensures !ReadsPast(Utf8Text(cps))
  {
    ReadsPastText(cps, []);
    assert Utf8Text(cps) + [] == Utf8Text(cps);
  }

  /** What the writer accepts without reading behind it is the UTF-8 form of scalar values. */
  lemma {:induction false} InsideIsUtf8(text: bytes, behind: bytes) returns (cps: seq<nat>)
    requires |behind| >= 3 && Written(text + behind, |text|).Some? && !ReadsPast(text)
    ensures Scalars(cps) && Utf8Text(cps) == text
    decreases |text|
  {
    hide IsScalar;
    hide IsTail;
    hide WellFormedLength;
    hide CodePoint;
    hide EncodeUtf8;
    hide EscapeOne;
    if text == [] {
      cps := [];
    } else {
      hide Decode;
      DecodePrefix(text, behind);
      EncodeInvertsDecode(text);
      var d := Decode(text).value;
      assert (text + behind)[d.1..] == text[d.1..] + behind;
      var others := InsideIsUtf8(text[d.1..], behind);
      cps := [d.0] + others;
      assert cps[1..] == others;
      assert text == text[..d.1] + text[d.1..];
    }
  }

  /** A text that the writer accepts is UTF-8 if and only if nothing behind it was read. */
  lemma AcceptedIsUtf8(text: bytes, behind: bytes)
    requires |behind| >= 3 && Written(text + behind, |text|).Some?
    ensures (exists cps: seq<nat> :: Scalars(cps) && Utf8Text(cps) == text) <==> !ReadsPast(text)
  {
    hide Written;
    if !ReadsPast(text) {
      var cps := InsideIsUtf8(text, behind);
    }
    if cps: seq<nat> :| Scalars(cps) && Utf8Text(cps) == text {
      Utf8StaysInside(cps);
    }
  }

  /** The least text that is accepted for the bytes behind it: the first byte of a sequence. */
  lemma TruncatedAccepted()
    ensures Written([0xC3, 0xA9, 0, 0], 1).Some? && ReadsPast([0xC3])
  {
    DecodeInvertsEncode(0xE9, [0, 0]);
    assert EncodeUtf8(0xE9) + [0, 0] == [0xC3, 0xA9, 0, 0];
  }

  /** In a string with a zero behind its end only UTF-8 is accepted. */
  lemma {:induction false} TerminatedIsUtf8(text: bytes, behind: bytes)
    requires |behind| >= 3 && behind[0] == 0 && Written(text + behind, |text|).Some?
    ensures !ReadsPast(text)
    decreases |text|
  {
    hide EncodeUtf8;
    hide EscapeOne;
    if text != [] {
      if Incomplete(text) {
        TailsNeeded(text + behind, |text|);
      } else {
        hide Decode;
        DecodePrefix(text, behind);
        EncodeInvertsDecode(text);
        var d := Decode(text).value;
        assert (text + behind)[d.1..] == text[d.1..] + behind;
        TerminatedIsUtf8(text[d.1..], behind);
      }
    }
  }

  /** A zero within the bytes that a sequence asks for. */
  lemma TailsNeeded(memory: bytes, k: nat)
    requires 0 < k < |memory| && !Incomplete(memory) && k < Wanted(memory[0]) && memory[k] == 0
    ensures Decode(memory) == None
  {
    assert memory[k] == At(memory, k);
  }
}
