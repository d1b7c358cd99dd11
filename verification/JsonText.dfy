/** Reading a whole JSON string value: white space and comments before it, the `null` that stands
  * for an empty string, the quotes. */
module JsonText {
  import opened Wire
  import opened Utf8
  import opened JsonString
  import JsonSkip
  import opened Wrappers

  /** n, u, l, l */
  const NULL: bytes := [0x6E, 0x75, 0x6C, 0x6C]

  /** `from_json_impl` for strings: the value, and what follows it. */
  function StringValue(s: bytes): Option<(bytes, bytes)> {
    var ahead := JsonSkip.SkipWs(s);
    if ahead.None? || ahead.value == [] then None
    else if NULL <= ahead.value then Some(([], ahead.value[4..]))
    else if ahead.value[0] == JsonString.QUOTE then Unquoted(ahead.value[1..])
    else None
  }

  /** `match` */
  method Match(text: bytes, start: nat, expected: bytes) returns (ok: bool)
    requires start <= |text|
    ensures ok <==> expected <= text[start..]
  {
    if |text| - start < |expected| {
      return false;
    }
    for i := 0 to |expected|
      invariant expected[..i] == text[start..start + i]
    {
      if text[start + i] != expected[i] {
        assert text[start..][i] != expected[i];
        return false;
      }
      assert expected[..i + 1] == expected[..i] + [expected[i]];
    }
    assert expected[..|expected|] == expected;
    assert text[start..][..|expected|] == text[start..start + |expected|];
    ok := true;
  }

  method ReadStringValue(text: bytes, begin: nat) returns (r: Option<(bytes, nat)>)
    requires begin <= |text|
    ensures match StringValue(text[begin..])
      case None => r.None?
      case Some(u) => r.Some? && r.value.0 == u.0 && r.value.1 <= |text| && text[r.value.1..] == u.1
  {
    hide Unquoted;
    hide JsonSkip.SkipWs;
    var at := JsonSkip.SkipWsAt(text, begin);
    if at.None? || at.value == |text| {
      return None;
    }
    var it := at.value;
    NullAhead(text, it);
    if text[it] == 0x6E {
      var ok := Match(text, it + 1, NULL[1..]);
      if !ok {
        return None;
      }
      return Some(([], it + 4));
    }
    var quoted := Match(text, it, [JsonString.QUOTE]);
    if !quoted {
      return None;
    }
    assert text[it..][1..] == text[it + 1..];
    r := ReadString(text, it + 1);
  }

  lemma NullAhead(text: bytes, it: nat)
    requires it < |text|
    ensures NULL <= text[it..] <==> text[it] == 0x6E && NULL[1..] <= text[it + 1..]
    ensures NULL <= text[it..] ==> text[it..][4..] == text[it + 4..]
    ensures [JsonString.QUOTE] <= text[it..] <==> text[it] == JsonString.QUOTE
  {
    var s, n := text[it..], NULL[1..];
    assert s[1..] == text[it + 1..] && NULL == [NULL[0]] + n;
    if NULL <= s {
      assert n == s[1..][..3];
    }
    if s[0] == 0x6E && n <= s[1..] {
      assert s == [s[0]] + s[1..];
      assert s[..4] == [s[0]] + s[1..][..3];
    }
  }

  /** A string written behind any white space and comments is read to just past its closing quote,
    * and is unchanged if and only if it has no code point above U+FFFF. */
  lemma ValueRoundTrip(w: JsonSkip.Space, cps: seq<nat>, behind: bytes, rest: bytes)
    requires JsonSkip.SpaceOk(w) && Scalars(cps) && |behind| >= 3
    ensures var text, written := Utf8Text(cps), Written(Utf8Text(cps) + behind, |Utf8Text(cps)|);
      && written.Some?
      && var quoted := [JsonString.QUOTE] + written.value + [JsonString.QUOTE];
      var back := StringValue(JsonSkip.PrintSpace(w) + (quoted + rest));
      && back.Some? && back.value.1 == rest
      && (back.value.0 == text <==> forall i | 0 <= i < |cps| :: cps[i] <= 0xFFFF)
  {
    hide Unquoted;
    hide Written;
    hide StringValue;
    hide Utf8Text;
    JsonStringRoundTrip(cps, behind, rest);
    QuotedValue(w, Written(Utf8Text(cps) + behind, |Utf8Text(cps)|).value, rest);
  }

  lemma QuotedValue(w: JsonSkip.Space, body: bytes, rest: bytes)
    requires JsonSkip.SpaceOk(w)
    ensures StringValue(JsonSkip.PrintSpace(w) + ([JsonString.QUOTE] + body + [JsonString.QUOTE] + rest))
      == Unquoted(body + [JsonString.QUOTE] + rest)
  {
    hide Unquoted;
    hide JsonSkip.PrintSpace;
    var s := [JsonString.QUOTE] + body + [JsonString.QUOTE] + rest;
    JsonSkip.SpaceSkipped(w, s);
    assert s[1..] == body + [JsonString.QUOTE] + rest;
    NothingToSkip(s);
  }

  /** `null` is read as the empty string. */
  lemma NullIsEmpty(w: JsonSkip.Space, rest: bytes)
    requires JsonSkip.SpaceOk(w)
    ensures StringValue(JsonSkip.PrintSpace(w) + (NULL + rest)) == Some(([], rest))
  {
    hide JsonSkip.PrintSpace;
    var s := NULL + rest;
    JsonSkip.SpaceSkipped(w, s);
    NothingToSkip(s);
    assert NULL <= s && s[4..] == rest;
  }

  lemma NothingToSkip(s: bytes)
    requires s != [] && s[0] >= 33 && s[0] != JsonSkip.SLASH
    ensures JsonSkip.SkipWs(s) == Some(s)
  {
  }
}
