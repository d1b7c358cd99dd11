/** Fields no member is declared for.  `WireField` is the Protocol Buffers wire format as a
  * grammar: any tag, varint and length spelling the decoder accepts, and nested groups.
  */
module UnknownFields {
  import opened Wire
  import opened Schema
  import opened PbParse

  datatype WireField = WireField(tag: bytes, number: nat, body: WireBody)

  datatype WireBody =
    | VarintBody(raw: bytes)
    | Fixed64Body(raw: bytes)
    | LenBody(len: bytes, payload: bytes)
    | GroupBody(children: seq<WireField>, endTag: bytes)
    | Fixed32Body(raw: bytes)

  function TypeOf(b: WireBody): WireType {
    match b
    case VarintBody(_) => VarintType
    case Fixed64Body(_) => Fixed64Type
    case LenBody(_, _) => LengthDelimited
    case GroupBody(_, _) => StartGroup
    case Fixed32Body(_) => Fixed32Type
  }

  predicate SpellsVarint(raw: bytes, v: nat) {
    ReadVarint(raw) == Ok(Varint(v, |raw|))
  }

  predicate SpellsKey(raw: bytes, number: nat, wire: WireType) {
    DecodeKey(raw, true) == Ok(Key(number, wire, |raw|))
  }

  predicate WellFormed(f: WireField)
    decreases f
  {
    SpellsKey(f.tag, f.number, TypeOf(f.body)) && WellFormedBody(f.body, f.number)
  }

  predicate WellFormedBody(b: WireBody, number: nat)
    decreases b
  {
    match b
    case VarintBody(raw) => ReadVarint(raw).Ok? && ReadVarint(raw).value.size == |raw|
    case Fixed64Body(raw) => |raw| == 8
    case LenBody(len, payload) => SpellsVarint(len, |payload|)
    case GroupBody(children, endTag) =>
      (forall i | 0 <= i < |children| :: WellFormed(children[i])) && SpellsKey(endTag, number, EndGroup)
    case Fixed32Body(raw) => |raw| == 4
  }

  function EncodeBody(b: WireBody): bytes
    decreases b
  {
    match b
    case VarintBody(raw) => raw
    case Fixed64Body(raw) => raw
    case LenBody(len, payload) => len + payload
    case GroupBody(children, endTag) => EncodeWire(children) + endTag
    case Fixed32Body(raw) => raw
  }

  function EncodeWire(fields: seq<WireField>): bytes
    decreases fields
  {
    if fields == [] then [] else EncodeWireField(fields[0]) + EncodeWire(fields[1..])
  }

  function EncodeWireField(f: WireField): bytes
    decreases f
  {
    f.tag + EncodeBody(f.body)
  }

  function Max(a: nat, b: nat): nat { if a < b then b else a }

  /** How deep groups are nested. */
  function BodyNesting(b: WireBody): nat
    decreases b
  {
    match b
    case GroupBody(children, _) => 1 + Nesting(children)
    case _ => 0
  }

  function Nesting(fields: seq<WireField>): nat
    decreases fields
  {
    if fields == [] then 0 else Max(FieldNesting(fields[0]), Nesting(fields[1..]))
  }

  function FieldNesting(f: WireField): nat
    decreases f
  {
    BodyNesting(f.body)
  }

  // ----- skipping is exact ----------------------------------------------------------------------

  lemma {:induction false} VarintExtends(raw: bytes, rest: bytes, i: nat)
    requires i <= 9 && ReadVarint(raw, i).Ok? && ReadVarint(raw, i).value.size == |raw|
    ensures ReadVarint(raw + rest, i) == ReadVarint(raw, i)
    ensures (raw + rest)[|raw|..] == rest
    decreases 10 - i
  {
    if raw[0] >= 128 {
      assert (raw + rest)[1..] == raw[1..] + rest;
      VarintExtends(raw[1..], rest, i + 1);
    }
  }

  lemma KeyExtends(raw: bytes, rest: bytes, number: nat, wire: WireType)
    requires SpellsKey(raw, number, wire)
    ensures DecodeKey(raw + rest, true) == Ok(Key(number, wire, |raw|))
    ensures wire != EndGroup ==> DecodeKey(raw + rest) == Ok(Key(number, wire, |raw|))
    ensures (raw + rest)[|raw|..] == rest
  {
    VarintExtends(raw, rest, 0);
  }

  function Limited(nesting: nat, depth: nat, rest: bytes): Result<bytes> {
    if depth + nesting <= MAX_DEPTH then Ok(rest) else Err(RecursionLimit)
  }

  lemma LenBodySkips(len: bytes, payload: bytes, rest: bytes)
    requires SpellsVarint(len, |payload|)
    ensures ReadLenDelim(len + payload + rest) == Ok((payload, rest))
  {
    VarintExtends(len, payload + rest, 0);
    Assoc(len, payload, rest);
    assert (payload + rest)[..|payload|] == payload && (payload + rest)[|payload|..] == rest;
  }

  lemma LenBodySplits(s: bytes) returns (len: bytes)
    requires ReadLenDelim(s).Ok?
    ensures var (payload, rest) := ReadLenDelim(s).value;
      SpellsVarint(len, |payload|) && s == len + payload + rest
  {
    var n := ReadVarint(s).value;
    VarintPrefix(s, 0);
    len := s[..n.size];
    var body := s[n.size..];
    assert s == len + body && body == body[..n.value] + body[n.value..];
    Assoc(len, body[..n.value], body[n.value..]);
  }

  /** Skipping a well-formed field consumes its encoding and nothing more, unless its groups
    * are nested too deep. */
  lemma {:induction false} SkipConsumesField(b: WireBody, number: nat, rest: bytes, depth: nat)
    requires WellFormedBody(b, number) && depth <= MAX_DEPTH
    ensures SkipUnknown(EncodeBody(b) + rest, TypeOf(b), number, depth) == Limited(BodyNesting(b), depth, rest)
    decreases b
  {
    hide ReadVarint;
    hide SkipGroup;
    if !b.GroupBody? {
      SkipConsumesLeaf(b, number, rest, depth);
    } else if depth < MAX_DEPTH {
      SkipConsumesGroup(b.children, b.endTag, number, rest, depth + 1);
      Assoc(EncodeWire(b.children), b.endTag, rest);
    }
  }

  lemma SkipConsumesLeaf(b: WireBody, number: nat, rest: bytes, depth: nat)
    requires WellFormedBody(b, number) && !b.GroupBody?
    ensures SkipUnknown(EncodeBody(b) + rest, TypeOf(b), number, depth) == Ok(rest)
  {
    match b
    case VarintBody(raw) => VarintExtends(raw, rest, 0);
    case Fixed64Body(raw) => assert (raw + rest)[8..] == rest;
    case Fixed32Body(raw) => assert (raw + rest)[4..] == rest;
    case LenBody(len, payload) => LenBodySkips(len, payload, rest);
  }

  lemma {:induction false} SkipConsumesGroup(children: seq<WireField>, endTag: bytes, number: nat, rest: bytes,
      depth: nat)
    requires (forall i | 0 <= i < |children| :: WellFormed(children[i])) && SpellsKey(endTag, number, EndGroup)
    requires depth <= MAX_DEPTH
    ensures SkipGroup(EncodeWire(children) + (endTag + rest), number, depth) == Limited(Nesting(children), depth, rest)
    decreases children
  {
    if children == [] {
      KeyExtends(endTag, rest, number, EndGroup);
      assert EncodeWire(children) + (endTag + rest) == endTag + rest;
    } else {
      var f := children[0];
      var others := EncodeWire(children[1..]) + (endTag + rest);
      var s := EncodeWire(children) + (endTag + rest);
      Assoc(EncodeWireField(f), EncodeWire(children[1..]), endTag + rest);
      Assoc(f.tag, EncodeBody(f.body), others);
      KeyExtends(f.tag, EncodeBody(f.body) + others, f.number, TypeOf(f.body));
      SkipConsumesField(f.body, f.number, others, depth);
      SkipConsumesGroup(children[1..], endTag, number, rest, depth);
    }
  }

  /** Conversely, whatever is skipped is a well-formed field, nested within the limit. */
  lemma {:induction false} SkippedIsWellFormed(s: bytes, wire: WireType, number: nat, depth: nat) returns (b: WireBody)
    requires SkipUnknown(s, wire, number, depth).Ok? && depth <= MAX_DEPTH
    ensures WellFormedBody(b, number) && TypeOf(b) == wire && depth + BodyNesting(b) <= MAX_DEPTH
    ensures s == EncodeBody(b) + SkipUnknown(s, wire, number, depth).value
    decreases |s|, 1
  {
    hide ReadVarint;
    hide ReadLenDelim;
    hide SkipGroup;
    hide SpellsVarint;
    hide SpellsKey;
    hide Nesting;
    hide EncodeWire;
    hide WellFormed;
    match wire
    case VarintType =>
      VarintPrefix(s, 0);
      b := VarintBody(s[..ReadVarint(s).value.size]);
    case Fixed64Type => b := Fixed64Body(s[..8]);
    case Fixed32Type => b := Fixed32Body(s[..4]);
    case LengthDelimited =>
      var len := LenBodySplits(s);
      b := LenBody(len, ReadLenDelim(s).value.0);
    case StartGroup =>
      var children, endTag := GroupIsWellFormed(s, number, depth + 1);
      b := GroupBody(children, endTag);
      Assoc(EncodeWire(children), endTag, SkipGroup(s, number, depth + 1).value);
  }

  lemma {:induction false} VarintPrefix(s: bytes, i: nat)
    requires i <= 9 && ReadVarint(s, i).Ok?
    ensures ReadVarint(s[..ReadVarint(s, i).value.size], i) == ReadVarint(s, i)
    decreases 10 - i
  {
    if s[0] >= 128 {
      VarintPrefix(s[1..], i + 1);
      var n := ReadVarint(s, i).value.size;
      assert s[..n][1..] == s[1..][..n - 1];
    }
  }

  lemma {:induction false} GroupIsWellFormed(s: bytes, number: nat, depth: nat)
      returns (children: seq<WireField>, endTag: bytes)
    requires SkipGroup(s, number, depth).Ok? && depth <= MAX_DEPTH
    ensures (forall i | 0 <= i < |children| :: WellFormed(children[i])) && SpellsKey(endTag, number, EndGroup)
    ensures depth + Nesting(children) <= MAX_DEPTH
    ensures s == EncodeWire(children) + (endTag + SkipGroup(s, number, depth).value)
    decreases |s|, 0
  {
    hide ReadVarint;
    hide ReadLenDelim;
    hide SkipUnknown;
    hide SpellsVarint;
    hide SpellsKey;
    hide EncodeBody;
    hide WellFormedBody;
    var key := DecodeKey(s, true).value;
    var tag, rest := s[..key.size], s[key.size..];
    KeyPrefix(s);
    if key.wire == EndGroup {
      children, endTag := [], tag;
      assert EncodeWire(children) + (endTag + rest) == tag + rest;
    } else {
      var b := SkippedIsWellFormed(rest, key.wire, key.number, depth);
      var r := SkipUnknown(rest, key.wire, key.number, depth).value;
      var f := WireField(tag, key.number, b);
      assert WellFormed(f) && s == tag + (EncodeBody(b) + r);
      var others;
      others, endTag := GroupIsWellFormed(r, number, depth);
      children := [f] + others;
      GroupPrepend(f, others, endTag + SkipGroup(s, number, depth).value);
    }
  }

  lemma GroupPrepend(f: WireField, others: seq<WireField>, rest: bytes)
    ensures EncodeWire([f] + others) + rest == f.tag + (EncodeBody(f.body) + (EncodeWire(others) + rest))
    ensures Nesting([f] + others) == Max(BodyNesting(f.body), Nesting(others))
  {
    assert ([f] + others)[1..] == others;
    Assoc(EncodeWireField(f), EncodeWire(others), rest);
    Assoc(f.tag, EncodeBody(f.body), EncodeWire(others) + rest);
  }

  lemma KeyPrefix(s: bytes)
    requires DecodeKey(s, true).Ok?
    ensures var key := DecodeKey(s, true).value;
      SpellsKey(s[..key.size], key.number, key.wire) && s == s[..key.size] + s[key.size..]
  {
    VarintPrefix(s, 0);
  }

  // ----- what from_pb keeps ----------------------------------------------------------------------

  /** The wire fields of `ws` no member of `fs` is declared for, in order. */
  function KeepUnlisted(fs: seq<Field>, ws: seq<WireField>): seq<WireField> {
    if ws == [] then []
    else (if FindField(fs, ws[0].number).Unlisted? then [ws[0]] else []) + KeepUnlisted(fs, ws[1..])
  }

  lemma ElemIsWireField(env: Env, e: Elem, cur: Value, s: bytes, depth: nat) returns (b: WireBody)
    requires ValidEnv(env) && ElemOk(env, e, cur) && ParseElem(env, e, cur, s, depth).Ok?
    ensures !b.GroupBody? && TypeOf(b) == WireOf(e) && WellFormedBody(b, 1)
    ensures s == EncodeBody(b) + ParseElem(env, e, cur, s, depth).value.1
  {
    hide FixedValue;
    hide SpellsVarint;
    hide SpellsKey;
    hide ReadLenDelim;
    hide ReadVarint;
    hide ParseMessage;
    hide MessageOk;
    hide DefaultElem;
    if e.Num? {
      var w := e.s.Width();
      if w == 0 {
        VarintPrefix(s, 0);
        b := VarintBody(s[..ReadVarint(s).value.size]);
      } else {
        b := if w == 4 then Fixed32Body(s[..4]) else Fixed64Body(s[..8]);
      }
    } else {
      var len := LenBodySplits(s);
      b := LenBody(len, ReadLenDelim(s).value.0);
    }
  }

  /** A listed field that is accepted is a well-formed wire field, or its tag ends the input. */
  lemma ListedIsWireField(env: Env, f: Field, c: nat, cur: Value, wire: WireType, s: bytes, depth: nat)
      returns (b: WireBody)
    requires ValidEnv(env) && ValidField(env, f) && FieldOk(env, f, cur) && (f.Oneof? ==> c < |f.cases|)
    requires ParseField(env, f, c, cur, wire, s, depth).Ok?
    ensures s == [] ==> ParseField(env, f, c, cur, wire, s, depth).value.1 == []
    ensures s != [] ==>
      && !b.GroupBody? && TypeOf(b) == wire && WellFormedBody(b, 1)
      && s == EncodeBody(b) + ParseField(env, f, c, cur, wire, s, depth).value.1
  {
    b := VarintBody([]);
    if s != [] {
      match f
      case Single(_, e) => b := ElemIsWireField(env, e, cur, s, depth);
      case Optional(_, e, _) =>
        b := ElemIsWireField(env, e, if cur.Nothing? then DefaultElem(env, e) else cur.v, s, depth);
      case Repeated(_, e) =>
        if e.Num? && wire == LengthDelimited {
          var len := LenBodySplits(s);
          b := LenBody(len, ReadLenDelim(s).value.0);
        } else {
          b := ElemIsWireField(env, e, DefaultElem(env, e), s, depth);
        }
      case MapOf(_, _, _) =>
        var len := LenBodySplits(s);
        b := LenBody(len, ReadLenDelim(s).value.0);
      case Oneof(cases, _) => b := ElemIsWireField(env, cases[c].elem, DefaultElem(env, cases[c].elem), s, depth);
    }
  }

  /** The tag of a listed field and nothing else. */
  predicate LoneTag(fs: seq<Field>, s: bytes) {
    match DecodeKey(s)
    case Ok(key) => key.size == |s| && FindField(fs, key.number).Listed?
    case Err(_) => false
  }

  /** What one accepted occurrence `f` leaves in the target. */
  ghost predicate Kept(fs: seq<Field>, f: WireField, before: bytes, after: bytes) {
    after == if FindField(fs, f.number).Unlisted? then before + EncodeWireField(f) else before
  }

  lemma OneAccepted(env: Env, id: nat, cur: Value, s: bytes, depth: nat) returns (f: WireField)
    requires ValidEnv(env) && id < |env| && MessageOk(env, env[id], cur) && depth <= MAX_DEPTH
    requires ParseOne(env, id, cur, s, depth).Ok?
    ensures var (v, r) := ParseOne(env, id, cur, s, depth).value;
      || (LoneTag(env[id], s) && r == [] && v.unknown == cur.unknown)
      || (WellFormed(f) && s == EncodeWireField(f) + r && Kept(env[id], f, cur.unknown, v.unknown))
  {
    if FindField(env[id], DecodeKey(s).value.number).Unlisted? {
      f := UnlistedAccepted(env, id, cur, s, depth);
    } else {
      f := ListedAccepted(env, id, cur, s, depth);
    }
  }

  lemma UnlistedAccepted(env: Env, id: nat, cur: Value, s: bytes, depth: nat) returns (f: WireField)
    requires ValidEnv(env) && id < |env| && MessageOk(env, env[id], cur) && depth <= MAX_DEPTH
    requires ParseOne(env, id, cur, s, depth).Ok? && FindField(env[id], DecodeKey(s).value.number).Unlisted?
    ensures var (v, r) := ParseOne(env, id, cur, s, depth).value;
      WellFormed(f) && s == EncodeWireField(f) + r && Kept(env[id], f, cur.unknown, v.unknown)
  {
    hide EncodeBody;
    hide ValidEnv;
    hide MessageOk;
    hide SkipUnknown;
    var key := DecodeKey(s).value;
    var tag, rest := s[..key.size], s[key.size..];
    KeyPrefix(s);
    var b := SkippedIsWellFormed(rest, key.wire, key.number, depth);
    var r := SkipUnknown(rest, key.wire, key.number, depth).value;
    Assoc(tag, EncodeBody(b), r);
    f := WireField(tag, key.number, b);
    assert s[..|s| - |r|] == EncodeWireField(f);
  }

  lemma ListedAccepted(env: Env, id: nat, cur: Value, s: bytes, depth: nat) returns (f: WireField)
    requires ValidEnv(env) && id < |env| && MessageOk(env, env[id], cur)
    requires ParseOne(env, id, cur, s, depth).Ok? && FindField(env[id], DecodeKey(s).value.number).Listed?
    ensures var (v, r) := ParseOne(env, id, cur, s, depth).value;
      v.unknown == cur.unknown &&
      ((LoneTag(env[id], s) && r == []) || (WellFormed(f) && s == EncodeWireField(f) + r))
    ensures f.number == DecodeKey(s).value.number
  {
    hide SkipUnknown;
    hide ParseField;
    hide FindField;
    var key := DecodeKey(s).value;
    var tag, rest := s[..key.size], s[key.size..];
    KeyPrefix(s);
    var Listed(i, c) := FindField(env[id], key.number);
    assert ValidFields(env, env[id]);
    var b := ListedIsWireField(env, env[id][i], c, cur.members[i], key.wire, rest, depth);
    f := WireField(tag, key.number, b);
    if rest != [] {
      WellFormedAnyNumber(b, 1, key.number);
      Assoc(tag, EncodeBody(b), ParseField(env, env[id][i], c, cur.members[i], key.wire, rest, depth).value.1);
    }
  }

  /** Accepted input is a sequence of well-formed wire fields (and perhaps a last tag whose
    * repeated or map field is missing); the target keeps the bytes of the unlisted ones. */
  lemma {:induction false} AcceptedInput(env: Env, id: nat, cur: Value, s: bytes, depth: nat)
      returns (ws: seq<WireField>, dangling: bytes)
    requires ValidEnv(env) && id < |env| && MessageOk(env, env[id], cur) && depth <= MAX_DEPTH
    requires ParseFields(env, id, cur, s, depth).Ok?
    ensures forall i | 0 <= i < |ws| :: WellFormed(ws[i])
    ensures s == EncodeWire(ws) + dangling && (dangling == [] || LoneTag(env[id], dangling))
    ensures ParseFields(env, id, cur, s, depth).value.unknown == cur.unknown + EncodeWire(KeepUnlisted(env[id], ws))
    decreases |s|
  {
    hide ReadVarint;
    hide ReadLenDelim;
    hide SkipUnknown;
    hide SpellsVarint;
    hide SpellsKey;
    hide EncodeBody;
    hide WellFormedBody;
    hide ParseOne;
    hide LoneTag;
    hide FindField;
    hide ParseField;
    if s == [] {
      return [], [];
    }
    var (v, r) := ParseOne(env, id, cur, s, depth).value;
    var f := OneAccepted(env, id, cur, s, depth);
    if LoneTag(env[id], s) && r == [] && v.unknown == cur.unknown {
      assert EncodeWire([]) + s == s;
      return [], s;
    }
    var others;
    others, dangling := AcceptedInput(env, id, v, r, depth);
    ws := [f] + others;
    assert ws[1..] == others;
    Assoc(EncodeWireField(f), EncodeWire(others), dangling);
    KeepFirst(env[id], ws, cur.unknown);
  }

  lemma WellFormedAnyNumber(b: WireBody, m: nat, n: nat)
    requires WellFormedBody(b, m) && !b.GroupBody?
    ensures WellFormedBody(b, n)
  {
  }

  lemma KeepFirst(fs: seq<Field>, ws: seq<WireField>, before: bytes)
    requires ws != []
    ensures before + EncodeWire(KeepUnlisted(fs, ws)) ==
      (if FindField(fs, ws[0].number).Unlisted? then before + EncodeWireField(ws[0]) else before)
      + EncodeWire(KeepUnlisted(fs, ws[1..]))
  {
    var kept := KeepUnlisted(fs, ws[1..]);
    if FindField(fs, ws[0].number).Unlisted? {
      assert ([ws[0]] + kept)[1..] == kept;
      Assoc(before, EncodeWireField(ws[0]), EncodeWire(kept));
    } else {
      assert [] + kept == kept;
    }
  }

  /** An accepted well-formed field is consumed whole. */
  lemma OneWireField(env: Env, id: nat, cur: Value, f: WireField, others: bytes, depth: nat)
    requires ValidEnv(env) && id < |env| && MessageOk(env, env[id], cur) && depth <= MAX_DEPTH
    requires WellFormed(f) && ParseOne(env, id, cur, EncodeWireField(f) + others, depth).Ok?
    ensures var (v, r) := ParseOne(env, id, cur, EncodeWireField(f) + others, depth).value;
      r == others && Kept(env[id], f, cur.unknown, v.unknown)
  {
    var s, wire := EncodeWireField(f) + others, TypeOf(f.body);
    var rest := EncodeBody(f.body) + others;
    Assoc(f.tag, EncodeBody(f.body), others);
    KeyExtends(f.tag, rest, f.number, wire);
    SkipConsumesField(f.body, f.number, others, depth);
    match FindField(env[id], f.number) {
      case Unlisted =>
        assert s[..|s| - |others|] == EncodeWireField(f);
      case Listed(i, c) =>
        assert ValidFields(env, env[id]);
        BodyNotEmpty(f.body, f.number);
        var b := ListedIsWireField(env, env[id][i], c, cur.members[i], wire, rest, depth);
        var p := ParseField(env, env[id][i], c, cur.members[i], wire, rest, depth).value;
        SkipConsumesLeaf(b, 1, p.1, depth);
        SameSkip(rest, wire, f.number, 1, depth);
    }
  }

  /** For every sequence of well-formed wire fields that is accepted, the target gains exactly
    * the bytes of the unlisted ones, in input order. */
  lemma {:induction false} UnknownFieldsAreKept(env: Env, id: nat, cur: Value, ws: seq<WireField>, depth: nat)
    requires ValidEnv(env) && id < |env| && MessageOk(env, env[id], cur) && depth <= MAX_DEPTH
    requires forall i | 0 <= i < |ws| :: WellFormed(ws[i])
    requires ParseFields(env, id, cur, EncodeWire(ws), depth).Ok?
    ensures ParseFields(env, id, cur, EncodeWire(ws), depth).value.unknown
         == cur.unknown + EncodeWire(KeepUnlisted(env[id], ws))
    decreases |ws|
  {
    if ws != [] {
      var s := EncodeWire(ws);
      BodyNotEmpty(ws[0].body, ws[0].number);
      assert ParseOne(env, id, cur, s, depth).Ok?;
      OneWireField(env, id, cur, ws[0], EncodeWire(ws[1..]), depth);
      UnknownFieldsAreKept(env, id, ParseOne(env, id, cur, s, depth).value.0, ws[1..], depth);
      KeepFirst(env[id], ws, cur.unknown);
    }
  }

  lemma BodyNotEmpty(b: WireBody, number: nat)
    requires WellFormedBody(b, number)
    ensures EncodeBody(b) != []
  {
  }

  lemma SameSkip(s: bytes, wire: WireType, m: nat, n: nat, depth: nat)
    requires wire != StartGroup
    ensures SkipUnknown(s, wire, m, depth) == SkipUnknown(s, wire, n, depth)
  {
  }
}
