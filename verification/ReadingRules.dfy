/** What the reader does with bytes that the writer does not write: map entries whose parts come
  * in any order and number, fields of another wire type, ragged runs. */
module ReadingRules {
  import opened Wire
  import opened Schema
  import opened PbParse
  import opened UnknownFields
  import opened RoundTrip
  import opened MergeLaw

  // ----- the parts of a map entry ----------------------------------------------------------------

  /** Keys, values, and fields that are neither. */
  datatype Part = KeyPart(v: Value) | ValuePart(v: Value) | OtherPart(f: WireField)

  ghost predicate PartOk(env: Env, k: Elem, e: Elem, p: Part, depth: nat) {
    match p
    case KeyPart(v) => ElemOk(env, k, v) && |EncodeElem(env, k, v)| < TWO_64
    case ValuePart(v) =>
      && ElemOk(env, e, v) && ElemKnown(env, e, v) && |EncodeElem(env, e, v)| < TWO_64
      && ElemFits(env, e, v, depth)
    case OtherPart(f) =>
      && WellFormed(f) && depth + BodyNesting(f.body) <= MAX_DEPTH
      && !(f.number == 1 && TypeOf(f.body) == WireOf(k)) && !(f.number == 2 && TypeOf(f.body) == WireOf(e))
  }

  ghost predicate PartsOk(env: Env, k: Elem, e: Elem, ps: seq<Part>, depth: nat) {
    forall i | 0 <= i < |ps| :: PartOk(env, k, e, ps[i], depth)
  }

  ghost function PartBytes(env: Env, k: Elem, e: Elem, p: Part, depth: nat): bytes
    requires PartOk(env, k, e, p, depth)
  {
    match p
    case KeyPart(v) => TagBytes(1, WireOf(k)) + EncodeElem(env, k, v)
    case ValuePart(v) => TagBytes(2, WireOf(e)) + EncodeElem(env, e, v)
    case OtherPart(f) => EncodeWireField(f)
  }

  ghost function PartsBytes(env: Env, k: Elem, e: Elem, ps: seq<Part>, depth: nat): bytes
    requires PartsOk(env, k, e, ps, depth)
  {
    if ps == [] then [] else PartBytes(env, k, e, ps[0], depth) + PartsBytes(env, k, e, ps[1..], depth)
  }

  /** The last key counts; values are merged, which for all but messages means that the last one
    * counts. */
  ghost function Taken(env: Env, k: Elem, e: Elem, kv: Entry, p: Part, depth: nat): (r: Entry)
    requires PartOk(env, k, e, p, depth) && ElemOk(env, k, kv.key) && ElemOk(env, e, kv.value)
    ensures ElemOk(env, k, r.key) && ElemOk(env, e, r.value)
  {
    match p
    case KeyPart(v) => Entry(v, kv.value)
    case ValuePart(v) => Entry(kv.key, ElemMerge(env, e, kv.value, v))
    case OtherPart(_) => kv
  }

  ghost function Assembled(env: Env, k: Elem, e: Elem, kv: Entry, ps: seq<Part>, depth: nat): (r: Entry)
    requires PartsOk(env, k, e, ps, depth) && ElemOk(env, k, kv.key) && ElemOk(env, e, kv.value)
    decreases |ps|
  {
    if ps == [] then kv else Assembled(env, k, e, Taken(env, k, e, kv, ps[0], depth), ps[1..], depth)
  }

  lemma KeyIsTaken(env: Env, k: Elem, e: Elem, kv: Entry, v: Value, rest: bytes, depth: nat)
    requires ValidEnv(env) && !k.Msg? && ElemOk(env, k, kv.key) && ElemOk(env, e, kv.value)
    requires ElemOk(env, k, v) && |EncodeElem(env, k, v)| < TWO_64
    ensures ParseEntry(env, k, e, kv, TagBytes(1, WireOf(k)) + EncodeElem(env, k, v) + rest, depth)
      == ParseEntry(env, k, e, Entry(v, kv.value), rest, depth)
  {
    hide DecodeKey;
    Assoc(TagBytes(1, WireOf(k)), EncodeElem(env, k, v), rest);
    TagRoundTrip(1, WireOf(k), EncodeElem(env, k, v) + rest);
    if k.Num? {
      ScalarParses(k.s, v.n, rest);
    } else {
      LenDelimRoundTrip(v.b, rest);
    }
  }

  lemma ValueIsTaken(env: Env, k: Elem, e: Elem, kv: Entry, v: Value, rest: bytes, depth: nat)
    requires ValidEnv(env) && !k.Msg? && ElemOk(env, k, kv.key) && ElemOk(env, e, kv.value) && depth <= MAX_DEPTH
    requires PartOk(env, k, e, ValuePart(v), depth)
    ensures ParseEntry(env, k, e, kv, TagBytes(2, WireOf(e)) + EncodeElem(env, e, v) + rest, depth)
      == ParseEntry(env, k, e, Entry(kv.key, ElemMerge(env, e, kv.value, v)), rest, depth)
  {
    hide DecodeKey;
    hide ParseElem;
    hide ElemMerge;
    hide ElemFits;
    Assoc(TagBytes(2, WireOf(e)), EncodeElem(env, e, v), rest);
    TagRoundTrip(2, WireOf(e), EncodeElem(env, e, v) + rest);
    ElemMerges(env, e, kv.value, v, rest, depth);
  }

  lemma OtherIsSkipped(env: Env, k: Elem, e: Elem, kv: Entry, f: WireField, rest: bytes, depth: nat)
    requires ValidEnv(env) && ElemOk(env, k, kv.key) && ElemOk(env, e, kv.value) && depth <= MAX_DEPTH
    requires PartOk(env, k, e, OtherPart(f), depth)
    ensures ParseEntry(env, k, e, kv, EncodeWireField(f) + rest, depth) == ParseEntry(env, k, e, kv, rest, depth)
  {
    hide DecodeKey;
    hide SkipUnknown;
    hide WellFormedBody;
    Assoc(f.tag, EncodeBody(f.body), rest);
    KeyExtends(f.tag, EncodeBody(f.body) + rest, f.number, TypeOf(f.body));
    SkipConsumesField(f.body, f.number, rest, depth);
  }

  lemma PartIsTaken(env: Env, k: Elem, e: Elem, kv: Entry, p: Part, rest: bytes, depth: nat)
    requires ValidEnv(env) && !k.Msg? && ElemOk(env, k, kv.key) && ElemOk(env, e, kv.value) && depth <= MAX_DEPTH
    requires PartOk(env, k, e, p, depth)
    ensures ParseEntry(env, k, e, kv, PartBytes(env, k, e, p, depth) + rest, depth)
      == ParseEntry(env, k, e, Taken(env, k, e, kv, p, depth), rest, depth)
  {
    hide ParseEntry;
    hide ElemMerge;
    match p
    case KeyPart(v) => KeyIsTaken(env, k, e, kv, v, rest, depth);
    case ValuePart(v) => ValueIsTaken(env, k, e, kv, v, rest, depth);
    case OtherPart(f) => OtherIsSkipped(env, k, e, kv, f, rest, depth);
  }

  /** A map entry is read whatever the order and number of its parts, unknown fields between them
    * included. */
  lemma {:induction false} EntryInAnyOrder(env: Env, k: Elem, e: Elem, kv: Entry, ps: seq<Part>, depth: nat)
    requires ValidEnv(env) && !k.Msg? && ElemOk(env, k, kv.key) && ElemOk(env, e, kv.value) && depth <= MAX_DEPTH
    requires PartsOk(env, k, e, ps, depth)
    ensures ParseEntry(env, k, e, kv, PartsBytes(env, k, e, ps, depth), depth)
      == Ok(Assembled(env, k, e, kv, ps, depth))
    decreases |ps|
  {
    hide ParseEntry;
    hide PartOk;
    hide PartBytes;
    hide Taken;
    if ps == [] {
      NoParts(env, k, e, kv, depth);
    } else {
      PartIsTaken(env, k, e, kv, ps[0], PartsBytes(env, k, e, ps[1..], depth), depth);
      EntryInAnyOrder(env, k, e, Taken(env, k, e, kv, ps[0], depth), ps[1..], depth);
    }
  }

  lemma NoParts(env: Env, k: Elem, e: Elem, kv: Entry, depth: nat)
    requires ValidEnv(env) && ElemOk(env, k, kv.key) && ElemOk(env, e, kv.value)
    ensures ParseEntry(env, k, e, kv, [], depth) == Ok(kv)
  {
  }

  // ----- what is refused -------------------------------------------------------------------------

  /** The wire types that a member takes under the number that was found. */
  predicate Takes(f: Field, c: nat, wire: WireType)
    requires f.Oneof? ==> c < |f.cases|
  {
    match f
    case Single(_, e) => wire == WireOf(e)
    case Optional(_, e, _) => wire == WireOf(e)
    case Repeated(_, e) => wire == WireOf(e) || wire == LengthDelimited
    case MapOf(_, _, _) => wire == LengthDelimited
    case Oneof(cases, _) => wire == WireOf(cases[c].elem)
  }

  lemma OtherTypeFails(env: Env, f: Field, c: nat, cur: Value, wire: WireType, s: bytes, depth: nat)
    requires ValidEnv(env) && ValidField(env, f) && FieldOk(env, f, cur)
    requires f.Oneof? ==> c < |f.cases|
    requires !Takes(f, c, wire)
    ensures ParseField(env, f, c, cur, wire, s, depth) == Err(WireTypeMismatch)
  {
  }

  /** Behind any encoding, a field of the message with another wire type than its member takes
    * makes the reading fail, whatever follows. */
  lemma MistypedIsRefused(env: Env, id: nat, cur: Value, v: Value, i: nat, c: nat, wire: WireType, rest: bytes,
                          depth: nat)
    requires ValidEnv(env) && id < |env| && MessageOk(env, env[id], cur) && 0 < depth <= MAX_DEPTH
    requires MessageOk(env, env[id], v) && MessageKnown(env, env[id], v) && |EncodeMessage(env, env[id], v)| < TWO_64
    requires MessageFits(env, env[id], v, depth - 1)
    requires i < |env[id]| && if env[id][i].Oneof? then c < |env[id][i].cases| else c == 0
    requires wire != EndGroup && !Takes(env[id][i], c, wire)
    ensures ParseFields(env, id, cur, EncodeMessage(env, env[id], v) + (TagBytes(NumberOf(env[id][i], c), wire) + rest),
                        depth) == Err(WireTypeMismatch)
  {
    hide ParseFields;
    hide ParseField;
    hide MessageMerge;
    var field := TagBytes(NumberOf(env[id][i], c), wire) + rest;
    MergeThen(env, id, cur, v, field, depth);
    var target := MessageMerge(env, env[id], cur, v);
    TagReaches(env, id, target, i, c, wire, rest, depth);
    assert ValidField(env, env[id][i]) && FieldOk(env, env[id][i], target.members[i]);
    OtherTypeFails(env, env[id][i], c, target.members[i], wire, rest, depth);
  }

  /** A lone tag at the very end is accepted by lists of strings or messages and by maps, which it
    * leaves as they are, and by nothing else. */
  lemma LoneTagAtEnd(env: Env, id: nat, cur: Value, v: Value, i: nat, c: nat, wire: WireType, depth: nat)
    requires ValidEnv(env) && id < |env| && MessageOk(env, env[id], cur) && 0 < depth <= MAX_DEPTH
    requires MessageOk(env, env[id], v) && MessageKnown(env, env[id], v) && |EncodeMessage(env, env[id], v)| < TWO_64
    requires MessageFits(env, env[id], v, depth - 1)
    requires i < |env[id]| && if env[id][i].Oneof? then c < |env[id][i].cases| else c == 0
    requires wire != EndGroup && Takes(env[id][i], c, wire)
    ensures var f := env[id][i];
      ParseFields(env, id, cur, EncodeMessage(env, env[id], v) + TagBytes(NumberOf(f, c), wire), depth)
        == if f.MapOf? || (f.Repeated? && !f.elem.Num?) then Ok(MessageMerge(env, env[id], cur, v))
           else Err(TooFewBytes)
  {
    hide ParseFields;
    hide ParseField;
    hide MessageMerge;
    var f := env[id][i];
    var tag := TagBytes(NumberOf(f, c), wire);
    assert tag + [] == tag;
    MergeThen(env, id, cur, v, tag, depth);
    var target := MessageMerge(env, env[id], cur, v);
    TagReaches(env, id, target, i, c, wire, [], depth);
    assert ValidField(env, f) && FieldOk(env, f, target.members[i]);
    NothingBehindTag(env, f, c, target.members[i], wire, depth);
    if f.MapOf? || (f.Repeated? && !f.elem.Num?) {
      assert target.(members := target.members[i := target.members[i]]) == target;
      AllFieldsRead(env, id, target, depth);
    }
  }

  lemma NothingBehindTag(env: Env, f: Field, c: nat, cur: Value, wire: WireType, depth: nat)
    requires ValidEnv(env) && ValidField(env, f) && FieldOk(env, f, cur)
    requires (f.Oneof? ==> c < |f.cases|) && Takes(f, c, wire)
    ensures ParseField(env, f, c, cur, wire, [], depth)
      == if f.MapOf? || (f.Repeated? && !f.elem.Num?) then Ok((cur, [])) else Err(TooFewBytes)
  {
  }

  /** A run of fixed-width numbers must hold whole numbers. */
  lemma RaggedIsRefused(env: Env, f: Field, cur: Value, payload: bytes, rest: bytes, depth: nat)
    requires ValidEnv(env) && ValidField(env, f) && FieldOk(env, f, cur) && f.Repeated? && f.elem.Num?
    requires (f.elem.s in {Fixed32, SFixed32} && |payload| % 4 != 0)
      || (f.elem.s in {Fixed64, SFixed64} && |payload| % 8 != 0)
    requires |payload| < TWO_64
    ensures ParseField(env, f, 0, cur, LengthDelimited, LenDelim(payload) + rest, depth) == Err(BadPackedLength)
  {
    LenDelimRoundTrip(payload, rest);
  }

  // ----- broken unknown fields ---------------------------------------------------------------------

  lemma {:induction false} ThroughChildren(children: seq<WireField>, t: bytes, number: nat, depth: nat)
    requires (forall i | 0 <= i < |children| :: WellFormed(children[i])) && depth + Nesting(children) <= MAX_DEPTH
    ensures SkipGroup(EncodeWire(children) + t, number, depth) == SkipGroup(t, number, depth)
    decreases |children|
  {
    hide DecodeKey;
    hide SkipUnknown;
    hide WellFormedBody;
    hide EncodeBody;
    if children == [] {
      assert EncodeWire(children) + t == t;
    } else {
      var f, rest := children[0], EncodeWire(children[1..]) + t;
      ThroughChildren(children[1..], t, number, depth);
      assert EncodeWire(children) + t == f.tag + (EncodeBody(f.body) + rest) by {
        Assoc(f.tag, EncodeBody(f.body), EncodeWire(children[1..]) + t);
        Assoc(EncodeWireField(f), EncodeWire(children[1..]), t);
      }
      KeyExtends(f.tag, EncodeBody(f.body) + rest, f.number, TypeOf(f.body));
      SkipConsumesField(f.body, f.number, rest, depth);
    }
  }

  /** A group that the input ends in, and one that ends with the tag of another. */
  lemma BrokenGroups(children: seq<WireField>, number: nat, other: nat, endTag: bytes, rest: bytes, depth: nat)
    requires (forall i | 0 <= i < |children| :: WellFormed(children[i])) && depth + 1 + Nesting(children) <= MAX_DEPTH
    requires SpellsKey(endTag, other, EndGroup) && other != number
    ensures SkipUnknown(EncodeWire(children), StartGroup, number, depth) == Err(MissingEndTag)
    ensures SkipUnknown(EncodeWire(children) + (endTag + rest), StartGroup, number, depth) == Err(MismatchedEndTag)
    ensures SkipUnknown(rest, EndGroup, number, depth) == Err(UnexpectedEndGroup)
  {
    hide DecodeKey;
    hide WellFormed;
    ThroughChildren(children, [], number, depth + 1);
    assert EncodeWire(children) + [] == EncodeWire(children);
    ThroughChildren(children, endTag + rest, number, depth + 1);
    KeyExtends(endTag, rest, other, EndGroup);
  }

  /** Numbers and lengths that the input ends in. */
  lemma BrokenLeaves(s: bytes, number: nat, depth: nat)
    ensures SkipUnknown(s, Fixed32Type, number, depth) == Err(TooFewBytes) <==> |s| < 4
    ensures SkipUnknown(s, Fixed64Type, number, depth) == Err(TooFewBytes) <==> |s| < 8
    ensures SkipUnknown(s, VarintType, number, depth).Err? <==> ReadVarint(s).Err?
    ensures ReadVarint(s).Err? ==> SkipUnknown(s, VarintType, number, depth) == Err(ReadVarint(s).error)
    ensures ReadLenDelim(s).Err? ==> SkipUnknown(s, LengthDelimited, number, depth) == Err(ReadLenDelim(s).error)
  {
    hide ReadVarint;
    hide ReadLenDelim;
  }
}
