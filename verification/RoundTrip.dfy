/** Reading back what was written.  `MessageRoundTrip` covers every conforming value: the nesting
  * limit is the only way to fail; an implicit `std::optional` that holds a default value and the
  * sign of a negative zero are the only things lost.
  */
module RoundTrip {
  import opened Wire
  import opened Schema
  import opened PbParse
  import opened UnknownFields

  // ----- what is kept, what fits ------------------------------------------------------------

  /** `u` is a sequence of well-formed wire fields that `fs` does not list. */
  ghost predicate Spells(fs: seq<Field>, ws: seq<WireField>, u: bytes) {
    && (forall i | 0 <= i < |ws| :: WellFormed(ws[i]) && FindField(fs, ws[i].number).Unlisted?)
    && EncodeWire(ws) == u
  }

  ghost predicate Unknowns(fs: seq<Field>, u: bytes) {
    exists ws :: Spells(fs, ws, u)
  }

  ghost function WireOfUnknown(fs: seq<Field>, u: bytes): (ws: seq<WireField>)
    requires Unknowns(fs, u)
    ensures Spells(fs, ws, u)
  {
    var ws :| Spells(fs, ws, u); ws
  }

  /** Every message in `v` keeps only well-formed unlisted fields as unknown bytes. */
  ghost predicate ElemKnown(env: Env, e: Elem, v: Value)
    requires ElemOk(env, e, v)
    decreases v, 1
  {
    e.Msg? ==> MessageKnown(env, env[e.id], v)
  }

  ghost predicate MessageKnown(env: Env, fs: seq<Field>, v: Value)
    requires MessageOk(env, fs, v)
    decreases v, 0
  {
    Unknowns(fs, v.unknown) && forall i | 0 <= i < |fs| :: FieldKnown(env, fs[i], v.members[i])
  }

  ghost predicate FieldKnown(env: Env, f: Field, v: Value)
    requires FieldOk(env, f, v)
    decreases v, 3
  {
    match f
    case Single(_, e) => ElemKnown(env, e, v)
    case Optional(_, e, _) => v.Just? ==> ElemKnown(env, e, v.v)
    case Repeated(_, e) => forall i | 0 <= i < |v.items| :: ElemKnown(env, e, v.items[i])
    case MapOf(_, _, e) => forall i | 0 <= i < |v.kvs| :: EntryKnown(env, e, v.kvs[i])
    case Oneof(cases, _) => v.Choice? ==> ElemKnown(env, cases[v.index].elem, v.v)
  }

  ghost predicate EntryKnown(env: Env, e: Elem, kv: Entry)
    requires ElemOk(env, e, kv.value)
    decreases kv
  {
    ElemKnown(env, e, kv.value)
  }

  /** With `depth` guards held, the reader meets no more than the limit allows. */
  ghost predicate ElemFits(env: Env, e: Elem, v: Value, depth: nat)
    requires ElemOk(env, e, v) && ElemKnown(env, e, v)
    decreases v, 1
  {
    e.Msg? ==> MessageFits(env, env[e.id], v, depth)
  }

  ghost predicate MessageFits(env: Env, fs: seq<Field>, v: Value, depth: nat)
    requires MessageOk(env, fs, v) && MessageKnown(env, fs, v)
    decreases v, 0
  {
    EncodeMessage(env, fs, v) != [] ==>
      depth < MAX_DEPTH && MembersFit(env, fs, v.members, depth + 1) && UnknownFits(fs, v.unknown, depth + 1)
  }

  ghost predicate UnknownFits(fs: seq<Field>, unknown: bytes, depth: nat)
    requires Unknowns(fs, unknown)
  {
    depth + Nesting(WireOfUnknown(fs, unknown)) <= MAX_DEPTH
  }

  ghost predicate MembersFit(env: Env, fs: seq<Field>, ms: seq<Value>, depth: nat)
    requires |fs| == |ms| && forall i | 0 <= i < |fs| :: FieldOk(env, fs[i], ms[i]) && FieldKnown(env, fs[i], ms[i])
    decreases ms
  {
    forall i | 0 <= i < |fs| :: FieldFits(env, fs[i], ms[i], depth)
  }

  ghost predicate FieldFits(env: Env, f: Field, v: Value, depth: nat)
    requires FieldOk(env, f, v) && FieldKnown(env, f, v)
    decreases v, 3
  {
    match f
    case Single(_, e) => ElemFits(env, e, v, depth)
    case Optional(_, e, _) => v.Just? ==> ElemFits(env, e, v.v, depth)
    case Repeated(_, e) => forall i | 0 <= i < |v.items| :: ElemFits(env, e, v.items[i], depth)
    case MapOf(_, _, e) => forall i | 0 <= i < |v.kvs| :: EntryFits(env, e, v.kvs[i], depth)
    case Oneof(cases, _) => v.Choice? ==> ElemFits(env, cases[v.index].elem, v.v, depth)
  }

  ghost predicate EntryFits(env: Env, e: Elem, kv: Entry, depth: nat)
    requires ElemOk(env, e, kv.value) && EntryKnown(env, e, kv)
    decreases kv
  {
    ElemFits(env, e, kv.value, depth)
  }

  // ----- what comes back --------------------------------------------------------------------

  /** The value read back: an implicit optional that holds a default value is unset, and a negative
    * zero that is left out comes back as zero. */
  function ElemBack(env: Env, e: Elem, v: Value): (r: Value)
    requires ElemOk(env, e, v)
    ensures ElemOk(env, e, r)
    decreases v, 1
  {
    if !e.Msg? then v
    else
      assert MessageOk(env, env[e.id], v);
      var r := Message(MembersBack(env, env[e.id], v.members), v.unknown);
      assert MessageOk(env, env[e.id], r);
      r
  }

  function MembersBack(env: Env, fs: seq<Field>, ms: seq<Value>): (r: seq<Value>)
    requires |fs| == |ms| && forall i | 0 <= i < |fs| :: FieldOk(env, fs[i], ms[i])
    ensures |r| == |ms| && forall i | 0 <= i < |fs| :: r[i] == FieldBack(env, fs[i], ms[i])
    ensures forall i | 0 <= i < |fs| :: FieldOk(env, fs[i], r[i])
    decreases ms
  {
    seq(|ms|, i requires 0 <= i < |ms| => FieldBack(env, fs[i], ms[i]))
  }

  function FieldBack(env: Env, f: Field, v: Value): (r: Value)
    requires FieldOk(env, f, v)
    ensures FieldOk(env, f, r)
    decreases v, 3
  {
    match f
    case Single(_, e) => if e.Num? && IsDefault(e, v) then Number(0) else ElemBack(env, e, v)
    case Optional(_, e, explicit) =>
      if v.Nothing? || (!explicit && IsDefault(e, v.v)) then Nothing else Just(ElemBack(env, e, v.v))
    case Repeated(_, e) => List(ItemsBack(env, e, v.items))
    case MapOf(_, k, e) => Entries(EntriesBack(env, k, e, v.kvs))
    case Oneof(cases, _) => if v.Nothing? then v else Choice(v.index, ElemBack(env, cases[v.index].elem, v.v))
  }

  function ItemsBack(env: Env, e: Elem, items: seq<Value>): (r: seq<Value>)
    requires forall i | 0 <= i < |items| :: ElemOk(env, e, items[i])
    ensures |r| == |items| && forall i | 0 <= i < |r| :: r[i] == ElemBack(env, e, items[i]) && ElemOk(env, e, r[i])
    decreases items
  {
    seq(|items|, i requires 0 <= i < |items| => ElemBack(env, e, items[i]))
  }

  function EntriesBack(env: Env, k: Elem, e: Elem, kvs: seq<Entry>): (r: seq<Entry>)
    requires forall i | 0 <= i < |kvs| :: ElemOk(env, k, kvs[i].key) && ElemOk(env, e, kvs[i].value)
    ensures |r| == |kvs| && forall i | 0 <= i < |r| :: r[i] == EntryBack(env, e, kvs[i])
    decreases kvs
  {
    seq(|kvs|, i requires 0 <= i < |kvs| => EntryBack(env, e, kvs[i]))
  }

  function EntryBack(env: Env, e: Elem, kv: Entry): (r: Entry)
    requires ElemOk(env, e, kv.value)
    ensures r.key == kv.key && ElemOk(env, e, r.value)
    decreases kv
  {
    Entry(kv.key, ElemBack(env, e, kv.value))
  }

  // ----- scalars, strings, packed runs --------------------------------------------------------------

  lemma ScalarParses(s: Scalar, n: int, tail: bytes)
    requires s.InRange(n)
    ensures ParseScalar(s, EncodeScalar(s, n) + tail) == Ok((n, tail))
  {
    ScalarRoundTrip(s, n);
    var enc := EncodeScalar(s, n);
    if s.Width() == 0 {
      VarintRoundTrip(s.ToWire(n), tail);
    } else {
      FixedRoundTrip(s.ToWire(n), s.Width());
      assert (enc + tail)[..s.Width()] == enc && (enc + tail)[s.Width()..] == tail;
    }
  }

  lemma {:induction false} PackedParses(env: Env, s: Scalar, items: seq<Value>)
    requires forall i | 0 <= i < |items| :: ElemOk(env, Num(s), items[i])
    ensures ParsePacked(env, s, EncodePacked(env, Num(s), items)) == Ok(items)
    ensures s.Width() > 0 ==> |EncodePacked(env, Num(s), items)| == |items| * s.Width()
  {
    hide VarintBytes;
    hide FixedBytes;
    hide ParseScalar;
    if items != [] {
      ScalarParses(s, items[0].n, EncodePacked(env, Num(s), items[1..]));
      PackedParses(env, s, items[1..]);
      assert [Number(items[0].n)] + items[1..] == items;
    }
  }

  lemma WholeWords(n: nat)
    ensures (n * 4) % 4 == 0 && (n * 8) % 8 == 0
  {
  }

  lemma PackedBlockParses(env: Env, s: Scalar, items: seq<Value>)
    requires forall i | 0 <= i < |items| :: ElemOk(env, Num(s), items[i])
    ensures ParsePackedBlock(env, s, EncodePacked(env, Num(s), items)) == Ok(items)
  {
    PackedParses(env, s, items);
    WholeWords(|items|);
  }

  // ----- field numbers --------------------------------------------------------------------------------

  /** The number of case `c` of a field (0 unless it is a oneof). */
  function NumberOf(f: Field, c: nat): nat
    requires f.Oneof? ==> c < |f.cases|
  {
    if f.Oneof? then f.cases[c].no else f.no
  }

  /** A tagged value is handed to the member that owns its number. */
  lemma TagReaches(env: Env, id: nat, cur: Value, i: nat, c: nat, wire: WireType, rest: bytes, depth: nat)
    requires ValidEnv(env) && id < |env| && MessageOk(env, env[id], cur) && i < |env[id]|
    requires if env[id][i].Oneof? then c < |env[id][i].cases| else c == 0
    requires wire != EndGroup
    ensures ValidFields(env, env[id])
    ensures
      var p := ParseField(env, env[id][i], c, cur.members[i], wire, rest, depth);
      ParseFields(env, id, cur, TagBytes(NumberOf(env[id][i], c), wire) + rest, depth) ==
      match p
      case Ok(r) => ParseFields(env, id, cur.(members := cur.members[i := r.0]), r.1, depth)
      case Err(e) => Err(e)
  {
    var fs := env[id];
    var no := NumberOf(fs[i], c);
    assert ValidFields(env, fs);
    assert ValidField(env, fs[i]);
    assert Owns(fs[i], no);
    FindsField(fs, i, no);
    if fs[i].Oneof? {
      FindsCase(fs[i].cases, c);
    }
    TagRoundTrip(no, wire, rest);
  }

  // ----- the induction ----------------------------------------------------------------------------------

  /** The outcome when the value is read back, unless the nesting limit stops it. */
  ghost function Outcome<T>(fits: bool, t: T): Result<T> {
    if fits then Ok(t) else Err(RecursionLimit)
  }

  lemma {:induction false} EmptyIsDefault(env: Env, id: nat, fs: seq<Field>, ms: seq<Value>)
    requires ValidEnv(env) && id < |env| && |fs| == |ms| && forall f <- fs :: f in env[id]
    requires forall i | 0 <= i < |fs| :: FieldOk(env, fs[i], ms[i])
    requires EncodeMembers(env, fs, ms) == []
    ensures MembersBack(env, fs, ms) == DefaultMembers(env, id, fs)
  {
    if fs != [] {
      assert EncodeField(env, fs[0], ms[0]) == [];
      EmptyFieldIsDefault(env, id, fs[0], ms[0]);
      EmptyIsDefault(env, id, fs[1..], ms[1..]);
      assert MembersBack(env, fs, ms) == [FieldBack(env, fs[0], ms[0])] + MembersBack(env, fs[1..], ms[1..]);
    }
  }

  /** Only what is left out encodes to nothing. */
  lemma SomethingIsWritten(env: Env, f: Field, v: Value)
    requires FieldOk(env, f, v)
    ensures match f
      case Single(_, e) => !IsDefault(e, v) ==> |EncodeField(env, f, v)| > 0
      case Optional(_, e, explicit) => v.Just? && (explicit || !IsDefault(e, v.v)) ==> |EncodeField(env, f, v)| > 0
      case Repeated(_, e) => v.items != [] ==> |EncodeField(env, f, v)| > 0
      case MapOf(_, k, e) => v.kvs != [] ==> |EncodeField(env, f, v)| > 0
      case Oneof(cases, _) => v.Choice? ==> |EncodeField(env, f, v)| > 0
  {
    match f
    case Single(no, e) => assert |Occurrence(env, no, e, v)| > 0;
    case Optional(no, e, _) =>
      if v.Just? {
        assert |Occurrence(env, no, e, v.v)| > 0;
      }
    case Repeated(no, e) =>
      if v.items != [] && !e.Num? {
        assert |EncodeItems(env, no, e, v.items)| >= |Occurrence(env, no, e, v.items[0])| > 0;
      }
    case MapOf(no, k, e) =>
      if v.kvs != [] {
        assert |EncodeEntries(env, no, k, e, v.kvs)| >= |EncodeEntry(env, no, k, e, v.kvs[0])| > 0;
      }
    case Oneof(cases, _) =>
      if v.Choice? {
        assert |Occurrence(env, cases[v.index].no, cases[v.index].elem, v.v)| > 0;
      }
  }

  lemma EmptyFieldIsDefault(env: Env, id: nat, f: Field, v: Value)
    requires ValidEnv(env) && id < |env| && f in env[id] && FieldOk(env, f, v)
    ensures EncodeField(env, f, v) == [] ==> FieldBack(env, f, v) == DefaultField(env, id, f)
  {
    SomethingIsWritten(env, f, v);
  }

  lemma EmptyFieldFits(env: Env, f: Field, v: Value, depth: nat)
    requires FieldOk(env, f, v) && FieldKnown(env, f, v)
    ensures EncodeField(env, f, v) == [] ==> FieldFits(env, f, v, depth)
  {
    SomethingIsWritten(env, f, v);
  }

  lemma {:induction false} UnknownParses(env: Env, id: nat, cur: Value, ws: seq<WireField>, depth: nat)
    requires ValidEnv(env) && id < |env| && MessageOk(env, env[id], cur) && depth <= MAX_DEPTH
    requires forall i | 0 <= i < |ws| :: WellFormed(ws[i]) && FindField(env[id], ws[i].number).Unlisted?
    ensures ParseFields(env, id, cur, EncodeWire(ws), depth)
         == Outcome(depth + Nesting(ws) <= MAX_DEPTH, cur.(unknown := cur.unknown + EncodeWire(ws)))
    decreases |ws|
  {
    hide SkipUnknown;
    hide SkipGroup;
    hide ParseField;
    hide ReadVarint;
    var s := EncodeWire(ws);
    if ws == [] {
      assert cur.unknown + [] == cur.unknown;
    } else {
      var f, others := ws[0], EncodeWire(ws[1..]);
      Assoc(f.tag, EncodeBody(f.body), others);
      KeyExtends(f.tag, EncodeBody(f.body) + others, f.number, TypeOf(f.body));
      SkipConsumesField(f.body, f.number, others, depth);
      assert s[..|s| - |others|] == EncodeWireField(f);
      Assoc(cur.unknown, EncodeWireField(f), others);
      UnknownParses(env, id, cur.(unknown := cur.unknown + EncodeWireField(f)), ws[1..], depth);
    }
  }

  lemma {:induction false} ElemParses(env: Env, e: Elem, v: Value, tail: bytes, depth: nat)
    requires ValidEnv(env) && ValidElem(env, e) && ElemOk(env, e, v) && ElemKnown(env, e, v)
    requires depth <= MAX_DEPTH && |EncodeElem(env, e, v)| < TWO_64
    ensures ParseElem(env, e, DefaultElem(env, e), EncodeElem(env, e, v) + tail, depth)
         == Outcome(ElemFits(env, e, v, depth), (ElemBack(env, e, v), tail))
    decreases v, 1
  {
    match e
    case Num(s) => ScalarParses(s, v.n, tail);
    case Str => LenDelimRoundTrip(v.b, tail);
    case Msg(id) =>
      assert MessageOk(env, env[id], v);
      LenDelimRoundTrip(EncodeMessage(env, env[id], v), tail);
      MessageParses(env, id, v, depth);
  }

  lemma {:induction false} MessageParses(env: Env, id: nat, v: Value, depth: nat)
    requires ValidEnv(env) && id < |env| && MessageOk(env, env[id], v) && MessageKnown(env, env[id], v)
    requires depth <= MAX_DEPTH && |EncodeMessage(env, env[id], v)| < TWO_64
    ensures ElemOk(env, Msg(id), v)
    ensures MessageOk(env, env[id], DefaultElem(env, Msg(id)))
    ensures ParseMessage(env, id, DefaultElem(env, Msg(id)), EncodeMessage(env, env[id], v), depth)
         == Outcome(MessageFits(env, env[id], v, depth), ElemBack(env, Msg(id), v))
    decreases v, 0
  {
    assert ElemOk(env, Msg(id), DefaultElem(env, Msg(id)));
    if EncodeMessage(env, env[id], v) == [] {
      EmptyIsDefault(env, id, env[id], v.members);
    } else if depth < MAX_DEPTH {
      AllMembersParse(env, id, v, depth + 1);
    }
  }

  lemma {:induction false} AllMembersParse(env: Env, id: nat, v: Value, depth: nat)
    requires ValidEnv(env) && id < |env| && MessageOk(env, env[id], v) && MessageKnown(env, env[id], v)
    requires depth <= MAX_DEPTH && |EncodeMessage(env, env[id], v)| < TWO_64
    ensures MessageOk(env, env[id], DefaultElem(env, Msg(id)))
    ensures ParseFields(env, id, DefaultElem(env, Msg(id)), EncodeMessage(env, env[id], v), depth)
      == Outcome(MembersFit(env, env[id], v.members, depth) && UnknownFits(env[id], v.unknown, depth),
                 Message(MembersBack(env, env[id], v.members), v.unknown))
    decreases v.members, |v.members| + 1
  {
    MembersParse(env, id, v.members, 0, v.unknown, depth);
    HalfwayStart(env, id, v.members);
    assert v.members[0..] == v.members && env[id][0..] == env[id];
  }

  /** The target when the first `i` members have been read. */
  function Halfway(env: Env, id: nat, ms: seq<Value>, i: nat): (v: Value)
    requires ValidEnv(env) && id < |env| && |ms| == |env[id]| && i <= |ms|
    requires forall j | 0 <= j < |ms| :: FieldOk(env, env[id][j], ms[j])
    ensures MessageOk(env, env[id], v)
  {
    var fs := env[id];
    Message(MembersBack(env, fs, ms)[..i] + DefaultMembers(env, id, fs)[i..], [])
  }

  lemma HalfwayStart(env: Env, id: nat, ms: seq<Value>)
    requires ValidEnv(env) && id < |env| && |ms| == |env[id]|
    requires forall j | 0 <= j < |ms| :: FieldOk(env, env[id][j], ms[j])
    ensures Halfway(env, id, ms, 0) == DefaultElem(env, Msg(id))
  {
  }

  lemma HalfwayStep(env: Env, id: nat, ms: seq<Value>, i: nat)
    requires ValidEnv(env) && id < |env| && |ms| == |env[id]| && i < |ms|
    requires forall j | 0 <= j < |ms| :: FieldOk(env, env[id][j], ms[j])
    ensures var cur, f := Halfway(env, id, ms, i), env[id][i];
      && cur.members[i] == DefaultField(env, id, f)
      && cur.(members := cur.members[i := FieldBack(env, f, ms[i])]) == Halfway(env, id, ms, i + 1)
  {
    DefaultAt(env, id, env[id], i);
    SpliceStep(MembersBack(env, env[id], ms), DefaultMembers(env, id, env[id]), i);
  }

  lemma SpliceStep<T>(a: seq<T>, b: seq<T>, i: nat)
    requires |a| == |b| && i < |a|
    ensures (a[..i] + b[i..])[i] == b[i]
    ensures (a[..i] + b[i..])[i := a[i]] == a[..i + 1] + b[i + 1..]
  {
  }

  lemma {:induction false} MembersParse(env: Env, id: nat, ms: seq<Value>, i: nat, unknown: bytes, depth: nat)
    requires ValidEnv(env) && id < |env| && |ms| == |env[id]| && i <= |ms| && depth <= MAX_DEPTH
    requires forall j | 0 <= j < |ms| :: FieldOk(env, env[id][j], ms[j]) && FieldKnown(env, env[id][j], ms[j])
    requires Unknowns(env[id], unknown)
    requires |EncodeMembers(env, env[id][i..], ms[i..])| < TWO_64
    ensures
      var fits := MembersFit(env, env[id][i..], ms[i..], depth) && UnknownFits(env[id], unknown, depth);
      ParseFields(env, id, Halfway(env, id, ms, i), EncodeMembers(env, env[id][i..], ms[i..]) + unknown, depth)
      == Outcome(fits, Message(MembersBack(env, env[id], ms), unknown))
    decreases ms, |ms| - i
  {
    hide Unknowns;
    hide Halfway;
    hide ParseFields;
    hide EncodeField;
    hide FieldFits;
    hide FieldBack;
    if i == |ms| {
      MembersEnd(env, id, ms, unknown, depth);
    } else {
      var fs := env[id];
      var enc, others := EncodeField(env, fs[i], ms[i]), EncodeMembers(env, fs[i + 1..], ms[i + 1..]);
      MembersSplit(env, fs, ms, i, unknown);
      HalfwayStep(env, id, ms, i);
      FieldParses(env, id, Halfway(env, id, ms, i), i, ms[i], others + unknown, depth);
      MembersParse(env, id, ms, i + 1, unknown, depth);
      FitSplits(env, fs[i..], ms[i..], depth);
      assert fs[i..][1..] == fs[i + 1..] && ms[i..][1..] == ms[i + 1..];
    }
  }

  lemma MembersSplit(env: Env, fs: seq<Field>, ms: seq<Value>, i: nat, unknown: bytes)
    requires |fs| == |ms| && i < |ms| && forall j | 0 <= j < |fs| :: FieldOk(env, fs[j], ms[j])
    ensures EncodeMembers(env, fs[i..], ms[i..]) + unknown
         == EncodeField(env, fs[i], ms[i]) + (EncodeMembers(env, fs[i + 1..], ms[i + 1..]) + unknown)
    ensures |EncodeMembers(env, fs[i..], ms[i..])|
         == |EncodeField(env, fs[i], ms[i])| + |EncodeMembers(env, fs[i + 1..], ms[i + 1..])|
  {
    assert fs[i..][1..] == fs[i + 1..] && ms[i..][1..] == ms[i + 1..];
    Assoc(EncodeField(env, fs[i], ms[i]), EncodeMembers(env, fs[i + 1..], ms[i + 1..]), unknown);
  }

  lemma MembersEnd(env: Env, id: nat, ms: seq<Value>, unknown: bytes, depth: nat)
    requires ValidEnv(env) && id < |env| && |ms| == |env[id]| && depth <= MAX_DEPTH
    requires forall j | 0 <= j < |ms| :: FieldOk(env, env[id][j], ms[j])
    requires Unknowns(env[id], unknown)
    ensures ParseFields(env, id, Halfway(env, id, ms, |ms|),
        EncodeMembers(env, env[id][|ms|..], ms[|ms|..]) + unknown, depth)
      == Outcome(UnknownFits(env[id], unknown, depth), Message(MembersBack(env, env[id], ms), unknown))
  {
    var cur := Halfway(env, id, ms, |ms|);
    assert EncodeMembers(env, env[id][|ms|..], ms[|ms|..]) + unknown == unknown;
    assert cur == Message(MembersBack(env, env[id], ms), []) && [] + unknown == unknown;
    UnknownParses(env, id, cur, WireOfUnknown(env[id], unknown), depth);
  }

  lemma FitSplits(env: Env, fs: seq<Field>, ms: seq<Value>, depth: nat)
    requires |fs| == |ms| > 0 && forall i | 0 <= i < |fs| :: FieldOk(env, fs[i], ms[i]) && FieldKnown(env, fs[i], ms[i])
    ensures MembersFit(env, fs, ms, depth) <==>
      FieldFits(env, fs[0], ms[0], depth) && MembersFit(env, fs[1..], ms[1..], depth)
  {
    assert forall i | 0 < i < |fs| :: fs[i] == fs[1..][i - 1] && ms[i] == ms[1..][i - 1];
  }

  lemma {:induction false} DefaultAt(env: Env, id: nat, fs: seq<Field>, i: nat)
    requires ValidEnv(env) && id < |env| && i < |fs| && forall f <- fs :: f in env[id]
    ensures DefaultMembers(env, id, fs)[i] == DefaultField(env, id, fs[i])
  {
    if i > 0 {
      DefaultAt(env, id, fs[1..], i - 1);
    }
  }

  /** What reading one member's encoding does to the target. */
  ghost predicate Reads(env: Env, id: nat, cur: Value, i: nat, enc: bytes, tail: bytes, depth: nat, fits: bool,
      v: Value)
    requires ValidEnv(env) && id < |env| && MessageOk(env, env[id], cur) && i < |env[id]| && FieldOk(env, env[id][i], v)
  {
    ParseFields(env, id, cur, enc + tail, depth) ==
      if fits then ParseFields(env, id, cur.(members := cur.members[i := v]), tail, depth) else Err(RecursionLimit)
  }

  lemma {:induction false} FieldParses(env: Env, id: nat, cur: Value, i: nat, v: Value, tail: bytes, depth: nat)
    requires ValidEnv(env) && id < |env| && MessageOk(env, env[id], cur) && i < |env[id]| && depth <= MAX_DEPTH
    requires FieldOk(env, env[id][i], v) && FieldKnown(env, env[id][i], v)
    requires cur.members[i] == DefaultField(env, id, env[id][i])
    requires |EncodeField(env, env[id][i], v)| < TWO_64
    ensures var f := env[id][i];
      Reads(env, id, cur, i, EncodeField(env, f, v), tail, depth, FieldFits(env, f, v, depth), FieldBack(env, f, v))
    decreases v, 3, 1
  {
    hide Reads;
    var f := env[id][i];
    if EncodeField(env, f, v) == [] {
      EmptyFieldParses(env, id, cur, i, v, tail, depth);
    } else if f.Repeated? || f.MapOf? {
      ListFieldParses(env, id, cur, i, v, tail, depth);
    } else {
      match f
      case Single(no, e) => OccurrenceParses(env, id, cur, i, 0, e, v, tail, depth);
      case Optional(no, e, _) => OccurrenceParses(env, id, cur, i, 0, e, v.v, tail, depth);
      case Oneof(cases, _) => OccurrenceParses(env, id, cur, i, v.index, cases[v.index].elem, v.v, tail, depth);
    }
  }

  /** A repeated field or a map with something in it. */
  lemma {:induction false} ListFieldParses(env: Env, id: nat, cur: Value, i: nat, v: Value, tail: bytes, depth: nat)
    requires ValidEnv(env) && id < |env| && MessageOk(env, env[id], cur) && i < |env[id]| && depth <= MAX_DEPTH
    requires env[id][i].Repeated? || env[id][i].MapOf?
    requires FieldOk(env, env[id][i], v) && FieldKnown(env, env[id][i], v)
    requires cur.members[i] == DefaultField(env, id, env[id][i])
    requires 0 < |EncodeField(env, env[id][i], v)| < TWO_64
    ensures var f := env[id][i];
      Reads(env, id, cur, i, EncodeField(env, f, v), tail, depth, FieldFits(env, f, v, depth), FieldBack(env, f, v))
    decreases v, 3, 0
  {
    hide EntryFits;
    hide EncodeEntries;
    hide ParseFields;
    match env[id][i]
    case Repeated(no, e) =>
      if e.Num? {
        PackedFieldParses(env, id, cur, i, v.items, tail, depth);
        assert ItemsBack(env, e, v.items) == v.items;
      } else {
        ItemsParse(env, id, cur, i, v.items, [], tail, depth);
        assert [] + ItemsBack(env, e, v.items) == ItemsBack(env, e, v.items);
      }
    case MapOf(no, k, e) =>
      EntriesParse(env, id, cur, i, v.kvs, [], tail, depth);
      assert [] + EntriesBack(env, k, e, v.kvs) == EntriesBack(env, k, e, v.kvs);
    case _ =>
  }

  lemma EmptyFieldParses(env: Env, id: nat, cur: Value, i: nat, v: Value, tail: bytes, depth: nat)
    requires ValidEnv(env) && id < |env| && MessageOk(env, env[id], cur) && i < |env[id]|
    requires FieldOk(env, env[id][i], v) && FieldKnown(env, env[id][i], v)
    requires cur.members[i] == DefaultField(env, id, env[id][i])
    requires EncodeField(env, env[id][i], v) == []
    ensures var f := env[id][i];
      Reads(env, id, cur, i, EncodeField(env, f, v), tail, depth, FieldFits(env, f, v, depth), FieldBack(env, f, v))
  {
    EmptyFieldIsDefault(env, id, env[id][i], v);
    EmptyFieldFits(env, env[id][i], v, depth);
    assert cur.members[i := cur.members[i]] == cur.members;
    assert [] + tail == tail;
  }

  /** A singular field, an optional or a oneof case. */
  lemma {:induction false} OccurrenceParses(env: Env, id: nat, cur: Value, i: nat, c: nat, e: Elem, x: Value,
      tail: bytes, depth: nat)
    requires ValidEnv(env) && id < |env| && MessageOk(env, env[id], cur) && i < |env[id]| && depth <= MAX_DEPTH
    requires var f := env[id][i];
      || (f.Single? && e == f.elem && c == 0)
      || (f.Optional? && e == f.elem && c == 0)
      || (f.Oneof? && c < |f.cases| && e == f.cases[c].elem)
    requires ElemOk(env, e, x) && ElemKnown(env, e, x) && |EncodeElem(env, e, x)| < TWO_64
    requires cur.members[i] == DefaultField(env, id, env[id][i])
    ensures var f := env[id][i];
      var back := ElemBack(env, e, x);
      Reads(env, id, cur, i, Occurrence(env, NumberOf(f, c), e, x), tail, depth, ElemFits(env, e, x, depth),
            if f.Single? then back else if f.Optional? then Just(back) else Choice(c, back))
    decreases x, 2
  {
    var f := env[id][i];
    assert ValidFields(env, env[id]) && ValidField(env, f);
    var rest := EncodeElem(env, e, x) + tail;
    Assoc(TagBytes(NumberOf(f, c), WireOf(e)), EncodeElem(env, e, x), tail);
    TagReaches(env, id, cur, i, c, WireOf(e), rest, depth);
    ElemParses(env, e, x, tail, depth);
  }

  lemma PackedFieldParses(env: Env, id: nat, cur: Value, i: nat, items: seq<Value>, tail: bytes, depth: nat)
    requires ValidEnv(env) && id < |env| && MessageOk(env, env[id], cur) && i < |env[id]|
    requires var f := env[id][i]; f.Repeated? && f.elem.Num? && FieldOk(env, f, List(items)) && items != []
    requires |EncodeField(env, env[id][i], List(items))| < TWO_64
    requires cur.members[i] == List([])
    ensures Reads(env, id, cur, i, EncodeField(env, env[id][i], List(items)), tail, depth, true, List(items))
  {
    var f := env[id][i];
    var payload := EncodePacked(env, f.elem, items);
    Assoc(TagBytes(f.no, LengthDelimited), LenDelim(payload), tail);
    TagReaches(env, id, cur, i, 0, LengthDelimited, LenDelim(payload) + tail, depth);
    LenDelimRoundTrip(payload, tail);
    PackedBlockParses(env, f.elem.s, items);
    assert [] + items == items;
  }

  lemma ReadsThen(env: Env, id: nat, cur: Value, i: nat, enc1: bytes, enc2: bytes, tail: bytes, depth: nat,
                  fits1: bool, v1: Value, fits2: bool, v2: Value)
    requires ValidEnv(env) && id < |env| && MessageOk(env, env[id], cur) && i < |env[id]|
    requires FieldOk(env, env[id][i], v1) && FieldOk(env, env[id][i], v2)
    requires Reads(env, id, cur, i, enc1, enc2 + tail, depth, fits1, v1)
    requires fits1 ==> Reads(env, id, cur.(members := cur.members[i := v1]), i, enc2, tail, depth, fits2, v2)
    ensures Reads(env, id, cur, i, enc1 + enc2, tail, depth, fits1 && fits2, v2)
  {
    Assoc(enc1, enc2, tail);
    assert cur.members[i := v1][i := v2] == cur.members[i := v2];
  }

  lemma ReadsNothing(env: Env, id: nat, cur: Value, i: nat, tail: bytes, depth: nat)
    requires ValidEnv(env) && id < |env| && MessageOk(env, env[id], cur) && i < |env[id]|
    ensures FieldOk(env, env[id][i], cur.members[i])
    ensures Reads(env, id, cur, i, [], tail, depth, true, cur.members[i])
  {
    assert cur.members[i := cur.members[i]] == cur.members;
    assert [] + tail == tail;
  }

  /** One more item of a repeated field. */
  lemma {:induction false} ItemParses(env: Env, id: nat, cur: Value, i: nat, x: Value, done: seq<Value>,
      tail: bytes, depth: nat)
    requires ValidEnv(env) && id < |env| && MessageOk(env, env[id], cur) && i < |env[id]| && depth <= MAX_DEPTH
    requires env[id][i].Repeated? && !env[id][i].elem.Num? && cur.members[i] == List(done)
    requires var e := env[id][i].elem; ElemOk(env, e, x) && ElemKnown(env, e, x) && |EncodeElem(env, e, x)| < TWO_64
    ensures var f := env[id][i];
      var next := List(done + [ElemBack(env, f.elem, x)]);
      FieldOk(env, f, next) &&
      Reads(env, id, cur, i, Occurrence(env, f.no, f.elem, x), tail, depth, ElemFits(env, f.elem, x, depth), next)
    decreases x, 2
  {
    var f := env[id][i];
    assert ValidFields(env, env[id]) && ValidField(env, f) && FieldOk(env, f, cur.members[i]);
    var enc := EncodeElem(env, f.elem, x);
    Assoc(TagBytes(f.no, WireOf(f.elem)), enc, tail);
    TagReaches(env, id, cur, i, 0, WireOf(f.elem), enc + tail, depth);
    ElemParses(env, f.elem, x, tail, depth);
  }

  ghost predicate ItemsKnown(env: Env, e: Elem, items: seq<Value>) {
    forall j | 0 <= j < |items| :: ElemOk(env, e, items[j]) && ElemKnown(env, e, items[j])
  }

  ghost predicate ItemsFit(env: Env, e: Elem, items: seq<Value>, depth: nat)
    requires ItemsKnown(env, e, items)
  {
    forall j | 0 <= j < |items| :: ElemFits(env, e, items[j], depth)
  }

  lemma ItemsSplit(env: Env, e: Elem, items: seq<Value>, done: seq<Value>, depth: nat)
    requires items != [] && ItemsKnown(env, e, items)
    ensures ItemsKnown(env, e, items[1..])
    ensures ItemsFit(env, e, items, depth) <==> ElemFits(env, e, items[0], depth) && ItemsFit(env, e, items[1..], depth)
    ensures done + [ElemBack(env, e, items[0])] + ItemsBack(env, e, items[1..]) == done + ItemsBack(env, e, items)
  {
    hide ElemOk;
    hide ElemKnown;
    hide ElemFits;
    hide ElemBack;
    assert forall i | 0 < i < |items| :: items[i] == items[1..][i - 1];
    ItemsBackSplits(env, e, items);
    Assoc(done, [ElemBack(env, e, items[0])], ItemsBack(env, e, items[1..]));
  }

  lemma ItemsBackSplits(env: Env, e: Elem, items: seq<Value>)
    requires items != [] && forall i | 0 <= i < |items| :: ElemOk(env, e, items[i])
    ensures ItemsBack(env, e, items) == [ElemBack(env, e, items[0])] + ItemsBack(env, e, items[1..])
  {
  }

  /** Repeated strings and messages: one occurrence after another is appended. */
  lemma {:induction false} ItemsParse(env: Env, id: nat, cur: Value, i: nat, items: seq<Value>, done: seq<Value>,
      tail: bytes, depth: nat)
    requires ValidEnv(env) && id < |env| && MessageOk(env, env[id], cur) && i < |env[id]| && depth <= MAX_DEPTH
    requires env[id][i].Repeated? && !env[id][i].elem.Num? && cur.members[i] == List(done)
    requires ItemsKnown(env, env[id][i].elem, items)
    requires |EncodeItems(env, env[id][i].no, env[id][i].elem, items)| < TWO_64
    ensures var f := env[id][i];
      var next := List(done + ItemsBack(env, f.elem, items));
      FieldOk(env, f, next) &&
      Reads(env, id, cur, i, EncodeItems(env, f.no, f.elem, items), tail, depth,
        ItemsFit(env, f.elem, items, depth), next)
    decreases items
  {
    var f := env[id][i];
    if items == [] {
      assert done + ItemsBack(env, f.elem, items) == done;
      ReadsNothing(env, id, cur, i, tail, depth);
    } else {
      var x, others := items[0], EncodeItems(env, f.no, f.elem, items[1..]);
      ItemsSplit(env, f.elem, items, done, depth);
      ItemParses(env, id, cur, i, x, done, others + tail, depth);
      var back := done + [ElemBack(env, f.elem, x)];
      ItemsParse(env, id, cur.(members := cur.members[i := List(back)]), i, items[1..], back, tail, depth);
      ReadsThen(env, id, cur, i, Occurrence(env, f.no, f.elem, x), others, tail, depth,
                ElemFits(env, f.elem, x, depth), List(back),
                ItemsFit(env, f.elem, items[1..], depth), List(back + ItemsBack(env, f.elem, items[1..])));
    }
  }

  lemma KeyPartParses(env: Env, k: Elem, e: Elem, key: Value, kv: Entry, rest: bytes, depth: nat)
    requires ValidEnv(env) && ValidElem(env, k) && !k.Msg? && depth <= MAX_DEPTH
    requires ElemOk(env, k, key) && ElemOk(env, e, kv.value) && kv.key == DefaultElem(env, k)
    requires |EncodeElem(env, k, key)| < TWO_64
    ensures ParseEntry(env, k, e, kv, Occurrence(env, 1, k, key) + rest, depth)
         == ParseEntry(env, k, e, kv.(key := key), rest, depth)
  {
    Assoc(TagBytes(1, WireOf(k)), EncodeElem(env, k, key), rest);
    TagRoundTrip(1, WireOf(k), EncodeElem(env, k, key) + rest);
    if k.Num? {
      ScalarParses(k.s, key.n, rest);
    } else {
      LenDelimRoundTrip(key.b, rest);
    }
  }

  /** The body of a map entry, into a fresh key and value. */
  lemma {:induction false} EntryBodyParses(env: Env, k: Elem, e: Elem, kv: Entry, depth: nat)
    requires ValidEnv(env) && ValidElem(env, k) && ValidElem(env, e) && !k.Msg? && depth <= MAX_DEPTH
    requires ElemOk(env, k, kv.key) && ElemOk(env, e, kv.value) && EntryKnown(env, e, kv)
    requires |EntryBody(env, k, e, kv)| < TWO_64
    ensures ParseEntry(env, k, e, Entry(DefaultElem(env, k), DefaultElem(env, e)), EntryBody(env, k, e, kv), depth)
         == Outcome(EntryFits(env, e, kv, depth), EntryBack(env, e, kv))
    decreases kv, 0
  {
    var start := Entry(DefaultElem(env, k), DefaultElem(env, e));
    KeyPartParses(env, k, e, kv.key, start, Occurrence(env, 2, e, kv.value), depth);
    var value := EncodeElem(env, e, kv.value);
    TagRoundTrip(2, WireOf(e), value);
    ElemParses(env, e, kv.value, [], depth);
    assert value + [] == value;
  }

  ghost predicate EntriesKnown(env: Env, k: Elem, e: Elem, kvs: seq<Entry>) {
    forall j | 0 <= j < |kvs| ::
      ElemOk(env, k, kvs[j].key) && ElemOk(env, e, kvs[j].value) && EntryKnown(env, e, kvs[j])
  }

  ghost predicate EntriesFit(env: Env, k: Elem, e: Elem, kvs: seq<Entry>, depth: nat)
    requires EntriesKnown(env, k, e, kvs)
  {
    forall j | 0 <= j < |kvs| :: EntryFits(env, e, kvs[j], depth)
  }

  ghost predicate Distinct(kvs: seq<Entry>) {
    forall i, j | 0 <= i < j < |kvs| :: kvs[i].key != kvs[j].key
  }

  lemma {:induction false} InsertsLast(kvs: seq<Entry>, kv: Entry)
    requires forall i | 0 <= i < |kvs| :: kvs[i].key != kv.key
    ensures InsertOrAssign(kvs, kv) == kvs + [kv]
  {
    if kvs != [] {
      InsertsLast(kvs[1..], kv);
      assert kvs == [kvs[0]] + kvs[1..];
    }
  }

  /** One more entry of a map. */
  lemma {:induction false} EntryParses(env: Env, id: nat, cur: Value, i: nat, kv: Entry, done: seq<Entry>,
      tail: bytes, depth: nat)
    requires ValidEnv(env) && id < |env| && MessageOk(env, env[id], cur) && i < |env[id]| && depth <= MAX_DEPTH
    requires env[id][i].MapOf? && !env[id][i].key.Msg? && cur.members[i] == Entries(done)
    requires ElemOk(env, env[id][i].key, kv.key) && ElemOk(env, env[id][i].value, kv.value)
    requires EntryKnown(env, env[id][i].value, kv)
    requires forall j | 0 <= j < |done| :: done[j].key != kv.key
    requires |EncodeEntry(env, env[id][i].no, env[id][i].key, env[id][i].value, kv)| < TWO_64
    ensures var f := env[id][i];
      var next := Entries(done + [EntryBack(env, f.value, kv)]);
      FieldOk(env, f, next) &&
      Reads(env, id, cur, i, EncodeEntry(env, f.no, f.key, f.value, kv), tail, depth,
        EntryFits(env, f.value, kv, depth), next)
    decreases kv, 2
  {
    hide ParseField;
    hide LenDelim;
    hide TagBytes;
    hide EntryBody;
    hide EntryFits;
    hide EntryBack;
    var f := env[id][i];
    assert ValidFields(env, env[id]) && ValidField(env, f) && FieldOk(env, f, cur.members[i]);
    var body := EntryBody(env, f.key, f.value, kv);
    Assoc(TagBytes(f.no, LengthDelimited), LenDelim(body), tail);
    TagReaches(env, id, cur, i, 0, LengthDelimited, LenDelim(body) + tail, depth);
    BodyInEntry(env, f.no, f.key, f.value, kv);
    PairParses(env, f, kv, done, tail, depth);
  }

  lemma BodyInEntry(env: Env, no: nat, k: Elem, e: Elem, kv: Entry)
    requires ElemOk(env, k, kv.key) && ElemOk(env, e, kv.value)
    ensures |EntryBody(env, k, e, kv)| <= |EncodeEntry(env, no, k, e, kv)|
  {
  }

  lemma NotNothing(body: bytes, tail: bytes)
    ensures LenDelim(body) + tail != []
  {
  }

  /** An entry behind its tag. */
  lemma {:induction false} PairParses(env: Env, f: Field, kv: Entry, done: seq<Entry>, tail: bytes, depth: nat)
    requires ValidEnv(env) && ValidField(env, f) && depth <= MAX_DEPTH
    requires f.MapOf? && FieldOk(env, f, Entries(done))
    requires ElemOk(env, f.key, kv.key) && ElemOk(env, f.value, kv.value) && EntryKnown(env, f.value, kv)
    requires forall j | 0 <= j < |done| :: done[j].key != kv.key
    requires |EntryBody(env, f.key, f.value, kv)| < TWO_64
    ensures var next := Entries(done + [EntryBack(env, f.value, kv)]);
      FieldOk(env, f, next) &&
      ParseField(env, f, 0, Entries(done), LengthDelimited, LenDelim(EntryBody(env, f.key, f.value, kv)) + tail, depth)
        == Outcome(EntryFits(env, f.value, kv, depth), (next, tail))
    decreases kv, 1
  {
    hide EntryFits;
    hide EntryKnown;
    hide ReadVarint;
    hide ReadLenDelim;
    hide EntryBody;
    hide ParseEntry;
    hide InsertOrAssign;
    hide EntryBack;
    var body := EntryBody(env, f.key, f.value, kv);
    LenDelimRoundTrip(body, tail);
    EntryBodyParses(env, f.key, f.value, kv, depth);
    InsertsLast(done, EntryBack(env, f.value, kv));
    EntryInserted(env, f, Entries(done), EntryBack(env, f.value, kv));
    NotNothing(body, tail);
  }

  lemma EntriesSplit(env: Env, k: Elem, e: Elem, kvs: seq<Entry>, done: seq<Entry>, depth: nat)
    requires kvs != [] && EntriesKnown(env, k, e, kvs)
    ensures EntriesKnown(env, k, e, kvs[1..])
    ensures EntriesFit(env, k, e, kvs, depth) <==>
      EntryFits(env, e, kvs[0], depth) && EntriesFit(env, k, e, kvs[1..], depth)
    ensures done + [EntryBack(env, e, kvs[0])] + EntriesBack(env, k, e, kvs[1..]) == done + EntriesBack(env, k, e, kvs)
  {
    hide ElemOk;
    hide EntryFits;
    hide EntryBack;
    hide EntryKnown;
    hide ElemKnown;
    hide ElemFits;
    hide ElemBack;
    assert forall i | 0 < i < |kvs| :: kvs[i] == kvs[1..][i - 1];
    assert EntriesBack(env, k, e, kvs) == [EntryBack(env, e, kvs[0])] + EntriesBack(env, k, e, kvs[1..]);
    Assoc(done, [EntryBack(env, e, kvs[0])], EntriesBack(env, k, e, kvs[1..]));
  }

  lemma {:induction false} EntriesParse(env: Env, id: nat, cur: Value, i: nat, kvs: seq<Entry>, done: seq<Entry>,
      tail: bytes, depth: nat)
    requires ValidEnv(env) && id < |env| && MessageOk(env, env[id], cur) && i < |env[id]| && depth <= MAX_DEPTH
    requires env[id][i].MapOf? && cur.members[i] == Entries(done)
    requires EntriesKnown(env, env[id][i].key, env[id][i].value, kvs) && Distinct(kvs)
    requires forall a, b | 0 <= a < |done| && 0 <= b < |kvs| :: done[a].key != kvs[b].key
    requires |EncodeEntries(env, env[id][i].no, env[id][i].key, env[id][i].value, kvs)| < TWO_64
    ensures var f := env[id][i];
      var next := Entries(done + EntriesBack(env, f.key, f.value, kvs));
      FieldOk(env, f, next) &&
      Reads(env, id, cur, i, EncodeEntries(env, f.no, f.key, f.value, kvs), tail, depth,
            EntriesFit(env, f.key, f.value, kvs, depth), next)
    decreases kvs
  {
    var f := env[id][i];
    if kvs == [] {
      assert done + EntriesBack(env, f.key, f.value, kvs) == done;
      ReadsNothing(env, id, cur, i, tail, depth);
    } else {
      var kv, others := kvs[0], EncodeEntries(env, f.no, f.key, f.value, kvs[1..]);
      EntriesSplit(env, f.key, f.value, kvs, done, depth);
      EntryParses(env, id, cur, i, kv, done, others + tail, depth);
      var back := done + [EntryBack(env, f.value, kv)];
      assert kvs[1..] == kvs[1..] && forall b | 0 <= b < |kvs[1..]| :: kvs[1..][b] == kvs[b + 1];
      EntriesParse(env, id, cur.(members := cur.members[i := Entries(back)]), i, kvs[1..], back, tail, depth);
      ReadsThen(env, id, cur, i, EncodeEntry(env, f.no, f.key, f.value, kv), others, tail, depth,
                EntryFits(env, f.value, kv, depth), Entries(back),
                EntriesFit(env, f.key, f.value, kvs[1..], depth),
                 Entries(back + EntriesBack(env, f.key, f.value, kvs[1..])));
    }
  }

  // ----- what is lost ---------------------------------------------------------------------------------

  /** No optional without `pb_optional` holds a default value, and no plain member a negative zero. */
  predicate ElemLossless(env: Env, e: Elem, v: Value)
    requires ElemOk(env, e, v)
    decreases v, 1
  {
    e.Msg? ==>
      MessageOk(env, env[e.id], v) && forall i | 0 <= i < |v.members| :: FieldLossless(env, env[e.id][i], v.members[i])
  }

  predicate FieldLossless(env: Env, f: Field, v: Value)
    requires FieldOk(env, f, v)
    decreases v, 3
  {
    match f
    case Single(_, e) => (e.Num? && IsDefault(e, v) ==> v == Number(0)) && ElemLossless(env, e, v)
    case Optional(_, e, explicit) => v.Just? ==> (explicit || !IsDefault(e, v.v)) && ElemLossless(env, e, v.v)
    case Repeated(_, e) => forall i | 0 <= i < |v.items| :: ElemLossless(env, e, v.items[i])
    case MapOf(_, _, e) => forall i | 0 <= i < |v.kvs| :: EntryLossless(env, e, v.kvs[i])
    case Oneof(cases, _) => v.Choice? ==> ElemLossless(env, cases[v.index].elem, v.v)
  }

  predicate EntryLossless(env: Env, e: Elem, kv: Entry)
    requires ElemOk(env, e, kv.value)
    decreases kv
  {
    ElemLossless(env, e, kv.value)
  }

  lemma {:induction false} LosslessElem(env: Env, e: Elem, v: Value)
    requires ElemOk(env, e, v)
    ensures ElemBack(env, e, v) == v <==> ElemLossless(env, e, v)
    decreases v, 1
  {
    if e.Msg? {
      assert MessageOk(env, env[e.id], v);
      var fs := env[e.id];
      forall i | 0 <= i < |fs|
        ensures FieldBack(env, fs[i], v.members[i]) == v.members[i] <==> FieldLossless(env, fs[i], v.members[i])
      {
        LosslessField(env, fs[i], v.members[i]);
      }
      var back := MembersBack(env, fs, v.members);
      assert back == v.members <==> forall i | 0 <= i < |fs| :: back[i] == v.members[i];
    }
  }

  lemma {:induction false} LosslessField(env: Env, f: Field, v: Value)
    requires FieldOk(env, f, v)
    ensures FieldBack(env, f, v) == v <==> FieldLossless(env, f, v)
    decreases v, 3
  {
    match f
    case Single(_, e) => LosslessElem(env, e, v);
    case Optional(_, e, _) =>
      if v.Just? {
        LosslessElem(env, e, v.v);
      }
    case Repeated(_, e) =>
      forall i | 0 <= i < |v.items|
        ensures ElemBack(env, e, v.items[i]) == v.items[i] <==> ElemLossless(env, e, v.items[i])
      {
        LosslessElem(env, e, v.items[i]);
      }
      var back := ItemsBack(env, e, v.items);
      assert back == v.items <==> forall i | 0 <= i < |back| :: back[i] == v.items[i];
    case MapOf(_, k, e) =>
      forall i | 0 <= i < |v.kvs| ensures EntryBack(env, e, v.kvs[i]) == v.kvs[i] <==> EntryLossless(env, e, v.kvs[i]) {
        LosslessEntry(env, e, v.kvs[i]);
      }
      var back := EntriesBack(env, k, e, v.kvs);
      assert back == v.kvs <==> forall i | 0 <= i < |back| :: back[i] == v.kvs[i];
    case Oneof(cases, _) =>
      if v.Choice? {
        LosslessElem(env, cases[v.index].elem, v.v);
      }
  }

  lemma {:induction false} LosslessEntry(env: Env, e: Elem, kv: Entry)
    requires ElemOk(env, e, kv.value)
    ensures EntryBack(env, e, kv) == kv <==> EntryLossless(env, e, kv)
    decreases kv
  {
    LosslessElem(env, e, kv.value);
  }

  // ----- the theorem ---------------------------------------------------------------------------------

  /** Reading an encoding into a default-constructed target rebuilds the value exactly when
    * messages and unknown groups are not nested deeper than the limit, no implicit optional
    * holds a default value and no plain member a negative zero. */
  lemma MessageRoundTrip(env: Env, id: nat, v: Value)
    requires ValidEnv(env) && id < |env| && ElemOk(env, Msg(id), v) && ElemKnown(env, Msg(id), v)
    requires |EncodeMessage(env, env[id], v)| < TWO_64
    ensures var r := ParseMessage(env, id, DefaultElem(env, Msg(id)), EncodeMessage(env, env[id], v), 0);
      && (r == Ok(v) <==> ElemFits(env, Msg(id), v, 0) && ElemLossless(env, Msg(id), v))
      && (r.Err? ==> r.error == RecursionLimit)
  {
    MessageParses(env, id, v, 0);
    LosslessElem(env, Msg(id), v);
  }
}
