/** Writer and reader together, and the least inputs that do not come back. */
module PbCodec {
  import opened Wire
  import opened Schema
  import opened PbParse
  import opened UnknownFields
  import opened RoundTrip
  import opened KnownValues
  import opened Sizes
  import opened TwoPass
  import opened TwoPassProof
  import PbWriter
  import PbReader

  /** `to_pb`, then `from_pb` into a default-constructed target.  Wherever the two passes of the
    * writer agree, the value comes back unchanged if and only if the nesting limit is met and no
    * default is dropped; and the limit is the only error. */
  method WriteThenRead(env: Env, id: nat, v: Value) returns (back: Result<Value>)
    requires ValidEnv(env) && id < |env| && ElemOk(env, Msg(id), v) && ElemKnown(env, Msg(id), v)
    requires MessageOk(env, env[id], v) && |EncodeMessage(env, env[id], v)| < TWO_63
    ensures var evs := MemberEvents(env, env[id], v.members);
      !Overtaken(evs) && !Oversized(evs) && MapsOk(env[id], v.members) ==>
        && (back == Ok(v) <==> ElemFits(env, Msg(id), v, 0) && ElemLossless(env, Msg(id), v))
        && (back.Err? ==> back.error == RecursionLimit)
  {
    hide Overtaken;
    hide Oversized;
    hide MapsOk;
    hide ElemFits;
    hide ElemLossless;
    var out, _ := PbWriter.ToPb(env, id, v);
    var g := new PbReader.Guard();
    back := PbReader.FromPb(env, id, DefaultElem(env, Msg(id)), out, g);
    MessageRoundTrip(env, id, v);
  }

  // ----- what is lost ----------------------------------------------------------------------------

  const ZERO_ENV: Env := [[Optional(1, Num(Int32), false)]]
  const ZERO := Message([Just(Number(0))], [])

  lemma OneFieldIsValid(f: Field)
    requires (f.Optional? && f.no == 1 && (f.elem.Msg? ==> f.elem.id == 0)) || (f.Single? && f.no == 1 && f.elem.Num?)
    ensures ValidEnv([[f]])
  {
    assert ValidFields([[f]], [[f]][0]);
  }

  /** An implicit optional that holds zero comes back unset. */
  lemma DefaultIsDropped()
    ensures ValidEnv(ZERO_ENV) && MessageOk(ZERO_ENV, ZERO_ENV[0], ZERO)
    ensures ParseMessage(ZERO_ENV, 0, DefaultElem(ZERO_ENV, Msg(0)), EncodeMessage(ZERO_ENV, ZERO_ENV[0], ZERO), 0)
      != Ok(ZERO)
  {
    OneFieldIsValid(ZERO_ENV[0][0]);
    NothingUnknown(ZERO_ENV[0]);
    assert FieldOk(ZERO_ENV, ZERO_ENV[0][0], ZERO.members[0]);
    assert FieldKnown(ZERO_ENV, ZERO_ENV[0][0], ZERO.members[0]);
    assert !FieldLossless(ZERO_ENV, ZERO_ENV[0][0], ZERO.members[0]);
    assert EncodeMembers(ZERO_ENV, ZERO_ENV[0], ZERO.members)
      == EncodeField(ZERO_ENV, ZERO_ENV[0][0], ZERO.members[0]) + EncodeMembers(ZERO_ENV, [], []);
    MessageRoundTrip(ZERO_ENV, 0, ZERO);
  }

  const DOUBLE_ENV: Env := [[Single(1, Num(Double))]]
  const MINUS_ZERO := Message([Number(TWO_63)], [])

  /** A negative zero is left out like a zero, and comes back positive. */
  lemma NegativeZeroIsLost()
    ensures ValidEnv(DOUBLE_ENV) && MessageOk(DOUBLE_ENV, DOUBLE_ENV[0], MINUS_ZERO)
    ensures EncodeMessage(DOUBLE_ENV, DOUBLE_ENV[0], MINUS_ZERO) == []
    ensures ParseMessage(DOUBLE_ENV, 0, DefaultElem(DOUBLE_ENV, Msg(0)), [], 0) != Ok(MINUS_ZERO)
  {
    OneFieldIsValid(DOUBLE_ENV[0][0]);
    NothingUnknown(DOUBLE_ENV[0]);
    assert FieldOk(DOUBLE_ENV, DOUBLE_ENV[0][0], MINUS_ZERO.members[0]);
    assert FieldKnown(DOUBLE_ENV, DOUBLE_ENV[0][0], MINUS_ZERO.members[0]);
    assert !FieldLossless(DOUBLE_ENV, DOUBLE_ENV[0][0], MINUS_ZERO.members[0]);
    assert EncodeMembers(DOUBLE_ENV, DOUBLE_ENV[0], MINUS_ZERO.members)
      == EncodeField(DOUBLE_ENV, DOUBLE_ENV[0][0], MINUS_ZERO.members[0]) + EncodeMembers(DOUBLE_ENV, [], []);
    MessageRoundTrip(DOUBLE_ENV, 0, MINUS_ZERO);
  }

  const NEST_ENV: Env := [[Optional(1, Msg(0), true)]]

  /** A message inside a message, `n` times. */
  function Nested(n: nat): Value {
    if n == 0 then Message([Nothing], []) else Message([Just(Nested(n - 1))], [])
  }

  /** The only field of such a message, and the message itself. */
  lemma {:induction false} NestedOnce(m: Value)
    requires m == Nothing || (m.Just? && ElemOk(NEST_ENV, Msg(0), m.v))
    ensures FieldOk(NEST_ENV, NEST_ENV[0][0], m) && ElemOk(NEST_ENV, Msg(0), Message([m], []))
    ensures EncodeMessage(NEST_ENV, NEST_ENV[0], Message([m], []))
      == if m.Just? then Occurrence(NEST_ENV, 1, Msg(0), m.v) else []
  {
    assert FieldOk(NEST_ENV, NEST_ENV[0][0], m);
    assert MessageOk(NEST_ENV, NEST_ENV[0], Message([m], []));
    assert EncodeMembers(NEST_ENV, NEST_ENV[0], [m])
      == EncodeField(NEST_ENV, NEST_ENV[0][0], m) + EncodeMembers(NEST_ENV, [], []);
  }

  lemma {:induction false} NestedIsOk(n: nat)
    requires n < 0x4000_0000
    ensures ElemOk(NEST_ENV, Msg(0), Nested(n))
    ensures |EncodeMessage(NEST_ENV, NEST_ENV[0], Nested(n))| <= 12 * n
    ensures EncodeMessage(NEST_ENV, NEST_ENV[0], Nested(n)) == [] <==> n == 0
  {
    NestedOnce(Nothing);
    if n > 0 {
      NestedIsOk(n - 1);
      NestedOnce(Just(Nested(n - 1)));
      VarintLengthClass(|EncodeMessage(NEST_ENV, NEST_ENV[0], Nested(n - 1))|);
      assert |TagBytes(1, LengthDelimited)| == 1;
    }
  }

  lemma {:induction false} NestedIsKnown(n: nat)
    requires n < 0x4000_0000
    ensures ElemOk(NEST_ENV, Msg(0), Nested(n)) && ElemKnown(NEST_ENV, Msg(0), Nested(n))
    ensures ElemLossless(NEST_ENV, Msg(0), Nested(n))
  {
    NestedIsOk(n);
    NothingUnknown(NEST_ENV[0]);
    var m := if n == 0 then Nothing else Just(Nested(n - 1));
    if n > 0 {
      NestedIsKnown(n - 1);
    }
    assert Nested(n).members == [m];
    assert FieldOk(NEST_ENV, NEST_ENV[0][0], m);
    assert FieldKnown(NEST_ENV, NEST_ENV[0][0], m);
    assert FieldLossless(NEST_ENV, NEST_ENV[0][0], m);
    assert MessageKnown(NEST_ENV, NEST_ENV[0], Nested(n));
  }

  lemma {:induction false} NestedFits(n: nat, depth: nat)
    requires n < 0x4000_0000 && depth <= MAX_DEPTH
    requires ElemOk(NEST_ENV, Msg(0), Nested(n)) && ElemKnown(NEST_ENV, Msg(0), Nested(n))
    ensures ElemFits(NEST_ENV, Msg(0), Nested(n), depth) <==> depth + n <= MAX_DEPTH
  {
    hide EncodeMessage;
    hide EncodeMembers;
    hide ElemLossless;
    hide FieldKnown;
    hide Unknowns;
    hide Occurrence;
    NestedIsOk(n);
    NothingUnknown(NEST_ENV[0]);
    if n > 0 && depth < MAX_DEPTH {
      NestedIsKnown(n - 1);
      var m := Just(Nested(n - 1));
      NestedFits(n - 1, depth + 1);
      assert FieldKnown(NEST_ENV, NEST_ENV[0][0], m);
      assert FieldFits(NEST_ENV, NEST_ENV[0][0], m, depth + 1) <==> depth + n <= MAX_DEPTH;
      assert MembersFit(NEST_ENV, NEST_ENV[0], [m], depth + 1) <==> FieldFits(NEST_ENV, NEST_ENV[0][0], m, depth + 1);
    }
  }

  /** The nesting limit: a message inside a message comes back a hundred times, and not once more. */
  lemma NestingExactly(n: nat)
    requires n < 0x4000_0000
    ensures ValidEnv(NEST_ENV) && ElemOk(NEST_ENV, Msg(0), Nested(n))
    ensures var s := EncodeMessage(NEST_ENV, NEST_ENV[0], Nested(n));
      ParseMessage(NEST_ENV, 0, DefaultElem(NEST_ENV, Msg(0)), s, 0) == Ok(Nested(n)) <==> n <= 100
  {
    OneFieldIsValid(NEST_ENV[0][0]);
    NestedIsOk(n);
    NestedIsKnown(n);
    NestedFits(n, 0);
    MessageRoundTrip(NEST_ENV, 0, Nested(n));
  }

  // ----- what an overtaken message becomes --------------------------------------------------------

  /** A message type with a map to empty messages, and a message of any type behind the map. */
  ghost predicate GapEnv(env: Env) {
    ValidEnv(env) && |env| >= 3 && env[0] == [] && env[2] == GAP_FIELDS
  }

  const GAP_MAP := Entries([Entry(Number(1), EMPTY)])

  lemma GapMapIsOk(env: Env)
    requires GapEnv(env)
    ensures ElemOk(env, Msg(0), EMPTY) && EncodeMessage(env, env[0], EMPTY) == []
    ensures FieldOk(env, MAP_FIELD, GAP_MAP)
    ensures FieldEvents(env, MAP_FIELD, GAP_MAP) == [Gap]
  {
    assert MessageOk(env, env[0], EMPTY);
    var kvs := GAP_MAP.kvs;
    assert ElemEvents(env, Msg(0), EMPTY, true) == [Gap];
    assert EntryEvents(env, Msg(0), kvs) == ValueEvents(env, Msg(0), kvs[0]) + EntryEvents(env, Msg(0), kvs[1..]);
  }

  /** Pass two writes the message behind the map as an empty one. */
  lemma GapEmits(env: Env, m: Value)
    requires GapEnv(env) && ElemOk(env, Msg(1), m) && EncodeMessage(env, env[1], m) != []
    ensures FieldOk(env, MAP_FIELD, GAP_MAP) && MessageOk(env, env[2], Message([GAP_MAP, m], []))
    ensures EmitTop(env, env[2], Message([GAP_MAP, m], []))
      == EncodeField(env, MAP_FIELD, GAP_MAP) + (TagBytes(2, LengthDelimited) + [0])
    ensures Overtaken(MemberEvents(env, env[2], [GAP_MAP, m]))
  {
    hide FieldEvents;
    hide EmitField;
    hide EncodeField;
    GapMapIsOk(env);
    assert FieldOk(env, MESSAGE_FIELD, m) && MessageOk(env, env[2], Message([GAP_MAP, m], []));
    var fs, ms := env[2], [GAP_MAP, m];
    var b := FieldEvents(env, MESSAGE_FIELD, m);
    assert fs[1..] == [MESSAGE_FIELD] && ms[1..] == [m] && fs[1..][1..] == [] && ms[1..][1..] == [];
    assert MemberEvents(env, fs[1..], ms[1..]) == b + MemberEvents(env, [], []) == b;
    GapSecond(env, m, TableOf(b));
    var evs := MemberEvents(env, fs, ms);
    assert evs == [Gap] + b;
    assert evs[0].Gap? && evs[1] == b[0];
    GapFirst(env, b);
    var rest := [0] + TableOf(b);
    var later := EmitField(env, MESSAGE_FIELD, m, rest);
    assert EmitMembers(env, fs[1..], ms[1..], rest).0 == later.0 + EmitMembers(env, [], [], later.1).0;
  }

  lemma GapSecond(env: Env, m: Value, tail: seq<nat>)
    requires GapEnv(env) && ElemOk(env, Msg(1), m) && EncodeMessage(env, env[1], m) != []
    requires FieldOk(env, MESSAGE_FIELD, m) && |tail| >= |FieldEvents(env, MESSAGE_FIELD, m)|
    ensures var b := FieldEvents(env, MESSAGE_FIELD, m); b != [] && b[0].Slot? && b[0].size > 0
    ensures EmitField(env, MESSAGE_FIELD, m, [0] + tail) == (TagBytes(2, LengthDelimited) + [0], tail)
  {
    assert FieldEvents(env, MESSAGE_FIELD, m) == ElemEvents(env, Msg(1), m, false);
    assert EmitField(env, MESSAGE_FIELD, m, [0] + tail) == EmitElem(env, 2, Msg(1), m, [0] + tail);
    assert ([0] + tail)[1..] == tail && VarintBytes(0) == [0];
  }

  /** The map is written as it should be, and its record stays pending. */
  lemma GapFirst(env: Env, b: seq<Event>)
    requires GapEnv(env) && FieldOk(env, MAP_FIELD, GAP_MAP) && FieldEvents(env, MAP_FIELD, GAP_MAP) == [Gap]
    ensures EmitField(env, MAP_FIELD, GAP_MAP, TableOf([Gap] + b))
      == (EncodeField(env, MAP_FIELD, GAP_MAP), [0] + TableOf(b))
  {
    FieldFaithful(env, MAP_FIELD, GAP_MAP, 0, TableOf(b));
    TableOfConcat([Gap], b);
    assert Pending(0, [Gap], TableOf(b)) == TableOf([Gap] + b);
    SmallIsHarmless(0);
    assert InStep([Gap], 0) && Gaps([Gap]) == 1;
    assert Zeros(1) == [0];
  }

  /** The message that pass two wrote as an empty one is read as a default one. */
  lemma GapReads(env: Env, m: Value)
    requires GapEnv(env) && ElemOk(env, Msg(1), m) && EncodeMessage(env, env[1], m) != []
    ensures MessageOk(env, env[2], Message([GAP_MAP, m], []))
    ensures ParseMessage(env, 2, DefaultElem(env, Msg(2)), EmitTop(env, env[2], Message([GAP_MAP, m], [])), 0)
      == Ok(Message([GAP_MAP, DefaultElem(env, Msg(1))], []))
  {
    hide EmitTop;
    hide ParseFields;
    GapMapIsOk(env);
    GapEmits(env, m);
    GapDefault(env);
    var start := DefaultElem(env, Msg(2));
    var middle := Message([GAP_MAP, DefaultElem(env, Msg(1))], []);
    GapMapReads(env, start, TagBytes(2, LengthDelimited) + [0]);
    assert start.(members := start.members[0 := GAP_MAP]) == middle;
    GapMessageReads(env, middle);
  }

  /** An empty message leaves its target as it is. */
  lemma GapMessageReads(env: Env, cur: Value)
    requires GapEnv(env) && MessageOk(env, env[2], cur)
    ensures ParseFields(env, 2, cur, TagBytes(2, LengthDelimited) + [0], 1) == Ok(cur)
  {
    hide TagBytes;
    assert env[2][1] == MESSAGE_FIELD && FieldOk(env, MESSAGE_FIELD, cur.members[1]);
    TagReaches(env, 2, cur, 1, 0, LengthDelimited, [0], 1);
    LenDelimRoundTrip([], []);
    assert LenDelim([]) + [] == [0];
    assert cur.members[1 := cur.members[1]] == cur.members;
  }

  lemma GapMapReads(env: Env, start: Value, tail: bytes)
    requires GapEnv(env) && MessageOk(env, env[2], start) && start.members[0] == Entries([])
    requires FieldOk(env, MAP_FIELD, GAP_MAP)
    ensures ParseFields(env, 2, start, EncodeField(env, MAP_FIELD, GAP_MAP) + tail, 1)
      == ParseFields(env, 2, start.(members := start.members[0 := GAP_MAP]), tail, 1)
  {
    var kv := GAP_MAP.kvs[0];
    NothingUnknown(env[0]);
    GapMapSize(env);
    assert MessageKnown(env, env[0], EMPTY) && MessageFits(env, env[0], EMPTY, 1);
    assert EntryKnown(env, Msg(0), kv) && EntryFits(env, Msg(0), kv, 1);
    assert FieldKnown(env, MAP_FIELD, GAP_MAP) && FieldFits(env, MAP_FIELD, GAP_MAP, 1);
    assert MembersBack(env, env[0], []) == [];
    assert EntryBack(env, Msg(0), kv) == kv;
    assert EntriesBack(env, Num(Int32), Msg(0), GAP_MAP.kvs) == GAP_MAP.kvs;
    FieldParses(env, 2, start, 0, GAP_MAP, tail, 1);
  }

  lemma GapMapSize(env: Env)
    requires GapEnv(env) && FieldOk(env, MAP_FIELD, GAP_MAP)
    ensures |EncodeField(env, MAP_FIELD, GAP_MAP)| == 6
  {
    GapMapIsOk(env);
    var kvs := GAP_MAP.kvs;
    assert |EncodeElem(env, Num(Int32), Number(1))| == 1;
    assert |EncodeElem(env, Msg(0), EMPTY)| == 1;
    assert |EntryBody(env, Num(Int32), Msg(0), kvs[0])| == 4;
    assert |EncodeEntry(env, 1, Num(Int32), Msg(0), kvs[0])| == 6;
    assert EncodeEntries(env, 1, Num(Int32), Msg(0), kvs)
      == EncodeEntry(env, 1, Num(Int32), Msg(0), kvs[0]) + EncodeEntries(env, 1, Num(Int32), Msg(0), kvs[1..]);
  }

  lemma GapDefault(env: Env)
    requires GapEnv(env)
    ensures DefaultElem(env, Msg(2)) == Message([Entries([]), DefaultElem(env, Msg(1))], [])
  {
    var fs := env[2];
    assert fs[0] == MAP_FIELD && fs[1] == MESSAGE_FIELD && fs[1..] == [MESSAGE_FIELD] && fs[1..][1..] == [];
    assert DefaultField(env, 2, MESSAGE_FIELD) == DefaultElem(env, Msg(1));
    assert DefaultMembers(env, 2, fs[1..]) == [DefaultField(env, 2, MESSAGE_FIELD)] + DefaultMembers(env, 2, []);
    assert DefaultMembers(env, 2, fs) == [DefaultField(env, 2, MAP_FIELD)] + DefaultMembers(env, 2, fs[1..]);
  }

  /** A value with an overtaken message can come back: exactly if that message is the default one of
    * its type, as the empty message written in its place is read. */
  lemma OvertakenComesBack(env: Env, m: Value)
    requires GapEnv(env) && ElemOk(env, Msg(1), m) && EncodeMessage(env, env[1], m) != []
    ensures var v := Message([GAP_MAP, m], []);
      && MessageOk(env, env[2], v) && Overtaken(MemberEvents(env, env[2], v.members))
      && EmitTop(env, env[2], v) != EncodeMessage(env, env[2], v)
      && (ParseMessage(env, 2, DefaultElem(env, Msg(2)), EmitTop(env, env[2], v), 0) == Ok(v)
        <==> m == DefaultElem(env, Msg(1)))
  {
    GapEmits(env, m);
    GapReads(env, m);
    TwoPassesAgree(env, env[2], Message([GAP_MAP, m], []));
  }

  const WRAP_ENV: Env := [[], [Single(1, Msg(0))], GAP_FIELDS]

  /** Both occur: a message that holds 5 does not come back, and a default message that holds an
    * empty one, which takes two bytes, does. */
  lemma SomeComeBack()
    ensures GapEnv(GAP_ENV) && ElemOk(GAP_ENV, Msg(1), FIVE) && FIVE != DefaultElem(GAP_ENV, Msg(1))
    ensures EncodeMessage(GAP_ENV, GAP_ENV[1], FIVE) != []
    ensures GapEnv(WRAP_ENV) && EncodeMessage(WRAP_ENV, WRAP_ENV[1], DefaultElem(WRAP_ENV, Msg(1))) != []
  {
    GapEnvIsValid();
    assert forall id | 0 <= id < 3 :: ValidFields(WRAP_ENV, WRAP_ENV[id]);
    GapFieldsOk();
    var f := GAP_ENV[1][0];
    assert EncodeMembers(GAP_ENV, GAP_ENV[1], FIVE.members)
      == EncodeField(GAP_ENV, f, Number(5)) + EncodeMembers(GAP_ENV, [], []);
    assert DefaultElem(GAP_ENV, Msg(1)).members[0] == DefaultField(GAP_ENV, 1, f) == Number(0);
    var g, e := WRAP_ENV[1][0], DefaultElem(WRAP_ENV, Msg(0));
    var d := DefaultElem(WRAP_ENV, Msg(1));
    assert d.members[0] == DefaultField(WRAP_ENV, 1, g) == e;
    assert |d.members| == 1 && d.members == [e];
    assert EncodeMembers(WRAP_ENV, WRAP_ENV[1], [e]) == EncodeField(WRAP_ENV, g, e) + EncodeMembers(WRAP_ENV, [], []);
    assert |EncodeField(WRAP_ENV, g, e)| >= |TagBytes(1, LengthDelimited)| > 0;
  }
}
