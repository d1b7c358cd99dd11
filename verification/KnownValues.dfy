/** What the reader returns holds no unknown bytes but those it kept: in every message of the value
  * they are well-formed fields that the message's schema does not list. */
module KnownValues {
  import opened Wire
  import opened Schema
  import opened PbParse
  import opened UnknownFields
  import opened RoundTrip

  // ----- default values --------------------------------------------------------------------------

  lemma NothingUnknown(fs: seq<Field>)
    ensures Unknowns(fs, []) && WireOfUnknown(fs, []) == []
  {
    assert Spells(fs, [], []);
    WireHasBytes(WireOfUnknown(fs, []));
  }

  lemma WireHasBytes(ws: seq<WireField>)
    requires forall i | 0 <= i < |ws| :: WellFormed(ws[i])
    ensures ws != [] ==> EncodeWire(ws) != []
  {
    if ws != [] {
      assert WellFormed(ws[0]) && |ws[0].tag| > 0;
    }
  }

  lemma {:induction false} DefaultIsKnown(env: Env, e: Elem)
    requires ValidEnv(env) && ValidElem(env, e)
    ensures ElemKnown(env, e, DefaultElem(env, e))
    decreases if e.Msg? then e.id + 1 else 0, 0
  {
    if e.Msg? {
      var fs, v := env[e.id], DefaultElem(env, e);
      assert MessageOk(env, fs, v);
      NothingUnknown(fs);
      forall i | 0 <= i < |fs| ensures FieldKnown(env, fs[i], v.members[i]) {
        DefaultAt(env, e.id, fs, i);
        DefaultFieldIsKnown(env, e.id, fs[i]);
      }
    }
  }

  lemma {:induction false} DefaultFieldIsKnown(env: Env, id: nat, f: Field)
    requires ValidEnv(env) && id < |env| && f in env[id]
    ensures FieldKnown(env, f, DefaultField(env, id, f))
    decreases id, 1
  {
    assert ValidFields(env, env[id]) && ValidField(env, f);
    match f
    case Single(_, e) =>
      assert e.Msg? ==> Embeds(f, e.id);
      DefaultIsKnown(env, e);
    case Oneof(cases, monostate) =>
      if !monostate {
        assert cases[0].elem.Msg? ==> Embeds(f, cases[0].elem.id);
        DefaultIsKnown(env, cases[0].elem);
      }
    case _ =>
  }

  // ----- the reader ------------------------------------------------------------------------------

  lemma {:induction false} ElemStaysKnown(env: Env, e: Elem, cur: Value, s: bytes, depth: nat)
    requires ValidEnv(env) && ElemOk(env, e, cur) && ElemKnown(env, e, cur) && depth <= MAX_DEPTH
    requires ParseElem(env, e, cur, s, depth).Ok?
    ensures ElemKnown(env, e, ParseElem(env, e, cur, s, depth).value.0)
    decreases |s|, 1
  {
    if e.Msg? {
      assert MessageOk(env, env[e.id], cur);
      var payload := ReadLenDelim(s).value.0;
      if payload != [] {
        MessageStaysKnown(env, e.id, cur, payload, depth);
      }
    }
  }

  lemma {:induction false} MessageStaysKnown(env: Env, id: nat, cur: Value, s: bytes, depth: nat)
    requires ValidEnv(env) && id < |env| && MessageOk(env, env[id], cur) && MessageKnown(env, env[id], cur)
    requires depth <= MAX_DEPTH && ParseMessage(env, id, cur, s, depth).Ok?
    ensures MessageKnown(env, env[id], ParseMessage(env, id, cur, s, depth).value)
    decreases |s|, 3
  {
    if s != [] {
      FieldsStayKnown(env, id, cur, s, depth + 1);
    }
  }

  lemma {:induction false} FieldsStayKnown(env: Env, id: nat, cur: Value, s: bytes, depth: nat)
    requires ValidEnv(env) && id < |env| && MessageOk(env, env[id], cur) && MessageKnown(env, env[id], cur)
    requires depth <= MAX_DEPTH && ParseFields(env, id, cur, s, depth).Ok?
    ensures MessageKnown(env, env[id], ParseFields(env, id, cur, s, depth).value)
    decreases |s|, 2
  {
    hide MessageKnown;
    hide ParseOne;
    if s != [] {
      OneStaysKnown(env, id, cur, s, depth);
      var one := ParseOne(env, id, cur, s, depth).value;
      FieldsStayKnown(env, id, one.0, one.1, depth);
    }
  }

  lemma {:induction false} OneStaysKnown(env: Env, id: nat, cur: Value, s: bytes, depth: nat)
    requires ValidEnv(env) && id < |env| && MessageOk(env, env[id], cur) && MessageKnown(env, env[id], cur)
    requires depth <= MAX_DEPTH && ParseOne(env, id, cur, s, depth).Ok?
    ensures MessageKnown(env, env[id], ParseOne(env, id, cur, s, depth).value.0)
    decreases |s|, 1
  {
    var fs := env[id];
    var key := DecodeKey(s).value;
    var rest := s[key.size..];
    match FindField(fs, key.number)
    case Unlisted =>
      var f := UnlistedAccepted(env, id, cur, s, depth);
      OneMoreUnknown(fs, cur.unknown, f);
    case Listed(i, c) =>
      assert ValidFields(env, fs);
      FieldStaysKnown(env, fs[i], c, cur.members[i], key.wire, rest, depth);
  }

  lemma OneMoreUnknown(fs: seq<Field>, u: bytes, f: WireField)
    requires Unknowns(fs, u) && WellFormed(f) && FindField(fs, f.number).Unlisted?
    ensures Unknowns(fs, u + EncodeWireField(f))
  {
    var ws := WireOfUnknown(fs, u);
    EncodeWireAppend(ws, f);
    assert Spells(fs, ws + [f], u + EncodeWireField(f));
  }

  lemma {:induction false} EncodeWireAppend(ws: seq<WireField>, f: WireField)
    ensures EncodeWire(ws + [f]) == EncodeWire(ws) + EncodeWireField(f)
  {
    if ws == [] {
      assert [] + [f] == [f] && [f][1..] == [];
    } else {
      assert (ws + [f])[1..] == ws[1..] + [f];
      EncodeWireAppend(ws[1..], f);
    }
  }

  lemma {:induction false} FieldStaysKnown(env: Env, f: Field, c: nat, cur: Value, wire: WireType, s: bytes, depth: nat)
    requires ValidEnv(env) && ValidField(env, f) && FieldOk(env, f, cur) && FieldKnown(env, f, cur)
    requires (f.Oneof? ==> c < |f.cases|) && depth <= MAX_DEPTH
    requires ParseField(env, f, c, cur, wire, s, depth).Ok?
    ensures FieldKnown(env, f, ParseField(env, f, c, cur, wire, s, depth).value.0)
    decreases |s|, 2
  {
    match f
    case Single(_, e) => ElemStaysKnown(env, e, cur, s, depth);
    case Optional(_, e, _) =>
      DefaultIsKnown(env, e);
      ElemStaysKnown(env, e, if cur.Nothing? then DefaultElem(env, e) else cur.v, s, depth);
    case Repeated(_, e) =>
      if !e.Num? && s != [] {
        DefaultIsKnown(env, e);
        ElemStaysKnown(env, e, DefaultElem(env, e), s, depth);
      }
    case MapOf(_, k, e) =>
      if s != [] {
        var start := Entry(DefaultElem(env, k), DefaultElem(env, e));
        DefaultIsKnown(env, e);
        EntryStaysKnown(env, k, e, start, ReadLenDelim(s).value.0, depth);
      }
    case Oneof(cases, _) =>
      DefaultIsKnown(env, cases[c].elem);
      ElemStaysKnown(env, cases[c].elem, DefaultElem(env, cases[c].elem), s, depth);
  }

  lemma {:induction false} EntryStaysKnown(env: Env, k: Elem, e: Elem, kv: Entry, s: bytes, depth: nat)
    requires ValidEnv(env) && ElemOk(env, k, kv.key) && ElemOk(env, e, kv.value) && EntryKnown(env, e, kv)
    requires depth <= MAX_DEPTH && ParseEntry(env, k, e, kv, s, depth).Ok?
    ensures EntryKnown(env, e, ParseEntry(env, k, e, kv, s, depth).value)
    decreases |s|, 2
  {
    if s != [] {
      var key := DecodeKey(s).value;
      var rest := s[key.size..];
      if key.number == 1 && key.wire == WireOf(k) {
        var r := ParseElem(env, k, kv.key, rest, depth).value;
        EntryStaysKnown(env, k, e, kv.(key := r.0), r.1, depth);
      } else if key.number == 2 && key.wire == WireOf(e) {
        var r := ParseElem(env, e, kv.value, rest, depth).value;
        ElemStaysKnown(env, e, kv.value, rest, depth);
        EntryStaysKnown(env, k, e, kv.(value := r.0), r.1, depth);
      } else {
        EntryStaysKnown(env, k, e, kv, SkipUnknown(rest, key.wire, key.number, depth).value, depth);
      }
    }
  }

  /** Every value that `from_pb` makes from a default-constructed target. */
  lemma ReadIsKnown(env: Env, id: nat, s: bytes)
    requires ValidEnv(env) && id < |env|
    requires ParseMessage(env, id, DefaultElem(env, Msg(id)), s, 0).Ok?
    ensures var v := ParseMessage(env, id, DefaultElem(env, Msg(id)), s, 0).value;
      ElemOk(env, Msg(id), v) && ElemKnown(env, Msg(id), v)
  {
    DefaultIsKnown(env, Msg(id));
    MessageStaysKnown(env, id, DefaultElem(env, Msg(id)), s, 0);
  }
}
