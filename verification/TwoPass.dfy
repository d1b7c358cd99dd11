/** What the two-pass serializer computes.  Pass one lists, in visiting order, the predicted size
  * of every nested message in 32 bits; pass two (`Emit`) takes each length prefix from that list.
  * `TwoPassProof.TwoPassesAgree` says exactly when the bytes are the encoding.
  */
module TwoPass {
  import opened Wire
  import opened Schema
  import opened Sizes

  // ----- what pass one records ----------------------------------------------------------

  /** A message of some size, and what was recorded for it.  A `Gap` is recorded for an empty
    * message that is a map value: pass two writes its length without moving past the record. */
  datatype Event = Slot(size: nat, record: nat) | Gap

  function TableOf(evs: seq<Event>): (t: seq<nat>)
    ensures |t| == |evs|
  {
    if evs == [] then [] else [if evs[0].Slot? then evs[0].record else 0] + TableOf(evs[1..])
  }

  lemma {:induction false} TableOfConcat(a: seq<Event>, b: seq<Event>)
    ensures TableOf(a + b) == TableOf(a) + TableOf(b)
  {
    if a == [] {
      assert a + b == b;
    } else {
      TableOfConcat(a[1..], b);
      assert (a + b)[1..] == a[1..] + b;
    }
  }

  function ElemEvents(env: Env, e: Elem, v: Value, mapped: bool): seq<Event>
    requires ElemOk(env, e, v)
    decreases v, 1
  {
    if !e.Msg? then []
    else
      var size, record := |EncodeMessage(env, env[e.id], v)|, PredictMessage(env, env[e.id], v) % TWO_32;
      [if mapped && size == 0 then Gap else Slot(size, record)] + MemberEvents(env, env[e.id], v.members)
  }

  function MemberEvents(env: Env, fs: seq<Field>, ms: seq<Value>): seq<Event>
    requires |fs| == |ms| && forall i | 0 <= i < |fs| :: FieldOk(env, fs[i], ms[i])
    decreases ms
  {
    if fs == [] then [] else FieldEvents(env, fs[0], ms[0]) + MemberEvents(env, fs[1..], ms[1..])
  }

  function FieldEvents(env: Env, f: Field, v: Value): seq<Event>
    requires FieldOk(env, f, v)
    decreases v, 3
  {
    match f
    case Single(_, e) => ElemEvents(env, e, v, false)
    case Optional(_, e, _) => if v.Nothing? then [] else ElemEvents(env, e, v.v, false)
    case Repeated(_, e) => ItemEvents(env, e, v.items)
    case MapOf(_, _, e) => EntryEvents(env, e, v.kvs)
    case Oneof(cases, _) => if v.Nothing? then [] else ElemEvents(env, cases[v.index].elem, v.v, false)
  }

  function ItemEvents(env: Env, e: Elem, items: seq<Value>): seq<Event>
    requires forall i | 0 <= i < |items| :: ElemOk(env, e, items[i])
    decreases items
  {
    if items == [] then [] else ElemEvents(env, e, items[0], false) + ItemEvents(env, e, items[1..])
  }

  function EntryEvents(env: Env, e: Elem, kvs: seq<Entry>): seq<Event>
    requires forall i | 0 <= i < |kvs| :: ElemOk(env, e, kvs[i].value)
    decreases kvs
  {
    if kvs == [] then [] else ValueEvents(env, e, kvs[0]) + EntryEvents(env, e, kvs[1..])
  }

  function ValueEvents(env: Env, e: Elem, kv: Entry): seq<Event>
    requires ElemOk(env, e, kv.value)
    decreases kv
  {
    ElemEvents(env, e, kv.value, true)
  }

  lemma {:induction false} NumbersHaveNoEvents(env: Env, e: Elem, items: seq<Value>)
    requires !e.Msg? && forall i | 0 <= i < |items| :: ElemOk(env, e, items[i])
    ensures ItemEvents(env, e, items) == []
  {
    if items != [] {
      NumbersHaveNoEvents(env, e, items[1..]);
    }
  }

  /** A field that encodes to nothing contains no message. */
  lemma EventsNeedBytes(env: Env, f: Field, v: Value)
    requires FieldOk(env, f, v)
    ensures |FieldEvents(env, f, v)| > 0 ==> |EncodeField(env, f, v)| > 0
  {
    match f
    case Single(no, e) =>
    case Optional(no, e, _) =>
    case Repeated(no, e) =>
      if !e.Msg? {
        NumbersHaveNoEvents(env, e, v.items);
      } else if v.items != [] {
        assert |EncodeItems(env, no, e, v.items)| >= |Occurrence(env, no, e, v.items[0])| > 0;
      } else {
        assert ItemEvents(env, e, v.items) == [];
      }
    case MapOf(no, k, e) =>
      if v.kvs != [] {
        assert |EncodeEntries(env, no, k, e, v.kvs)| >= |TagBytes(no, LengthDelimited)| > 0;
      } else {
        assert EntryEvents(env, e, v.kvs) == [];
      }
    case Oneof(cases, _) =>
  }

  lemma {:induction false} EmptyHasNoEvents(env: Env, fs: seq<Field>, ms: seq<Value>)
    requires |fs| == |ms| && forall i | 0 <= i < |fs| :: FieldOk(env, fs[i], ms[i])
    ensures |MemberEvents(env, fs, ms)| > 0 ==> |EncodeMembers(env, fs, ms)| > 0
  {
    if fs != [] {
      EventsNeedBytes(env, fs[0], ms[0]);
      EmptyHasNoEvents(env, fs[1..], ms[1..]);
    }
  }

  /** Every message is smaller than what contains it. */
  ghost predicate Within(evs: seq<Event>, n: nat) {
    forall i | 0 <= i < |evs| && evs[i].Slot? :: evs[i].size <= n
  }

  lemma WithinBoth(a: seq<Event>, m: nat, b: seq<Event>, n: nat)
    requires Within(a, m) && Within(b, n)
    ensures Within(a + b, m + n)
  {
  }

  lemma {:induction false} ElemWithin(env: Env, e: Elem, v: Value, mapped: bool)
    requires ElemOk(env, e, v)
    ensures Within(ElemEvents(env, e, v, mapped), |EncodeElem(env, e, v)|)
    decreases v, 1
  {
    if e.Msg? {
      assert MessageOk(env, env[e.id], v);
      MembersWithin(env, env[e.id], v.members);
    }
  }

  /** No message recorded among the members is larger than their encoding. */
  lemma {:induction false} MembersWithin(env: Env, fs: seq<Field>, ms: seq<Value>)
    requires |fs| == |ms| && forall i | 0 <= i < |fs| :: FieldOk(env, fs[i], ms[i])
    ensures Within(MemberEvents(env, fs, ms), |EncodeMembers(env, fs, ms)|)
    decreases ms, 0
  {
    if fs != [] {
      FieldWithin(env, fs[0], ms[0]);
      MembersWithin(env, fs[1..], ms[1..]);
      WithinBoth(FieldEvents(env, fs[0], ms[0]), |EncodeField(env, fs[0], ms[0])|,
                 MemberEvents(env, fs[1..], ms[1..]), |EncodeMembers(env, fs[1..], ms[1..])|);
    }
  }

  lemma {:induction false} FieldWithin(env: Env, f: Field, v: Value)
    requires FieldOk(env, f, v)
    ensures Within(FieldEvents(env, f, v), |EncodeField(env, f, v)|)
    decreases v, 3
  {
    match f
    case Single(no, e) => ElemWithin(env, e, v, false);
    case Optional(no, e, _) =>
      if v.Just? {
        ElemWithin(env, e, v.v, false);
      }
    case Repeated(no, e) =>
      if e.Num? {
        NumbersHaveNoEvents(env, e, v.items);
      } else {
        ItemsWithin(env, no, e, v.items);
      }
    case MapOf(no, k, e) => EntriesWithin(env, no, k, e, v.kvs);
    case Oneof(cases, _) =>
      if v.Choice? {
        ElemWithin(env, cases[v.index].elem, v.v, false);
      }
  }

  lemma {:induction false} ItemsWithin(env: Env, no: nat, e: Elem, items: seq<Value>)
    requires forall i | 0 <= i < |items| :: ElemOk(env, e, items[i])
    ensures Within(ItemEvents(env, e, items), |EncodeItems(env, no, e, items)|)
    decreases items, 0
  {
    if items != [] {
      ElemWithin(env, e, items[0], false);
      ItemsWithin(env, no, e, items[1..]);
      WithinBoth(ElemEvents(env, e, items[0], false), |Occurrence(env, no, e, items[0])|,
                 ItemEvents(env, e, items[1..]), |EncodeItems(env, no, e, items[1..])|);
    }
  }

  lemma ValueInEntry(env: Env, no: nat, k: Elem, e: Elem, kv: Entry)
    requires ElemOk(env, k, kv.key) && ElemOk(env, e, kv.value)
    ensures |EncodeElem(env, e, kv.value)| <= |EncodeEntry(env, no, k, e, kv)|
  {
    assert |Occurrence(env, 2, e, kv.value)| <= |EntryBody(env, k, e, kv)|;
  }

  lemma {:induction false} EntriesWithin(env: Env, no: nat, k: Elem, e: Elem, kvs: seq<Entry>)
    requires forall i | 0 <= i < |kvs| :: ElemOk(env, k, kvs[i].key) && ElemOk(env, e, kvs[i].value)
    ensures Within(EntryEvents(env, e, kvs), |EncodeEntries(env, no, k, e, kvs)|)
    decreases kvs, 0
  {
    hide ElemEvents;
    hide EncodeElem;
    if kvs != [] {
      var kv := kvs[0];
      assert kv.value < kv;
      ElemWithin(env, e, kv.value, true);
      ValueInEntry(env, no, k, e, kv);
      EntriesWithin(env, no, k, e, kvs[1..]);
      WithinBoth(ValueEvents(env, e, kv), |EncodeEntry(env, no, k, e, kv)|,
                 EntryEvents(env, e, kvs[1..]), |EncodeEntries(env, no, k, e, kvs[1..])|);
    }
  }

  // ----- pass two --------------------------------------------------------------------------

  /** `str_numeric_size<0, false>`: the payload without tag and length prefix. */
  function PayloadSize(env: Env, e: Elem, v: Value): nat
    requires ElemOk(env, e, v) && !e.Msg?
  {
    if e.Str? then |v.b| else |EncodeScalar(e.s, v.n)|
  }

  /** Bytes written and what is left of the size table. */
  type Emitted = (bytes, seq<nat>)

  function EmitElem(env: Env, no: nat, e: Elem, v: Value, tab: seq<nat>): (r: Emitted)
    requires ElemOk(env, e, v) && |ElemEvents(env, e, v, false)| <= |tab|
    ensures |r.1| + |ElemEvents(env, e, v, false)| >= |tab|
    decreases v, 1
  {
    if !e.Msg? then (Occurrence(env, no, e, v), tab)
    else
      var head := TagBytes(no, LengthDelimited) + VarintBytes(tab[0]);
      if tab[0] == 0 then (head, tab[1..])
      else
        assert MessageOk(env, env[e.id], v);
        var r := EmitMembers(env, env[e.id], v.members, tab[1..]);
        (head + r.0 + v.unknown, r.1)
  }

  function EmitMembers(env: Env, fs: seq<Field>, ms: seq<Value>, tab: seq<nat>): (r: Emitted)
    requires |fs| == |ms| && forall i | 0 <= i < |fs| :: FieldOk(env, fs[i], ms[i])
    requires |MemberEvents(env, fs, ms)| <= |tab|
    ensures |r.1| + |MemberEvents(env, fs, ms)| >= |tab|
    decreases ms
  {
    if fs == [] then ([], tab)
    else
      var r := EmitField(env, fs[0], ms[0], tab);
      var q := EmitMembers(env, fs[1..], ms[1..], r.1);
      (r.0 + q.0, q.1)
  }

  function EmitField(env: Env, f: Field, v: Value, tab: seq<nat>): (r: Emitted)
    requires FieldOk(env, f, v) && |FieldEvents(env, f, v)| <= |tab|
    ensures |r.1| + |FieldEvents(env, f, v)| >= |tab|
    decreases v, 3
  {
    match f
    case Single(no, e) => if IsDefault(e, v) then ([], tab) else EmitElem(env, no, e, v, tab)
    case Optional(no, e, explicit) =>
      if v.Nothing? || (!explicit && IsDefault(e, v.v)) then ([], tab) else EmitElem(env, no, e, v.v, tab)
    case Repeated(no, e) =>
      if e.Num? then (EncodeField(env, f, v), tab) else EmitItems(env, no, e, v.items, tab)
    case MapOf(no, k, e) => EmitEntries(env, no, k, e, v.kvs, tab)
    case Oneof(cases, _) =>
      if v.Nothing? then ([], tab) else EmitElem(env, cases[v.index].no, cases[v.index].elem, v.v, tab)
  }

  function EmitItems(env: Env, no: nat, e: Elem, items: seq<Value>, tab: seq<nat>): (r: Emitted)
    requires forall i | 0 <= i < |items| :: ElemOk(env, e, items[i])
    requires |ItemEvents(env, e, items)| <= |tab|
    ensures |r.1| + |ItemEvents(env, e, items)| >= |tab|
    decreases items
  {
    if items == [] then ([], tab)
    else
      var r := EmitElem(env, no, e, items[0], tab);
      var q := EmitItems(env, no, e, items[1..], r.1);
      (r.0 + q.0, q.1)
  }

  /** `encode_pair_value`: a part of size 0 is its tag and a zero, and leaves the table alone. */
  function EmitPart(env: Env, no: nat, e: Elem, v: Value, size: nat, tab: seq<nat>): (r: Emitted)
    requires ElemOk(env, e, v) && |ElemEvents(env, e, v, true)| <= |tab|
    ensures |r.1| + |ElemEvents(env, e, v, true)| >= |tab|
    decreases v, 2
  {
    if size == 0 then (TagBytes(no, WireOf(e)) + VarintBytes(0), tab) else EmitElem(env, no, e, v, tab)
  }

  /** Tag, predicted payload and, for a length-prefixed part, its predicted prefix. */
  function PartLength(no: nat, e: Elem, size: nat): nat {
    |TagBytes(no, WireOf(e))| + size + (if e.Num? then 0 else VariantSize32(size))
  }

  function EmitEntry(env: Env, no: nat, k: Elem, e: Elem, kv: Entry, tab: seq<nat>): (r: Emitted)
    requires ElemOk(env, k, kv.key) && !k.Msg? && ElemOk(env, e, kv.value)
    requires |ValueEvents(env, e, kv)| <= |tab|
    ensures |r.1| + |ValueEvents(env, e, kv)| >= |tab|
    decreases kv
  {
    var kSize := PayloadSize(env, k, kv.key);
    assert ValueEvents(env, e, kv) == ElemEvents(env, e, kv.value, true);
    var vSize := if e.Msg? then tab[0] else PayloadSize(env, e, kv.value);
    var key := EmitPart(env, 1, k, kv.key, kSize, tab);
    var value := EmitPart(env, 2, e, kv.value, vSize, tab);
    (TagBytes(no, LengthDelimited) + VarintBytes(PartLength(1, k, kSize) + PartLength(2, e, vSize))
     + key.0 + value.0, value.1)
  }

  function EmitEntries(env: Env, no: nat, k: Elem, e: Elem, kvs: seq<Entry>, tab: seq<nat>): (r: Emitted)
    requires forall i | 0 <= i < |kvs| :: ElemOk(env, k, kvs[i].key) && ElemOk(env, e, kvs[i].value)
    requires !k.Msg? && |EntryEvents(env, e, kvs)| <= |tab|
    ensures |r.1| + |EntryEvents(env, e, kvs)| >= |tab|
    decreases kvs
  {
    if kvs == [] then ([], tab)
    else
      var r := EmitEntry(env, no, k, e, kvs[0], tab);
      var q := EmitEntries(env, no, k, e, kvs[1..], r.1);
      (r.0 + q.0, q.1)
  }
}
