/** Changing the type of a member: a boolean, a 32-bit integer or an unsigned number is written as the
  * 64-bit number that it equals, so a message written with the narrow type is read with the wide one
  * (the "Updating A Message Type" rules of Protocol Buffers). */
module Widening {
  import opened Wire
  import opened Schema
  import opened PbParse
  import opened RoundTrip

  // ----- scalars ---------------------------------------------------------------------------------

  /** Every number of kind `s` is the same number of kind `t`. */
  predicate Widens(s: Scalar, t: Scalar) {
    || s == t
    || (s == Bool && t in {Int32, UInt32, Int64, UInt64})
    || (s == UInt32 && t in {Int64, UInt64})
    || (s == Int32 && t == Int64)
  }

  lemma WidensScalar(s: Scalar, t: Scalar, n: int)
    requires Widens(s, t) && s.InRange(n)
    ensures t.InRange(n) && EncodeScalar(t, n) == EncodeScalar(s, n)
    ensures t.IsZero(n) == s.IsZero(n)
  {
  }

  /** Written as one kind and read as another. */
  lemma WidenedScalar(s: Scalar, t: Scalar, n: int, rest: bytes)
    requires Widens(s, t) && s.InRange(n)
    ensures ParseScalar(t, EncodeScalar(s, n) + rest) == Ok((n, rest))
  {
    WidensScalar(s, t, n);
    ScalarParses(t, n, rest);
  }

  /** A negative int32 is no uint64: it is read as that number and 2^64. */
  lemma NegativeAsUnsigned(n: int, rest: bytes)
    requires Int32.InRange(n) && n < 0
    ensures ParseScalar(UInt64, EncodeScalar(Int32, n) + rest) == Ok((n + 0x1_0000_0000_0000_0000, rest))
  {
    SameBytes(n);
    ScalarParses(UInt64, n + TWO_64, rest);
    hide EncodeScalar;
    hide ParseScalar;
  }

  lemma SameBytes(n: int)
    requires Int32.InRange(n) && n < 0
    ensures UInt64.InRange(n + TWO_64) && EncodeScalar(UInt64, n + TWO_64) == EncodeScalar(Int32, n)
  {
  }

  /** Read with a narrower type a number loses its upper bits. */
  lemma NarrowedScalar(n: int, rest: bytes)
    requires Int64.InRange(n)
    ensures var r := ParseScalar(Int32, EncodeScalar(Int64, n) + rest);
      r.Ok? && r.value.1 == rest && Int32.InRange(r.value.0) && (n - r.value.0) % 0x1_0000_0000 == 0
  {
    var u := Int64.ToWire(n);
    LowHalf(n, u, Int32.FromWire(u));
    VarintRoundTrip(u, rest);
    hide VarintBytes;
    hide ReadVarint;
  }

  lemma LowHalf(n: int, u: nat, m: int)
    requires (u == n || u == n + TWO_64) && (m == u % TWO_32 || m == u % TWO_32 - TWO_32)
    ensures (n - m) % 0x1_0000_0000 == 0
  {
    assert u == u / TWO_32 * TWO_32 + u % TWO_32;
  }

  // ----- messages --------------------------------------------------------------------------------

  predicate ElemWidens(d: Elem, e: Elem) {
    d == e || (d.Num? && e.Num? && Widens(d.s, e.s))
  }

  predicate CasesWiden(a: seq<Case>, b: seq<Case>) {
    |a| == |b| && forall i | 0 <= i < |a| :: a[i].no == b[i].no && ElemWidens(a[i].elem, b[i].elem)
  }

  predicate FieldWidens(f: Field, g: Field) {
    match (f, g)
    case (Single(m, d), Single(n, e)) => m == n && ElemWidens(d, e)
    case (Optional(m, d, x), Optional(n, e, y)) => m == n && x == y && ElemWidens(d, e)
    case (Repeated(m, d), Repeated(n, e)) => m == n && ElemWidens(d, e)
    case (MapOf(m, j, d), MapOf(n, k, e)) => m == n && ElemWidens(j, k) && ElemWidens(d, e)
    case (Oneof(a, x), Oneof(b, y)) => x == y && CasesWiden(a, b)
    case _ => false
  }

  predicate FieldsWiden(fs: seq<Field>, gs: seq<Field>) {
    |fs| == |gs| && forall i | 0 <= i < |fs| :: FieldWidens(fs[i], gs[i])
  }

  /** The same messages, some members with a wider type. */
  ghost predicate EnvWidens(narrow: Env, wide: Env) {
    |narrow| == |wide| && forall id | 0 <= id < |narrow| :: FieldsWiden(narrow[id], wide[id])
  }

  lemma {:induction false} ElemSame(narrow: Env, wide: Env, d: Elem, e: Elem, v: Value)
    requires EnvWidens(narrow, wide) && ElemWidens(d, e) && ElemOk(narrow, d, v)
    ensures ElemOk(wide, e, v) && EncodeElem(wide, e, v) == EncodeElem(narrow, d, v)
    ensures IsDefault(e, v) == IsDefault(d, v) && WireOf(e) == WireOf(d)
    decreases v, 1
  {
    match d
    case Num(s) => WidensScalar(s, e.s, v.n);
    case Str =>
    case Msg(id) => MessageSame(narrow, wide, id, v);
  }

  /** A value of the narrow type is one of the wide type, and is written as the same bytes. */
  lemma {:induction false} MessageSame(narrow: Env, wide: Env, id: nat, v: Value)
    requires EnvWidens(narrow, wide) && id < |narrow| && MessageOk(narrow, narrow[id], v)
    ensures MessageOk(wide, wide[id], v) && EncodeMessage(wide, wide[id], v) == EncodeMessage(narrow, narrow[id], v)
    decreases v, 0
  {
    MembersSame(narrow, wide, narrow[id], wide[id], v.members);
  }

  lemma {:induction false} MembersSame(narrow: Env, wide: Env, fs: seq<Field>, gs: seq<Field>, ms: seq<Value>)
    requires EnvWidens(narrow, wide) && FieldsWiden(fs, gs) && |ms| == |fs|
    requires forall i | 0 <= i < |fs| :: FieldOk(narrow, fs[i], ms[i])
    ensures forall i | 0 <= i < |gs| :: FieldOk(wide, gs[i], ms[i])
    ensures EncodeMembers(wide, gs, ms) == EncodeMembers(narrow, fs, ms)
    decreases ms, 0
  {
    hide EnvWidens;
    hide FieldOk;
    hide EncodeField;
    hide FieldWidens;
    if fs != [] {
      FieldSame(narrow, wide, fs[0], gs[0], ms[0]);
      MembersSame(narrow, wide, fs[1..], gs[1..], ms[1..]);
      forall i | 0 <= i < |gs| ensures FieldOk(wide, gs[i], ms[i]) {
        if i > 0 {
          assert FieldOk(wide, gs[1..][i - 1], ms[1..][i - 1]);
        }
      }
    }
  }

  lemma {:induction false} FieldSame(narrow: Env, wide: Env, f: Field, g: Field, v: Value)
    requires EnvWidens(narrow, wide) && FieldWidens(f, g) && FieldOk(narrow, f, v)
    ensures FieldOk(wide, g, v) && EncodeField(wide, g, v) == EncodeField(narrow, f, v)
    decreases v, 3
  {
    match f
    case Single(_, d) => ElemSame(narrow, wide, d, g.elem, v);
    case Optional(_, d, _) =>
      if v.Just? {
        ElemSame(narrow, wide, d, g.elem, v.v);
      }
    case Repeated(no, d) =>
      if d.Num? {
        PackedSame(narrow, wide, d, g.elem, v.items);
      } else {
        ItemsSame(narrow, wide, no, d, g.elem, v.items);
      }
    case MapOf(no, j, d) => EntriesSame(narrow, wide, no, j, g.key, d, g.value, v.kvs);
    case Oneof(cases, _) =>
      if v.Choice? {
        ElemSame(narrow, wide, cases[v.index].elem, g.cases[v.index].elem, v.v);
      }
  }

  lemma {:induction false} PackedSame(narrow: Env, wide: Env, d: Elem, e: Elem, items: seq<Value>)
    requires EnvWidens(narrow, wide) && ElemWidens(d, e) && d.Num?
    requires forall i | 0 <= i < |items| :: ElemOk(narrow, d, items[i])
    ensures forall i | 0 <= i < |items| :: ElemOk(wide, e, items[i])
    ensures EncodePacked(wide, e, items) == EncodePacked(narrow, d, items)
    decreases items, 0
  {
    hide EncodeElem;
    hide EnvWidens;
    hide ElemOk;
    if items != [] {
      ElemSame(narrow, wide, d, e, items[0]);
      PackedSame(narrow, wide, d, e, items[1..]);
      forall i | 0 <= i < |items| ensures ElemOk(wide, e, items[i]) {
        if i > 0 {
          assert ElemOk(wide, e, items[1..][i - 1]);
        }
      }
    }
  }

  lemma {:induction false} ItemsSame(narrow: Env, wide: Env, no: nat, d: Elem, e: Elem, items: seq<Value>)
    requires EnvWidens(narrow, wide) && ElemWidens(d, e)
    requires forall i | 0 <= i < |items| :: ElemOk(narrow, d, items[i])
    ensures forall i | 0 <= i < |items| :: ElemOk(wide, e, items[i])
    ensures EncodeItems(wide, no, e, items) == EncodeItems(narrow, no, d, items)
    decreases items, 0
  {
    hide EncodeElem;
    hide EnvWidens;
    hide ElemOk;
    if items != [] {
      ElemSame(narrow, wide, d, e, items[0]);
      ItemsSame(narrow, wide, no, d, e, items[1..]);
      forall i | 0 <= i < |items| ensures ElemOk(wide, e, items[i]) {
        if i > 0 {
          assert ElemOk(wide, e, items[1..][i - 1]);
        }
      }
    }
  }

  lemma {:induction false} EntrySame(narrow: Env, wide: Env, no: nat, j: Elem, k: Elem, d: Elem, e: Elem, kv: Entry)
    requires EnvWidens(narrow, wide) && ElemWidens(j, k) && ElemWidens(d, e)
    requires ElemOk(narrow, j, kv.key) && ElemOk(narrow, d, kv.value)
    ensures ElemOk(wide, k, kv.key) && ElemOk(wide, e, kv.value)
    ensures EncodeEntry(wide, no, k, e, kv) == EncodeEntry(narrow, no, j, d, kv)
    decreases kv
  {
    ElemSame(narrow, wide, j, k, kv.key);
    ElemSame(narrow, wide, d, e, kv.value);
    assert Occurrence(wide, 1, k, kv.key) == Occurrence(narrow, 1, j, kv.key);
    assert Occurrence(wide, 2, e, kv.value) == Occurrence(narrow, 2, d, kv.value);
    assert EntryBody(wide, k, e, kv) == EntryBody(narrow, j, d, kv);
  }

  lemma {:induction false} EntriesSame(narrow: Env, wide: Env, no: nat, j: Elem, k: Elem, d: Elem, e: Elem,
      kvs: seq<Entry>)
    requires EnvWidens(narrow, wide) && ElemWidens(j, k) && ElemWidens(d, e)
    requires forall i | 0 <= i < |kvs| :: ElemOk(narrow, j, kvs[i].key) && ElemOk(narrow, d, kvs[i].value)
    ensures forall i | 0 <= i < |kvs| :: ElemOk(wide, k, kvs[i].key) && ElemOk(wide, e, kvs[i].value)
    ensures EncodeEntries(wide, no, k, e, kvs) == EncodeEntries(narrow, no, j, d, kvs)
    decreases kvs
  {
    hide EncodeEntry;
    hide EnvWidens;
    hide ElemOk;
    if kvs != [] {
      EntrySame(narrow, wide, no, j, k, d, e, kvs[0]);
      EntriesSame(narrow, wide, no, j, k, d, e, kvs[1..]);
      forall i | 0 <= i < |kvs| ensures ElemOk(wide, k, kvs[i].key) && ElemOk(wide, e, kvs[i].value) {
        if i > 0 {
          assert ElemOk(wide, k, kvs[1..][i - 1].key) && ElemOk(wide, e, kvs[1..][i - 1].value);
        }
      }
    }
  }

  /** What was written with the narrow types and is read with the wide ones is the same value, under
    * the conditions of the round trip. */
  lemma WidenedMessage(narrow: Env, wide: Env, id: nat, v: Value)
    requires EnvWidens(narrow, wide) && ValidEnv(wide) && id < |narrow| && MessageOk(narrow, narrow[id], v)
    requires |EncodeMessage(narrow, narrow[id], v)| < TWO_64
    requires ElemOk(wide, Msg(id), v) ==> ElemKnown(wide, Msg(id), v)
    ensures ElemOk(wide, Msg(id), v)
    ensures var r := ParseMessage(wide, id, DefaultElem(wide, Msg(id)), EncodeMessage(narrow, narrow[id], v), 0);
      r == Ok(v) <==> ElemFits(wide, Msg(id), v, 0) && ElemLossless(wide, Msg(id), v)
  {
    MessageSame(narrow, wide, id, v);
    MessageRoundTrip(wide, id, v);
  }
}
