/** What pass one of the serializer adds up.  Lengths are cast to 32 bits before their prefix is
  * measured, so the sum can fall short of the encoding; this module says exactly when. */
module Sizes {
  import opened Powers
  import opened Wire
  import opened Schema

  // ----- one length --------------------------------------------------------------------------

  /** `variant_uint32_size(static_cast<uint32_t>(n))` */
  function VariantSize32(n: nat): nat { VariantSize(n % TWO_32) }

  /** The cast does not change the length of the prefix. */
  predicate Harmless(n: nat) { VariantSize32(n) == |VarintBytes(n)| }

  lemma SmallIsHarmless(n: nat)
    requires n < TWO_32
    ensures Harmless(n)
  {
    assert n % TWO_32 == n;
    VariantSizeIsExact(n);
  }

  /** The cast is harmless exactly below 4 GiB, and on some sizes below 32 GiB whose low half is
    * large. */
  lemma SizeCastIsHarmless(n: nat)
    ensures Harmless(n) <==> n < TWO_32 || (n < 8 * TWO_32 && n % TWO_32 >= TWO_32 / 16)
  {
    VariantSizeIsExact(n % TWO_32);
    VarintLengthClass(n % TWO_32);
    VarintLengthClass(n);
    if n < TWO_32 {
      SmallIsHarmless(n);
    }
  }

  /** The least size that is measured wrong: 4 GiB, with a prefix of five bytes, counts one. */
  lemma LeastHarm()
    ensures !Harmless(TWO_32) && VariantSize32(TWO_32) == 1
    ensures forall n: nat | n < TWO_32 :: Harmless(n)
  {
    SizeCastIsHarmless(TWO_32);
    forall n: nat | n < TWO_32 ensures Harmless(n) {
      SmallIsHarmless(n);
    }
  }

  lemma VarintLengthClass(n: nat)
    ensures n < TWO_32 / 16 <==> |VarintBytes(n)| <= 4
    ensures n < 8 * TWO_32 <==> |VarintBytes(n)| <= 5
  {
    PowerValues();
    assert Power(30) == 4 * Power(28) && Power(32) == 4 * Power(30);
    assert Power(34) == 4 * Power(32) && Power(35) == 2 * Power(34);
    VarintLength(n);
    if n < TWO_32 / 16 {
      Log2Bound(n, 28);
    } else {
      Log2Lower(n, 28);
    }
    if n < 8 * TWO_32 {
      Log2Bound(n, 35);
    } else {
      Log2Lower(n, 35);
    }
  }

  lemma {:induction false} VarintMonotone(m: nat, n: nat)
    requires m <= n
    ensures |VarintBytes(m)| <= |VarintBytes(n)|
  {
    if m >= 128 {
      VarintMonotone(m / 128, n / 128);
    }
  }

  lemma CastShortens(n: nat)
    ensures VariantSize32(n) <= |VarintBytes(n)|
  {
    VariantSizeIsExact(n % TWO_32);
    VarintMonotone(n % TWO_32, n);
  }

  // ----- what pass one predicts ------------------------------------------------------------------

  /** A payload of predicted size `p` with its prefix. */
  function Prefixed(p: nat): nat { VariantSize32(p) + p }

  function PredictElem(env: Env, e: Elem, v: Value): nat
    requires ElemOk(env, e, v)
    decreases v, 1
  {
    match e
    case Num(s) => |EncodeScalar(s, v.n)|
    case Str => Prefixed(|v.b|)
    case Msg(id) => Prefixed(PredictMessage(env, env[id], v))
  }

  function PredictMessage(env: Env, fs: seq<Field>, v: Value): nat
    requires MessageOk(env, fs, v)
    decreases v, 0
  {
    PredictMembers(env, fs, v.members) + |v.unknown|
  }

  function PredictMembers(env: Env, fs: seq<Field>, ms: seq<Value>): nat
    requires |fs| == |ms| && forall i | 0 <= i < |fs| :: FieldOk(env, fs[i], ms[i])
    decreases ms
  {
    if fs == [] then 0 else PredictField(env, fs[0], ms[0]) + PredictMembers(env, fs[1..], ms[1..])
  }

  /** A tagged value. */
  function PredictOne(env: Env, no: nat, e: Elem, v: Value): nat
    requires ElemOk(env, e, v)
    decreases v, 2
  {
    |TagBytes(no, WireOf(e))| + PredictElem(env, e, v)
  }

  function PredictField(env: Env, f: Field, v: Value): nat
    requires FieldOk(env, f, v)
    decreases v, 3
  {
    match f
    case Single(no, e) => if IsDefault(e, v) then 0 else PredictOne(env, no, e, v)
    case Optional(no, e, explicit) =>
      if v.Nothing? || (!explicit && IsDefault(e, v.v)) then 0 else PredictOne(env, no, e, v.v)
    case Repeated(no, e) =>
      if e.Num? then
        if v.items == [] then 0 else |TagBytes(no, LengthDelimited)| + Prefixed(|EncodePacked(env, e, v.items)|)
      else PredictItems(env, no, e, v.items)
    case MapOf(no, k, e) => PredictEntries(env, no, k, e, v.kvs)
    case Oneof(cases, _) => if v.Nothing? then 0 else PredictOne(env, cases[v.index].no, cases[v.index].elem, v.v)
  }

  function PredictItems(env: Env, no: nat, e: Elem, items: seq<Value>): nat
    requires forall i | 0 <= i < |items| :: ElemOk(env, e, items[i])
    decreases items
  {
    if items == [] then 0 else PredictOne(env, no, e, items[0]) + PredictItems(env, no, e, items[1..])
  }

  function PredictBody(env: Env, k: Elem, e: Elem, kv: Entry): nat
    requires ElemOk(env, k, kv.key) && ElemOk(env, e, kv.value)
    decreases kv, 0
  {
    PredictOne(env, 1, k, kv.key) + PredictOne(env, 2, e, kv.value)
  }

  function PredictEntry(env: Env, no: nat, k: Elem, e: Elem, kv: Entry): nat
    requires ElemOk(env, k, kv.key) && ElemOk(env, e, kv.value)
    decreases kv, 1
  {
    |TagBytes(no, LengthDelimited)| + Prefixed(PredictBody(env, k, e, kv))
  }

  function PredictEntries(env: Env, no: nat, k: Elem, e: Elem, kvs: seq<Entry>): nat
    requires forall i | 0 <= i < |kvs| :: ElemOk(env, k, kvs[i].key) && ElemOk(env, e, kvs[i].value)
    decreases kvs
  {
    if kvs == [] then 0 else PredictEntry(env, no, k, e, kvs[0]) + PredictEntries(env, no, k, e, kvs[1..])
  }

  // ----- the lengths in an encoding ----------------------------------------------------------------

  /** Every length that the encoding of a value is prefixed with, or contains a prefix of. */
  function ElemLengths(env: Env, e: Elem, v: Value): seq<nat>
    requires ElemOk(env, e, v)
    decreases v, 1
  {
    match e
    case Num(_) => []
    case Str => [|v.b|]
    case Msg(id) => [|EncodeMessage(env, env[id], v)|] + MemberLengths(env, env[id], v.members)
  }

  function MemberLengths(env: Env, fs: seq<Field>, ms: seq<Value>): seq<nat>
    requires |fs| == |ms| && forall i | 0 <= i < |fs| :: FieldOk(env, fs[i], ms[i])
    decreases ms
  {
    if fs == [] then [] else FieldLengths(env, fs[0], ms[0]) + MemberLengths(env, fs[1..], ms[1..])
  }

  function FieldLengths(env: Env, f: Field, v: Value): seq<nat>
    requires FieldOk(env, f, v)
    decreases v, 3
  {
    match f
    case Single(_, e) => if IsDefault(e, v) then [] else ElemLengths(env, e, v)
    case Optional(_, e, explicit) =>
      if v.Nothing? || (!explicit && IsDefault(e, v.v)) then [] else ElemLengths(env, e, v.v)
    case Repeated(_, e) =>
      if e.Num? then if v.items == [] then [] else [|EncodePacked(env, e, v.items)|]
      else ItemLengths(env, e, v.items)
    case MapOf(_, k, e) => EntryLengths(env, k, e, v.kvs)
    case Oneof(cases, _) => if v.Nothing? then [] else ElemLengths(env, cases[v.index].elem, v.v)
  }

  function ItemLengths(env: Env, e: Elem, items: seq<Value>): seq<nat>
    requires forall i | 0 <= i < |items| :: ElemOk(env, e, items[i])
    decreases items
  {
    if items == [] then [] else ElemLengths(env, e, items[0]) + ItemLengths(env, e, items[1..])
  }

  function PairLengths(env: Env, k: Elem, e: Elem, kv: Entry): seq<nat>
    requires ElemOk(env, k, kv.key) && ElemOk(env, e, kv.value)
    decreases kv, 0
  {
    [|EntryBody(env, k, e, kv)|] + (ElemLengths(env, k, kv.key) + ElemLengths(env, e, kv.value))
  }

  function EntryLengths(env: Env, k: Elem, e: Elem, kvs: seq<Entry>): seq<nat>
    requires forall i | 0 <= i < |kvs| :: ElemOk(env, k, kvs[i].key) && ElemOk(env, e, kvs[i].value)
    decreases kvs
  {
    if kvs == [] then [] else PairLengths(env, k, e, kvs[0]) + EntryLengths(env, k, e, kvs[1..])
  }

  // ----- when the prediction is exact ------------------------------------------------------------------

  ghost predicate AllHarmless(lengths: seq<nat>) {
    forall i | 0 <= i < |lengths| :: Harmless(lengths[i])
  }

  /** A predicted size `p` never exceeds the size `n`, and equals it exactly if every cast among
    * `lengths` is harmless: below 4 GiB always. */
  ghost predicate Exact(p: nat, n: nat, lengths: seq<nat>) {
    p <= n && (p == n <==> AllHarmless(lengths)) && (n < TWO_32 ==> p == n)
  }

  lemma AllHarmlessConcat(a: seq<nat>, b: seq<nat>)
    ensures AllHarmless(a + b) <==> AllHarmless(a) && AllHarmless(b)
  {
    assert forall i | 0 <= i < |a| :: (a + b)[i] == a[i];
    assert forall i | 0 <= i < |b| :: (a + b)[|a| + i] == b[i];
  }

  lemma ExactSum(p: nat, n: nat, a: seq<nat>, q: nat, m: nat, b: seq<nat>)
    requires Exact(p, n, a) && Exact(q, m, b)
    ensures Exact(p + q, n + m, a + b)
  {
    hide AllHarmless;
    AllHarmlessConcat(a, b);
  }

  lemma ExactPrefixed(p: nat, n: nat, lengths: seq<nat>)
    requires Exact(p, n, lengths)
    ensures Exact(Prefixed(p), |VarintBytes(n)| + n, [n] + lengths)
  {
    hide VarintBytes;
    hide VariantSize32;
    AllHarmlessConcat([n], lengths);
    assert AllHarmless([n]) <==> Harmless([n][0]);
    CastShortens(p);
    VarintMonotone(p, n);
    if n < TWO_32 {
      SmallIsHarmless(n);
    }
  }

  lemma ExactConstant(n: nat)
    ensures Exact(n, n, [])
  {
  }

  /** Behind a tag. */
  lemma ExactTagged(tag: nat, p: nat, n: nat, lengths: seq<nat>)
    requires Exact(p, n, lengths)
    ensures Exact(tag + p, tag + n, lengths)
  {
  }

  lemma {:induction false} ElemExact(env: Env, e: Elem, v: Value)
    requires ElemOk(env, e, v)
    ensures Exact(PredictElem(env, e, v), |EncodeElem(env, e, v)|, ElemLengths(env, e, v))
    decreases v, 1
  {
    hide Exact;
    match e
    case Num(s) => ExactConstant(|EncodeScalar(s, v.n)|);
    case Str =>
      ExactConstant(|v.b|);
      ExactPrefixed(|v.b|, |v.b|, []);
      assert [|v.b|] + [] == [|v.b|];
    case Msg(id) =>
      assert MessageOk(env, env[id], v);
      MessageExact(env, env[id], v);
      ExactPrefixed(PredictMessage(env, env[id], v), |EncodeMessage(env, env[id], v)|,
                    MemberLengths(env, env[id], v.members));
  }

  /** Pass one predicts the size of a message exactly, if and only if no length in its encoding is
    * harmed by the cast. */
  lemma {:induction false} MessageExact(env: Env, fs: seq<Field>, v: Value)
    requires MessageOk(env, fs, v)
    ensures Exact(PredictMessage(env, fs, v), |EncodeMessage(env, fs, v)|, MemberLengths(env, fs, v.members))
    decreases v, 0
  {
    hide Exact;
    MembersExact(env, fs, v.members);
    ExactTagged(|v.unknown|, PredictMembers(env, fs, v.members), |EncodeMembers(env, fs, v.members)|,
                MemberLengths(env, fs, v.members));
  }

  lemma {:induction false} MembersExact(env: Env, fs: seq<Field>, ms: seq<Value>)
    requires |fs| == |ms| && forall i | 0 <= i < |fs| :: FieldOk(env, fs[i], ms[i])
    ensures Exact(PredictMembers(env, fs, ms), |EncodeMembers(env, fs, ms)|, MemberLengths(env, fs, ms))
    decreases ms, 0
  {
    hide Exact;
    if fs == [] {
      ExactConstant(0);
    } else {
      FieldExact(env, fs[0], ms[0]);
      MembersExact(env, fs[1..], ms[1..]);
      ExactSum(PredictField(env, fs[0], ms[0]), |EncodeField(env, fs[0], ms[0])|, FieldLengths(env, fs[0], ms[0]),
               PredictMembers(env, fs[1..], ms[1..]), |EncodeMembers(env, fs[1..], ms[1..])|,
               MemberLengths(env, fs[1..], ms[1..]));
    }
  }

  lemma {:induction false} OneExact(env: Env, no: nat, e: Elem, v: Value)
    requires ElemOk(env, e, v)
    ensures Exact(PredictOne(env, no, e, v), |Occurrence(env, no, e, v)|, ElemLengths(env, e, v))
    decreases v, 2
  {
    hide Exact;
    ElemExact(env, e, v);
    ExactTagged(|TagBytes(no, WireOf(e))|, PredictElem(env, e, v), |EncodeElem(env, e, v)|, ElemLengths(env, e, v));
  }

  lemma {:induction false} FieldExact(env: Env, f: Field, v: Value)
    requires FieldOk(env, f, v)
    ensures Exact(PredictField(env, f, v), |EncodeField(env, f, v)|, FieldLengths(env, f, v))
    decreases v, 3
  {
    hide Exact;
    ExactConstant(0);
    match f
    case Single(no, e) =>
      if !IsDefault(e, v) {
        OneExact(env, no, e, v);
      }
    case Optional(no, e, explicit) =>
      if v.Just? && (explicit || !IsDefault(e, v.v)) {
        OneExact(env, no, e, v.v);
      }
    case Repeated(no, e) =>
      if e.Num? {
        PackedExact(env, no, e, v.items);
      } else {
        ItemsExact(env, no, e, v.items);
      }
    case MapOf(no, k, e) => EntriesExact(env, no, k, e, v.kvs);
    case Oneof(cases, _) =>
      if v.Choice? {
        OneExact(env, cases[v.index].no, cases[v.index].elem, v.v);
      }
  }

  lemma PackedExact(env: Env, no: nat, e: Elem, items: seq<Value>)
    requires e.Num? && forall i | 0 <= i < |items| :: ElemOk(env, e, items[i])
    ensures var n, tag := |EncodePacked(env, e, items)|, |TagBytes(no, LengthDelimited)|;
      Exact(tag + Prefixed(n), tag + |LenDelim(EncodePacked(env, e, items))|, [n])
  {
    hide Exact;
    var n := |EncodePacked(env, e, items)|;
    ExactConstant(n);
    ExactPrefixed(n, n, []);
    assert [n] + [] == [n];
    ExactTagged(|TagBytes(no, LengthDelimited)|, Prefixed(n), |VarintBytes(n)| + n, [n]);
  }

  lemma {:induction false} ItemsExact(env: Env, no: nat, e: Elem, items: seq<Value>)
    requires forall i | 0 <= i < |items| :: ElemOk(env, e, items[i])
    ensures Exact(PredictItems(env, no, e, items), |EncodeItems(env, no, e, items)|, ItemLengths(env, e, items))
    decreases items, 0
  {
    hide Exact;
    if items == [] {
      ExactConstant(0);
    } else {
      OneExact(env, no, e, items[0]);
      ItemsExact(env, no, e, items[1..]);
      ExactSum(PredictOne(env, no, e, items[0]), |Occurrence(env, no, e, items[0])|, ElemLengths(env, e, items[0]),
               PredictItems(env, no, e, items[1..]), |EncodeItems(env, no, e, items[1..])|,
               ItemLengths(env, e, items[1..]));
    }
  }

  lemma {:induction false} EntryExact(env: Env, no: nat, k: Elem, e: Elem, kv: Entry)
    requires ElemOk(env, k, kv.key) && ElemOk(env, e, kv.value)
    ensures Exact(PredictEntry(env, no, k, e, kv), |EncodeEntry(env, no, k, e, kv)|, PairLengths(env, k, e, kv))
    decreases kv, 0
  {
    hide PredictElem;
    hide EncodeElem;
    hide ElemLengths;
    hide TagBytes;
    hide VarintBytes;
    hide Prefixed;
    hide PredictOne;
    hide Exact;
    OneExact(env, 1, k, kv.key);
    OneExact(env, 2, e, kv.value);
    var lengths := ElemLengths(env, k, kv.key) + ElemLengths(env, e, kv.value);
    ExactSum(PredictOne(env, 1, k, kv.key), |Occurrence(env, 1, k, kv.key)|, ElemLengths(env, k, kv.key),
             PredictOne(env, 2, e, kv.value), |Occurrence(env, 2, e, kv.value)|, ElemLengths(env, e, kv.value));
    var p, n, tag := PredictBody(env, k, e, kv), |EntryBody(env, k, e, kv)|, |TagBytes(no, LengthDelimited)|;
    ExactPrefixed(p, n, lengths);
    ExactTagged(tag, Prefixed(p), |VarintBytes(n)| + n, [n] + lengths);
  }

  lemma {:induction false} EntriesExact(env: Env, no: nat, k: Elem, e: Elem, kvs: seq<Entry>)
    requires forall i | 0 <= i < |kvs| :: ElemOk(env, k, kvs[i].key) && ElemOk(env, e, kvs[i].value)
    ensures Exact(PredictEntries(env, no, k, e, kvs), |EncodeEntries(env, no, k, e, kvs)|, EntryLengths(env, k, e, kvs))
    decreases kvs, 0
  {
    hide Exact;
    hide PredictEntry;
    hide PairLengths;
    hide EncodeEntry;
    if kvs == [] {
      ExactConstant(0);
    } else {
      EntryExact(env, no, k, e, kvs[0]);
      EntriesExact(env, no, k, e, kvs[1..]);
      ExactSum(PredictEntry(env, no, k, e, kvs[0]), |EncodeEntry(env, no, k, e, kvs[0])|,
               PairLengths(env, k, e, kvs[0]),
               PredictEntries(env, no, k, e, kvs[1..]), |EncodeEntries(env, no, k, e, kvs[1..])|,
               EntryLengths(env, k, e, kvs[1..]));
    }
  }
}
