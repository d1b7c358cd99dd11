/** `to_pb` as it runs: pass one pushes sizes into a vector while it adds them up, pass two
  * moves a pointer through that vector while it writes.
  */
module PbWriter {
  import opened Powers
  import opened Wire
  import opened Schema
  import opened Sizes
  import opened TwoPass
  import opened TwoPassProof

  type u32 = n: int | 0 <= n < TWO_32

  /** `std::vector<uint32_t> size_arr` */
  class SizeArray {
    var a: seq<u32>
    constructor ()
      ensures a == []
    {
      a := [];
    }
  }

  /** `uint32_t*& sz_ptr`: the records from the pointer on. */
  class SizePointer {
    var rest: seq<u32>
    constructor (rest: seq<u32>)
      ensures this.rest == rest
    {
      this.rest := rest;
    }
  }

  // ----- pass one -----------------------------------------------------------------------

  /** A negative 32-bit integer is sign-extended, so it takes ten bytes. */
  lemma NegativeTakesTen(n: int)
    requires -TWO_31 <= n < 0
    ensures |VarintBytes(n + TWO_64)| == 10
  {
    PowerValues();
    assert Power(64) == 2 * Power(63);
    Log2Lower(n + TWO_64, 63);
    Log2Bound(n + TWO_64, 64);
    VarintLength(n + TWO_64);
  }

  /** `variant_intergal_size` */
  method IntegralSize(s: Scalar, n: int) returns (size: nat)
    requires s.Width() == 0 && !s.Bool? && s.InRange(n)
    ensures size == |EncodeScalar(s, n)|
  {
    VariantSizeIsExact(s.ToWire(n));
    if s.Int32? && n < 0 {
      NegativeTakesTen(n);
      return 10;
    }
    return VariantSize(s.ToWire(n));
  }

  /** `str_numeric_size` of a string */
  method StringSize(keySize: nat, omit: bool, b: bytes) returns (size: nat)
    ensures size == if omit && b == [] then 0 else if keySize == 0 then |b| else keySize + Prefixed(|b|)
  {
    if omit && |b| == 0 {
      return 0;
    }
    if keySize == 0 {
      return |b|;
    }
    return keySize + VariantSize32(|b|) + |b|;
  }

  /** `str_numeric_size` of a number */
  method NumericSize(keySize: nat, omit: bool, s: Scalar, n: int) returns (size: nat)
    requires s.InRange(n)
    ensures size == if omit && s.IsZero(n) then 0 else keySize + |EncodeScalar(s, n)|
  {
    if omit && s.IsZero(n) {
      return 0;
    }
    if s.Bool? {
      return 1 + keySize;
    }
    if s.Width() > 0 {
      return keySize + s.Width();
    }
    size := IntegralSize(s, n);
    size := keySize + size;
  }

  /** `pb_key_value_size` of a scalar, a string or a message inside another message. */
  method ElemSize(env: Env, keySize: nat, omit: bool, e: Elem, v: Value, arr: SizeArray) returns (size: nat)
    requires keySize > 0 && ElemOk(env, e, v)
    modifies arr
    ensures arr.a == old(arr.a) + TableOf(ElemEvents(env, e, v, false))
    ensures size == if omit && IsDefault(e, v) then 0 else keySize + PredictElem(env, e, v)
    decreases v, 1
  {
    if !e.Msg? {
      if e.Num? {
        size := NumericSize(keySize, omit, e.s, v.n);
      } else {
        size := StringSize(keySize, omit, v.b);
      }
      assert arr.a == old(arr.a) + [];
      return;
    }
    size := MessageSize(env, keySize, e, v, arr);
  }

  method MessageSize(env: Env, keySize: nat, e: Elem, v: Value, arr: SizeArray) returns (size: nat)
    requires ElemOk(env, e, v) && e.Msg?
    modifies arr
    ensures arr.a == old(arr.a) + TableOf(ElemEvents(env, e, v, false))
    ensures size == keySize + PredictElem(env, e, v)
    ensures Exact(size, keySize + |EncodeElem(env, e, v)|, ElemLengths(env, e, v))
    decreases v, 0
  {
    hide Exact;
    ElemExact(env, e, v);
    ExactTagged(keySize, PredictElem(env, e, v), |EncodeElem(env, e, v)|, ElemLengths(env, e, v));
    assert MessageOk(env, env[e.id], v);
    var preIndex := |arr.a|;
    arr.a := arr.a + [0];
    var len := MembersSize(env, env[e.id], v.members, arr);
    len := len + |v.unknown|;
    arr.a := arr.a[preIndex := len % TWO_32];
    Recorded(old(arr.a), len, TableOf(MemberEvents(env, env[e.id], v.members)));
    MessageEvents(env, e, v);
    if len == 0 {
      SmallIsHarmless(0);
      return keySize + 1;
    }
    return keySize + VariantSize32(len) + len;
  }

  lemma MessageEvents(env: Env, e: Elem, v: Value)
    requires ElemOk(env, e, v) && e.Msg? && MessageOk(env, env[e.id], v)
    ensures TableOf(ElemEvents(env, e, v, false))
      == [PredictMessage(env, env[e.id], v) % TWO_32] + TableOf(MemberEvents(env, env[e.id], v.members))
  {
  }

  /** Filling in the placeholder. */
  lemma Recorded(before: seq<u32>, len: nat, inner: seq<nat>)
    ensures (before + [0] + inner)[|before| := len % TWO_32] == before + ([len % TWO_32] + inner)
  {
  }

  /** The loop over the members of a message. */
  method MembersSize(env: Env, fs: seq<Field>, ms: seq<Value>, arr: SizeArray) returns (len: nat)
    requires |fs| == |ms| && forall i | 0 <= i < |fs| :: FieldOk(env, fs[i], ms[i])
    modifies arr
    ensures arr.a == old(arr.a) + TableOf(MemberEvents(env, fs, ms))
    ensures len == PredictMembers(env, fs, ms)
    decreases ms, 0
  {
    len := 0;
    for i := 0 to |fs|
      invariant arr.a + TableOf(MemberEvents(env, fs[i..], ms[i..])) == old(arr.a) + TableOf(MemberEvents(env, fs, ms))
      invariant len + PredictMembers(env, fs[i..], ms[i..]) == PredictMembers(env, fs, ms)
    {
      ghost var before := arr.a;
      assert fs[i..][1..] == fs[i + 1..] && ms[i..][1..] == ms[i + 1..];
      TableOfConcat(FieldEvents(env, fs[i], ms[i]), MemberEvents(env, fs[i + 1..], ms[i + 1..]));
      var size := FieldSize(env, fs[i], ms[i], arr);
      Assoc(before, TableOf(FieldEvents(env, fs[i], ms[i])), TableOf(MemberEvents(env, fs[i + 1..], ms[i + 1..])));
      len := len + size;
    }
  }

  function CodeOf(no: nat, w: WireType): nat { no * 8 + w.Code() }

  method FieldSize(env: Env, f: Field, v: Value, arr: SizeArray) returns (size: nat)
    requires FieldOk(env, f, v)
    modifies arr
    ensures arr.a == old(arr.a) + TableOf(FieldEvents(env, f, v))
    ensures size == PredictField(env, f, v)
    ensures Exact(size, |EncodeField(env, f, v)|, FieldLengths(env, f, v))
    decreases v, 3
  {
    hide ElemOk;
    hide MessageOk;
    hide LenDelim;
    hide Exact;
    FieldExact(env, f, v);
    assert arr.a == old(arr.a) + [];
    match f
    case Single(no, e) =>
      var keySize := ConstexprSize(CodeOf(no, WireOf(e)));
      size := ElemSize(env, keySize, true, e, v, arr);
    case Optional(no, e, explicit) =>
      if v.Nothing? {
        return 0;
      }
      var keySize := ConstexprSize(CodeOf(no, WireOf(e)));
      size := ElemSize(env, keySize, !explicit, e, v.v, arr);
    case Repeated(no, e) =>
      if e.Num? {
        var keySize := ConstexprSize(CodeOf(no, LengthDelimited));
        size := PackedSize(env, keySize, e, v.items);
        NumbersHaveNoEvents(env, e, v.items);
      } else {
        size := ItemsSize(env, no, e, v.items, arr);
      }
    case MapOf(no, k, e) =>
      size := EntriesSize(env, no, k, e, v.kvs, arr);
    case Oneof(cases, _) =>
      if v.Nothing? {
        return 0;
      }
      var c := cases[v.index];
      var keySize := ConstexprSize(CodeOf(c.no, WireOf(c.elem)));
      size := ElemSize(env, keySize, false, c.elem, v.v, arr);
  }

  method PackedPayloadSize(env: Env, e: Elem, items: seq<Value>) returns (len: nat)
    requires e.Num? && forall i | 0 <= i < |items| :: ElemOk(env, e, items[i])
    ensures len == |EncodePacked(env, e, items)|
  {
    len := 0;
    for i := 0 to |items|
      invariant len + |EncodePacked(env, e, items[i..])| == |EncodePacked(env, e, items)|
    {
      assert items[i..][1..] == items[i + 1..];
      var size := NumericSize(0, false, e.s, items[i].n);
      len := len + size;
    }
  }

  method PackedSize(env: Env, keySize: nat, e: Elem, items: seq<Value>) returns (size: nat)
    requires e.Num? && forall i | 0 <= i < |items| :: ElemOk(env, e, items[i])
    ensures size == if items == [] then 0 else keySize + Prefixed(|EncodePacked(env, e, items)|)
  {
    var len := PackedPayloadSize(env, e, items);
    if items != [] {
      assert |EncodeElem(env, e, items[0])| > 0;
    }
    if len == 0 {
      return 0;
    }
    return keySize + VariantSize32(len) + len;
  }

  method ItemsSize(env: Env, no: nat, e: Elem, items: seq<Value>, arr: SizeArray) returns (len: nat)
    requires forall i | 0 <= i < |items| :: ElemOk(env, e, items[i])
    modifies arr
    ensures arr.a == old(arr.a) + TableOf(ItemEvents(env, e, items))
    ensures len == PredictItems(env, no, e, items)
    decreases items, 0
  {
    len := 0;
    var keySize := ConstexprSize(CodeOf(no, WireOf(e)));
    for i := 0 to |items|
      invariant arr.a + TableOf(ItemEvents(env, e, items[i..])) == old(arr.a) + TableOf(ItemEvents(env, e, items))
      invariant len + PredictItems(env, no, e, items[i..]) == PredictItems(env, no, e, items)
    {
      ghost var before := arr.a;
      assert items[i..][1..] == items[i + 1..];
      ghost var first, others := ElemEvents(env, e, items[i], false), ItemEvents(env, e, items[i + 1..]);
      TableOfConcat(first, others);
      var size := ElemSize(env, keySize, false, e, items[i], arr);
      Assoc(before, TableOf(first), TableOf(others));
      len := len + size;
    }
  }

  lemma SameRecord(env: Env, e: Elem, v: Value)
    requires ElemOk(env, e, v)
    ensures TableOf(ElemEvents(env, e, v, true)) == TableOf(ElemEvents(env, e, v, false))
  {
    if e.Msg? {
      assert MessageOk(env, env[e.id], v);
      MessageRecord(env, env[e.id], v);
    }
  }

  method EntriesSize(env: Env, no: nat, k: Elem, e: Elem, kvs: seq<Entry>, arr: SizeArray) returns (len: nat)
    requires !k.Msg? && forall i | 0 <= i < |kvs| :: ElemOk(env, k, kvs[i].key) && ElemOk(env, e, kvs[i].value)
    modifies arr
    ensures arr.a == old(arr.a) + TableOf(EntryEvents(env, e, kvs))
    ensures len == PredictEntries(env, no, k, e, kvs)
    ensures Exact(len, |EncodeEntries(env, no, k, e, kvs)|, EntryLengths(env, k, e, kvs))
    decreases kvs, 0
  {
    hide ElemOk;
    hide EncodeEntries;
    hide EntryLengths;
    hide TableOf;
    hide PredictBody;
    hide ElemEvents;
    hide ValueEvents;
    hide EncodeElem;
    hide EntryBody;
    hide VariantSize32;
    hide Exact;
    EntriesExact(env, no, k, e, kvs);
    len := 0;
    var keySize := ConstexprSize(CodeOf(no, LengthDelimited));
    for i := 0 to |kvs|
      invariant arr.a + TableOf(EntryEvents(env, e, kvs[i..])) == old(arr.a) + TableOf(EntryEvents(env, e, kvs))
      invariant len + PredictEntries(env, no, k, e, kvs[i..]) == PredictEntries(env, no, k, e, kvs)
    {
      ghost var before := arr.a;
      assert kvs[i..][1..] == kvs[i + 1..] && kvs[i..][0] == kvs[i];
      ghost var first, others := ValueEvents(env, e, kvs[i]), EntryEvents(env, e, kvs[i + 1..]);
      TableOfConcat(first, others);
      var kvLen := EntrySize(env, k, e, kvs[i], arr);
      Assoc(before, TableOf(first), TableOf(others));
      len := len + (keySize + VariantSize32(kvLen) + kvLen);
    }
  }

  method EntrySize(env: Env, k: Elem, e: Elem, kv: Entry, arr: SizeArray) returns (size: nat)
    requires !k.Msg? && ElemOk(env, k, kv.key) && ElemOk(env, e, kv.value)
    modifies arr
    ensures arr.a == old(arr.a) + TableOf(ValueEvents(env, e, kv))
    ensures size == PredictBody(env, k, e, kv)
    decreases kv, 0
  {
    var kLen := ElemSize(env, 1, false, k, kv.key, arr);
    assert arr.a == old(arr.a);
    var vLen := ElemSize(env, 1, false, e, kv.value, arr);
    SameRecord(env, e, kv.value);
    size := kLen + vLen;
  }

  // ----- pass two -----------------------------------------------------------------------------

  /** `encode_numeric_field`; tag code 0 writes no tag. */
  method EncodeNumericField(code: nat, omit: bool, s: Scalar, n: int, w: Writer)
    requires s.InRange(n)
    modifies w
    ensures w.out == old(w.out) +
      if omit && s.IsZero(n) then [] else (if code == 0 then [] else VarintBytes(code)) + EncodeScalar(s, n)
  {
    hide VarintBytes;
    hide FixedBytes;
    if omit && s.IsZero(n) {
      return;
    }
    if code != 0 {
      SerializeVarintU32(code, w);
    }
    if s.Width() == 0 {
      SerializeVarint(s.ToWire(n), w);
    } else {
      w.Write(FixedBytes(s.ToWire(n), s.Width()));
    }
  }

  /** `to_pb_impl` of a scalar, a string or a message inside another message. */
  method WriteElem(env: Env, no: nat, omit: bool, e: Elem, v: Value, sz: SizePointer, w: Writer)
    requires ValidEnv(env) && ElemOk(env, e, v) && |ElemEvents(env, e, v, false)| <= |sz.rest|
    requires no > 0 && ((omit && IsDefault(e, v)) || |EncodeElem(env, e, v)| < TWO_63)
    modifies sz, w
    ensures var r := if omit && IsDefault(e, v) then ([], old(sz.rest)) else EmitElem(env, no, e, v, old(sz.rest));
      w.out == old(w.out) + r.0 && sz.rest == r.1
    decreases v, 1
  {
    match e
    case Num(s) =>
      EncodeNumericField(CodeOf(no, WireOf(e)), omit, s, v.n, w);
    case Str =>
      assert w.out == old(w.out) + [];
      if omit && |v.b| == 0 {
        return;
      }
      SerializeVarintU32(CodeOf(no, LengthDelimited), w);
      SerializeVarint(|v.b|, w);
      w.Write(v.b);
      assert w.out == old(w.out) + (TagBytes(no, LengthDelimited) + LenDelim(v.b));
    case Msg(id) =>
      WriteMessage(env, no, e, v, sz, w);
  }

  method WriteMessage(env: Env, no: nat, e: Elem, v: Value, sz: SizePointer, w: Writer)
    requires ValidEnv(env) && ElemOk(env, e, v) && e.Msg? && |ElemEvents(env, e, v, false)| <= |sz.rest|
    requires |EncodeElem(env, e, v)| < TWO_63
    modifies sz, w
    ensures var r := EmitElem(env, no, e, v, old(sz.rest));
      w.out == old(w.out) + r.0 && sz.rest == r.1
    decreases v, 0
  {
    assert MessageOk(env, env[e.id], v);
    var len := sz.rest[0];
    sz.rest := sz.rest[1..];
    SerializeVarintU32(CodeOf(no, LengthDelimited), w);
    SerializeVarint(len, w);
    assert w.out == old(w.out) + (TagBytes(no, LengthDelimited) + VarintBytes(len));
    if len == 0 {
      return;
    }
    ghost var head := TagBytes(no, LengthDelimited) + VarintBytes(len);
    ghost var r := EmitMembers(env, env[e.id], v.members, sz.rest);
    assert ValidFields(env, env[e.id]);
    WriteMembers(env, env[e.id], v.members, sz, w);
    Assoc(old(w.out), head, r.0);
    w.Write(v.unknown);
    Assoc(old(w.out), head + r.0, v.unknown);
  }

  /** The loop over the members of a message. */
  method WriteMembers(env: Env, fs: seq<Field>, ms: seq<Value>, sz: SizePointer, w: Writer)
    requires ValidEnv(env) && |fs| == |ms|
    requires forall i | 0 <= i < |fs| :: ValidField(env, fs[i]) && FieldOk(env, fs[i], ms[i])
    requires |MemberEvents(env, fs, ms)| <= |sz.rest| && |EncodeMembers(env, fs, ms)| < TWO_63
    modifies sz, w
    ensures var r := EmitMembers(env, fs, ms, old(sz.rest));
      w.out == old(w.out) + r.0 && sz.rest == r.1
    decreases ms, 0
  {
    hide ValidEnv;
    hide FieldOk;
    hide CodeOf;
    hide VarintBytes;
    hide ReadVarint;
    hide Room;
    hide Shifted;
    for i := 0 to |fs|
      invariant |MemberEvents(env, fs[i..], ms[i..])| <= |sz.rest|
      invariant |EncodeMembers(env, fs[i..], ms[i..])| < TWO_63
      invariant var r, q := EmitMembers(env, fs, ms, old(sz.rest)), EmitMembers(env, fs[i..], ms[i..], sz.rest);
        w.out + q.0 == old(w.out) + r.0 && q.1 == r.1
    {
      assert fs[i..][1..] == fs[i + 1..] && ms[i..][1..] == ms[i + 1..];
      ghost var before, r := w.out, EmitField(env, fs[i], ms[i], sz.rest);
      WriteField(env, fs[i], ms[i], sz, w);
      Assoc(before, r.0, EmitMembers(env, fs[i + 1..], ms[i + 1..], sz.rest).0);
    }
  }

  method WriteField(env: Env, f: Field, v: Value, sz: SizePointer, w: Writer)
    requires ValidEnv(env) && ValidField(env, f) && FieldOk(env, f, v)
    requires |FieldEvents(env, f, v)| <= |sz.rest| && |EncodeField(env, f, v)| < TWO_63
    modifies sz, w
    ensures var r := EmitField(env, f, v, old(sz.rest));
      w.out == old(w.out) + r.0 && sz.rest == r.1
    decreases v, 3
  {
    assert w.out == old(w.out) + [];
    match f
    case Single(no, e) =>
      WriteElem(env, no, true, e, v, sz, w);
    case Optional(no, e, explicit) =>
      if v.Nothing? {
        return;
      }
      WriteElem(env, no, !explicit, e, v.v, sz, w);
    case Repeated(no, e) =>
      if !e.Num? {
        WriteItems(env, no, e, v.items, sz, w);
        return;
      }
      WriteRun(env, no, e, v.items, w);
    case MapOf(no, k, e) =>
      WriteEntries(env, no, k, e, v.kvs, sz, w);
    case Oneof(cases, _) =>
      if v.Nothing? {
        return;
      }
      WriteElem(env, cases[v.index].no, false, cases[v.index].elem, v.v, sz, w);
  }

  /** A packed run with its tag and length. */
  method WriteRun(env: Env, no: nat, e: Elem, items: seq<Value>, w: Writer)
    requires e.Num? && 0 < no <= MAX_FIELD_NUMBER && forall i | 0 <= i < |items| :: ElemOk(env, e, items[i])
    requires |EncodePacked(env, e, items)| < TWO_63
    modifies w
    ensures w.out == old(w.out) +
      if items == [] then [] else TagBytes(no, LengthDelimited) + LenDelim(EncodePacked(env, e, items))
  {
    assert w.out == old(w.out) + [];
    if |items| == 0 {
      return;
    }
    SerializeVarintU32(CodeOf(no, LengthDelimited), w);
    var len := PackedPayloadSize(env, e, items);
    SerializeVarint(len, w);
    WritePacked(env, e, items, w);
    var tag, body := TagBytes(no, LengthDelimited), EncodePacked(env, e, items);
    Assoc(old(w.out), tag, VarintBytes(len));
    Assoc(old(w.out), tag + VarintBytes(len), body);
    Assoc(tag, VarintBytes(len), body);
  }

  method WritePacked(env: Env, e: Elem, items: seq<Value>, w: Writer)
    requires e.Num? && forall i | 0 <= i < |items| :: ElemOk(env, e, items[i])
    modifies w
    ensures w.out == old(w.out) + EncodePacked(env, e, items)
  {
    hide VarintBytes;
    for i := 0 to |items|
      invariant w.out + EncodePacked(env, e, items[i..]) == old(w.out) + EncodePacked(env, e, items)
    {
      assert items[i..][1..] == items[i + 1..];
      ghost var x, others := EncodeElem(env, e, items[i]), EncodePacked(env, e, items[i + 1..]);
      assert EncodePacked(env, e, items[i..]) == x + others;
      Assoc(w.out, x, others);
      EncodeNumericField(0, false, e.s, items[i].n, w);
    }
  }

  method WriteItems(env: Env, no: nat, e: Elem, items: seq<Value>, sz: SizePointer, w: Writer)
    requires ValidEnv(env) && no > 0 && forall i | 0 <= i < |items| :: ElemOk(env, e, items[i])
    requires |ItemEvents(env, e, items)| <= |sz.rest| && |EncodeItems(env, no, e, items)| < TWO_63
    modifies sz, w
    ensures var r := EmitItems(env, no, e, items, old(sz.rest));
      w.out == old(w.out) + r.0 && sz.rest == r.1
    decreases items, 0
  {
    for i := 0 to |items|
      invariant |ItemEvents(env, e, items[i..])| <= |sz.rest|
      invariant |EncodeItems(env, no, e, items[i..])| < TWO_63
      invariant var r, q := EmitItems(env, no, e, items, old(sz.rest)), EmitItems(env, no, e, items[i..], sz.rest);
        w.out + q.0 == old(w.out) + r.0 && q.1 == r.1
    {
      assert items[i..][1..] == items[i + 1..];
      assert |EncodeItems(env, no, e, items[i..])| >= |Occurrence(env, no, e, items[i])|;
      ghost var before, r := w.out, EmitElem(env, no, e, items[i], sz.rest);
      WriteElem(env, no, false, e, items[i], sz, w);
      Assoc(before, r.0, EmitItems(env, no, e, items[i + 1..], sz.rest).0);
    }
  }

  /** `encode_pair_value` */
  method WritePart(env: Env, no: nat, e: Elem, v: Value, size: nat, sz: SizePointer, w: Writer)
    requires ValidEnv(env) && ElemOk(env, e, v) && |ElemEvents(env, e, v, true)| <= |sz.rest|
    requires no > 0 && |EncodeElem(env, e, v)| < TWO_63
    modifies sz, w
    ensures var r := EmitPart(env, no, e, v, size, old(sz.rest));
      w.out == old(w.out) + r.0 && sz.rest == r.1
    decreases v, 2
  {
    if size == 0 {
      SerializeVarintU32(CodeOf(no, WireOf(e)), w);
      SerializeVarint(0, w);
    } else {
      WriteElem(env, no, false, e, v, sz, w);
    }
  }

  /** `str_numeric_size<0, false>` */
  method PlainSize(env: Env, e: Elem, v: Value) returns (size: nat)
    requires ElemOk(env, e, v) && !e.Msg? && |EncodeElem(env, e, v)| < TWO_63
    ensures size == PayloadSize(env, e, v)
  {
    if e.Num? {
      size := NumericSize(0, false, e.s, v.n);
    } else {
      size := StringSize(0, false, v.b);
    }
  }

  lemma VariantSize32Bound(n: nat)
    ensures VariantSize32(n) <= 10
  {
    var m := n % TWO_32;
    PowerValues();
    Log2Halves(m);
    Log2Bound(m, 32);
  }

  lemma EntryParts(env: Env, k: Elem, e: Elem, kv: Entry)
    requires ElemOk(env, k, kv.key) && ElemOk(env, e, kv.value)
    ensures |TagBytes(1, WireOf(k))| == 1 && |TagBytes(2, WireOf(e))| == 1
    ensures |EntryBody(env, k, e, kv)| == 2 + |EncodeElem(env, k, kv.key)| + |EncodeElem(env, e, kv.value)|
    ensures !k.Msg? ==> PayloadSize(env, k, kv.key) <= |EncodeElem(env, k, kv.key)|
    ensures !e.Msg? ==> PayloadSize(env, e, kv.value) <= |EncodeElem(env, e, kv.value)|
  {
  }

  method PairLength(k: Elem, e: Elem, kSize: nat, vSize: nat) returns (pair: nat)
    requires kSize + vSize < TWO_63 + TWO_32
    ensures pair == PartLength(1, k, kSize) + PartLength(2, e, vSize) < TWO_64
  {
    assert |TagBytes(1, WireOf(k))| == 1 && |TagBytes(2, WireOf(e))| == 1;
    pair := 1 + 1 + kSize + vSize;
    if !k.Num? {
      pair := pair + VariantSize32(kSize);
    }
    if !e.Num? {
      pair := pair + VariantSize32(vSize);
    }
    VariantSize32Bound(kSize);
    VariantSize32Bound(vSize);
  }

  /** `pb_value_size<false>`: looks at the next record without moving past it. */
  method ValueSize(env: Env, e: Elem, kv: Entry, sz: SizePointer) returns (size: nat)
    requires ElemOk(env, e, kv.value) && |EncodeElem(env, e, kv.value)| < TWO_63
    requires |ValueEvents(env, e, kv)| <= |sz.rest|
    ensures e.Msg? ==> sz.rest != [] && size == sz.rest[0]
    ensures !e.Msg? ==> size == PayloadSize(env, e, kv.value)
  {
    assert ValueEvents(env, e, kv) == ElemEvents(env, e, kv.value, true);
    if e.Msg? {
      size := sz.rest[0];
    } else {
      size := PlainSize(env, e, kv.value);
    }
  }

  /** Key and value of an entry. */
  method WriteParts(env: Env, k: Elem, e: Elem, kv: Entry, kSize: nat, vSize: nat, sz: SizePointer, w: Writer)
    requires ValidEnv(env) && ElemOk(env, k, kv.key) && !k.Msg? && ElemOk(env, e, kv.value)
    requires |ValueEvents(env, e, kv)| <= |sz.rest|
    requires |EncodeElem(env, k, kv.key)| < TWO_63 && |EncodeElem(env, e, kv.value)| < TWO_63
    modifies sz, w
    ensures
      var key := EmitPart(env, 1, k, kv.key, kSize, old(sz.rest));
      var value := EmitPart(env, 2, e, kv.value, vSize, old(sz.rest));
      w.out == old(w.out) + key.0 + value.0 && sz.rest == value.1
    decreases kv, 0
  {
    WritePart(env, 1, k, kv.key, kSize, sz, w);
    WritePart(env, 2, e, kv.value, vSize, sz, w);
  }

  method WriteEntry(env: Env, no: nat, k: Elem, e: Elem, kv: Entry, sz: SizePointer, w: Writer)
    requires ValidEnv(env) && ElemOk(env, k, kv.key) && !k.Msg? && ElemOk(env, e, kv.value)
    requires |ValueEvents(env, e, kv)| <= |sz.rest| && |EntryBody(env, k, e, kv)| < TWO_63
    modifies sz, w
    ensures var r := EmitEntry(env, no, k, e, kv, old(sz.rest));
      w.out == old(w.out) + r.0 && sz.rest == r.1
    decreases kv, 1
  {
    hide ElemOk;
    hide PartLength;
    hide EmitPart;
    hide PayloadSize;
    hide EncodeElem;
    EntryParts(env, k, e, kv);
    SerializeVarintU32(CodeOf(no, LengthDelimited), w);
    var kSize := PlainSize(env, k, kv.key);
    var vSize := ValueSize(env, e, kv, sz);
    var pair := PairLength(k, e, kSize, vSize);
    SerializeVarint(pair, w);
    ghost var key := EmitPart(env, 1, k, kv.key, kSize, sz.rest);
    ghost var value := EmitPart(env, 2, e, kv.value, vSize, sz.rest);
    WriteParts(env, k, e, kv, kSize, vSize, sz, w);
    Flatten(old(w.out), TagBytes(no, LengthDelimited), VarintBytes(pair), key.0, value.0);
  }

  lemma Flatten<T>(a: seq<T>, b: seq<T>, c: seq<T>, d: seq<T>, e: seq<T>)
    ensures a + b + c + d + e == a + (b + c + d + e)
  {
  }

  lemma FirstEntry(env: Env, no: nat, k: Elem, e: Elem, kvs: seq<Entry>)
    requires kvs != [] && forall i | 0 <= i < |kvs| :: ElemOk(env, k, kvs[i].key) && ElemOk(env, e, kvs[i].value)
    ensures |EncodeEntries(env, no, k, e, kvs)|
      >= |EntryBody(env, k, e, kvs[0])| + |EncodeEntries(env, no, k, e, kvs[1..])|
  {
  }

  method WriteEntries(env: Env, no: nat, k: Elem, e: Elem, kvs: seq<Entry>, sz: SizePointer, w: Writer)
    requires ValidEnv(env) && !k.Msg?
    requires forall i | 0 <= i < |kvs| :: ElemOk(env, k, kvs[i].key) && ElemOk(env, e, kvs[i].value)
    requires |EntryEvents(env, e, kvs)| <= |sz.rest| && |EncodeEntries(env, no, k, e, kvs)| < TWO_63
    modifies sz, w
    ensures var r := EmitEntries(env, no, k, e, kvs, old(sz.rest));
      w.out == old(w.out) + r.0 && sz.rest == r.1
    decreases kvs, 0
  {
    hide EmitEntry;
    hide EncodeElem;
    hide ValueEvents;
    hide EntryBody;
    for i := 0 to |kvs|
      invariant |EntryEvents(env, e, kvs[i..])| <= |sz.rest|
      invariant |EncodeEntries(env, no, k, e, kvs[i..])| < TWO_63
      invariant var r := EmitEntries(env, no, k, e, kvs, old(sz.rest));
        var q := EmitEntries(env, no, k, e, kvs[i..], sz.rest);
        w.out + q.0 == old(w.out) + r.0 && q.1 == r.1
    {
      assert kvs[i..][1..] == kvs[i + 1..] && kvs[i..][0] == kvs[i];
      ghost var before, r := w.out, EmitEntry(env, no, k, e, kvs[i], sz.rest);
      FirstEntry(env, no, k, e, kvs[i..]);
      WriteEntry(env, no, k, e, kvs[i], sz, w);
      Assoc(before, r.0, EmitEntries(env, no, k, e, kvs[i + 1..], sz.rest).0);
    }
  }

  // ----- both passes -----------------------------------------------------------------------------

  /** `to_pb`: the output is sized by pass one and filled by pass two.  The bytes are the encoding
    * if and only if no non-empty message follows an empty one that is a map value, every nested
    * message is smaller than 4 GiB, and the casts of the lengths of strings in maps are harmless;
    * the predicted length is that of the encoding if and only if all casts are.  No string holds
    * 2^63 bytes. */
  method ToPb(env: Env, id: nat, v: Value) returns (out: bytes, byteLen: nat)
    requires ValidEnv(env) && id < |env| && MessageOk(env, env[id], v)
    requires |EncodeMessage(env, env[id], v)| < TWO_63
    ensures Exact(byteLen, |EncodeMessage(env, env[id], v)|, MemberLengths(env, env[id], v.members))
    ensures out == EmitTop(env, env[id], v)
    ensures out == EncodeMessage(env, env[id], v) <==>
      var evs := MemberEvents(env, env[id], v.members);
      !Overtaken(evs) && !Oversized(evs) && MapsOk(env[id], v.members)
  {
    hide Exact;
    MessageExact(env, env[id], v);
    var arr := new SizeArray();
    byteLen := MembersSize(env, env[id], v.members, arr);
    byteLen := byteLen + |v.unknown|;
    var w := new Writer();
    assert [] + TableOf(MemberEvents(env, env[id], v.members)) == TableOf(MemberEvents(env, env[id], v.members));
    var sz := new SizePointer(arr.a);
    assert ValidFields(env, env[id]);
    WriteMembers(env, env[id], v.members, sz, w);
    w.Write(v.unknown);
    out := w.out;
    TwoPassesAgree(env, env[id], v);
    assert [] + EmitMembers(env, env[id], v.members, arr.a).0 == EmitMembers(env, env[id], v.members, arr.a).0;
  }
}
