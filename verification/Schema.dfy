/** Message schemas (what compile-time reflection supplies), message values, and the
  * encoding of a value as one pass over it: the reference the two-pass writer and the
  * reader are compared with.
  */
module Schema {
  import opened Wire

  /** A floating-point number is its bit pattern. */
  datatype Scalar =
    | Bool | Int32 | UInt32 | Int64 | UInt64
    | SInt32 | SInt64 | Fixed32 | Fixed64 | SFixed32 | SFixed64 | Float | Double
  {
    /** Bytes of a fixed-width scalar, 0 for a varint. */
    function Width(): nat {
      match this
      case Fixed32 | SFixed32 | Float => 4
      case Fixed64 | SFixed64 | Double => 8
      case _ => 0
    }

    /** `is_fixed_v` */
    predicate IsFixed() {
      Fixed32? || Fixed64? || SFixed32? || SFixed64?
    }

    predicate InRange(n: int) {
      match this
      case Bool => 0 <= n <= 1
      case Int32 | SInt32 | SFixed32 => -TWO_31 <= n < TWO_31
      case UInt32 | Fixed32 | Float => 0 <= n < TWO_32
      case Int64 | SInt64 | SFixed64 => -TWO_63 <= n < TWO_63
      case UInt64 | Fixed64 | Double => 0 <= n < TWO_64
    }

    /** Equal to zero; so is the negative zero of the floating-point types. */
    predicate IsZero(n: int) {
      n == 0 || (Float? && n == TWO_31) || (Double? && n == TWO_63)
    }

    /** The unsigned number that is put on the wire. */
    function ToWire(n: int): (u: nat)
      requires InRange(n)
      ensures u < TWO_64 && (Width() == 4 ==> u < TWO_32)
    {
      match this
      case SInt32 => ZigzagRoundTrip(n, TWO_31); EncodeZigzag(n, TWO_31)
      case SInt64 => ZigzagRoundTrip(n, TWO_63); EncodeZigzag(n, TWO_63)
      case SFixed32 => if n < 0 then n + TWO_32 else n
      case Int32 | Int64 | SFixed64 => if n < 0 then n + TWO_64 else n
      case _ => n
    }

    /** The `static_cast` (or zigzag decoding) of what was read. */
    function FromWire(u: nat): int {
      match this
      case Bool => if u == 0 then 0 else 1
      case Int32 | SFixed32 => var x := u % TWO_32; if x < TWO_31 then x else x - TWO_32
      case UInt32 | Fixed32 | Float => u % TWO_32
      case Int64 | SFixed64 => var x := u % TWO_64; if x < TWO_63 then x else x - TWO_64
      case UInt64 | Fixed64 | Double => u % TWO_64
      case SInt32 => DecodeZigzag(u % TWO_32)
      case SInt64 => DecodeZigzag(u % TWO_64)
    }
  }

  lemma ScalarRoundTrip(s: Scalar, n: int)
    requires s.InRange(n)
    ensures s.FromWire(s.ToWire(n)) == n
  {
    match s
    case SInt32 => ZigzagRoundTrip(n, TWO_31);
    case SInt64 => ZigzagRoundTrip(n, TWO_63);
    case _ =>
  }

  /** A message type is named by its index in the environment, so types may be recursive. */
  datatype Elem = Num(s: Scalar) | Str | Msg(id: nat)

  datatype Case = Case(no: nat, elem: Elem)

  datatype Field =
    | Single(no: nat, elem: Elem)
    | Optional(no: nat, elem: Elem, explicit: bool)  // explicit: declared pb_optional
    | Repeated(no: nat, elem: Elem)
    | MapOf(no: nat, key: Elem, value: Elem)
    | Oneof(cases: seq<Case>, monostate: bool)

  type Env = seq<seq<Field>>

  datatype Value =
    | Number(n: int)
    | Bytes(b: bytes)
    | Message(members: seq<Value>, unknown: bytes)
    | Nothing
    | Just(v: Value)
    | List(items: seq<Value>)
    | Entries(kvs: seq<Entry>)
    | Choice(index: nat, v: Value)
  datatype Entry = Entry(key: Value, value: Value)

  function WireOf(e: Elem): WireType {
    match e
    case Num(s) => if s.Width() == 4 then Fixed32Type else if s.Width() == 8 then Fixed64Type else VarintType
    case _ => LengthDelimited
  }

  // ----- which schemas and values there are -------------------------------------------------

  predicate ValidElem(env: Env, e: Elem) {
    e.Msg? ==> e.id < |env|
  }

  predicate ValidNumber(no: nat) {
    1 <= no <= MAX_FIELD_NUMBER && !(19000 <= no <= 19999)
  }

  predicate ValidField(env: Env, f: Field) {
    match f
    case Single(no, e) => ValidNumber(no) && ValidElem(env, e)
    case Optional(no, e, _) => ValidNumber(no) && ValidElem(env, e)
    case Repeated(no, e) => ValidNumber(no) && ValidElem(env, e)
    case MapOf(no, k, e) => ValidNumber(no) && !k.Msg? && k != Num(Float) && k != Num(Double) && ValidElem(env, e)
    case Oneof(cases, monostate) =>
      && (monostate || cases != [])
      && forall c <- cases :: ValidNumber(c.no) && ValidElem(env, c.elem)
  }

  /** Which field, and which case of it, has number `no`. */
  predicate Owns(f: Field, no: nat) {
    match f
    case Oneof(cases, _) => exists i | 0 <= i < |cases| :: cases[i].no == no
    case _ => f.no == no
  }

  ghost predicate ValidFields(env: Env, fs: seq<Field>) {
    && (forall f <- fs :: ValidField(env, f))
    && (forall i, j, no {:trigger Owns(fs[i], no), Owns(fs[j], no)} | 0 <= i < j < |fs| && Owns(fs[i], no) ::
          !Owns(fs[j], no))
    && (forall f <- fs | f.Oneof? ::
          forall i, j | 0 <= i < j < |f.cases| :: f.cases[i].no != f.cases[j].no)
  }

  /** The message type whose default value is part of the default value of `f`. */
  predicate Embeds(f: Field, id: nat) {
    match f
    case Single(_, e) => e == Msg(id)
    case Oneof(cases, monostate) => !monostate && cases != [] && cases[0].elem == Msg(id)
    case _ => false
  }

  /** Numbers are unique in each message, and a message embedded by value is declared first. */
  ghost predicate ValidEnv(env: Env) {
    && (forall id {:trigger ValidFields(env, env[id])} | 0 <= id < |env| :: ValidFields(env, env[id]))
    && (forall id, f, j: nat {:trigger f in env[id], Embeds(f, j)}
      | 0 <= id < |env| && f in env[id] && Embeds(f, j) :: j < id)
  }

  predicate ElemOk(env: Env, e: Elem, v: Value)
    decreases v, 1
  {
    match e
    case Num(s) => v.Number? && s.InRange(v.n)
    case Str => v.Bytes?
    case Msg(id) => id < |env| && MessageOk(env, env[id], v)
  }

  predicate MessageOk(env: Env, fs: seq<Field>, v: Value)
    decreases v, 0
  {
    && v.Message?
    && |v.members| == |fs|
    && forall i | 0 <= i < |fs| :: FieldOk(env, fs[i], v.members[i])
  }

  predicate FieldOk(env: Env, f: Field, v: Value)
    decreases v, 2
  {
    match f
    case Single(_, e) => ElemOk(env, e, v)
    case Optional(_, e, _) => v.Nothing? || (v.Just? && ElemOk(env, e, v.v))
    case Repeated(_, e) => v.List? && forall i | 0 <= i < |v.items| :: ElemOk(env, e, v.items[i])
    case MapOf(_, k, e) =>
      && v.Entries? && !k.Msg?
      && (forall i | 0 <= i < |v.kvs| :: ElemOk(env, k, v.kvs[i].key) && ElemOk(env, e, v.kvs[i].value))
      && (forall i, j | 0 <= i < j < |v.kvs| :: v.kvs[i].key != v.kvs[j].key)
    case Oneof(cases, monostate) =>
      || (v.Nothing? && monostate)
      || (v.Choice? && v.index < |cases| && ElemOk(env, cases[v.index].elem, v.v))
  }

  /** What `omit_default_val` leaves out. */
  predicate IsDefault(e: Elem, v: Value) {
    match e
    case Num(s) => v.Number? && s.IsZero(v.n)
    case Str => v == Bytes([])
    case Msg(_) => false
  }

  // ----- the encoding --------------------------------------------------------------------------

  function EncodeScalar(s: Scalar, n: int): bytes
    requires s.InRange(n)
  {
    if s.Width() == 0 then VarintBytes(s.ToWire(n)) else FixedBytes(s.ToWire(n), s.Width())
  }

  function EncodeElem(env: Env, e: Elem, v: Value): bytes
    requires ElemOk(env, e, v)
    decreases v, 1
  {
    match e
    case Num(s) => EncodeScalar(s, v.n)
    case Str => LenDelim(v.b)
    case Msg(id) => LenDelim(EncodeMessage(env, env[id], v))
  }

  function EncodeMessage(env: Env, fs: seq<Field>, v: Value): bytes
    requires MessageOk(env, fs, v)
    decreases v, 0
  {
    EncodeMembers(env, fs, v.members) + v.unknown
  }

  function EncodeMembers(env: Env, fs: seq<Field>, ms: seq<Value>): bytes
    requires |fs| == |ms| && forall i | 0 <= i < |fs| :: FieldOk(env, fs[i], ms[i])
    decreases ms
  {
    if fs == [] then [] else EncodeField(env, fs[0], ms[0]) + EncodeMembers(env, fs[1..], ms[1..])
  }

  /** One tagged value. */
  function Occurrence(env: Env, no: nat, e: Elem, v: Value): bytes
    requires ElemOk(env, e, v)
    decreases v, 2
  {
    TagBytes(no, WireOf(e)) + EncodeElem(env, e, v)
  }

  function EncodeField(env: Env, f: Field, v: Value): bytes
    requires FieldOk(env, f, v)
    decreases v, 3
  {
    match f
    case Single(no, e) => if IsDefault(e, v) then [] else Occurrence(env, no, e, v)
    case Optional(no, e, explicit) =>
      if v.Nothing? || (!explicit && IsDefault(e, v.v)) then [] else Occurrence(env, no, e, v.v)
    case Repeated(no, e) =>
      if e.Num? then
        if v.items == [] then []
        else TagBytes(no, LengthDelimited) + LenDelim(EncodePacked(env, e, v.items))
      else EncodeItems(env, no, e, v.items)
    case MapOf(no, k, e) => EncodeEntries(env, no, k, e, v.kvs)
    case Oneof(cases, _) => if v.Nothing? then [] else Occurrence(env, cases[v.index].no, cases[v.index].elem, v.v)
  }

  function EncodePacked(env: Env, e: Elem, items: seq<Value>): bytes
    requires forall i | 0 <= i < |items| :: ElemOk(env, e, items[i])
    decreases items
  {
    if items == [] then [] else EncodeElem(env, e, items[0]) + EncodePacked(env, e, items[1..])
  }

  function EncodeItems(env: Env, no: nat, e: Elem, items: seq<Value>): bytes
    requires forall i | 0 <= i < |items| :: ElemOk(env, e, items[i])
    decreases items
  {
    if items == [] then [] else Occurrence(env, no, e, items[0]) + EncodeItems(env, no, e, items[1..])
  }

  function EntryBody(env: Env, k: Elem, e: Elem, kv: Entry): bytes
    requires ElemOk(env, k, kv.key) && ElemOk(env, e, kv.value)
    decreases kv, 0
  {
    Occurrence(env, 1, k, kv.key) + Occurrence(env, 2, e, kv.value)
  }

  /** A map entry is a message with the key as field 1 and the value as field 2. */
  function EncodeEntry(env: Env, no: nat, k: Elem, e: Elem, kv: Entry): bytes
    requires ElemOk(env, k, kv.key) && ElemOk(env, e, kv.value)
    decreases kv, 1
  {
    TagBytes(no, LengthDelimited) + LenDelim(EntryBody(env, k, e, kv))
  }

  function EncodeEntries(env: Env, no: nat, k: Elem, e: Elem, kvs: seq<Entry>): bytes
    requires forall i | 0 <= i < |kvs| :: ElemOk(env, k, kvs[i].key) && ElemOk(env, e, kvs[i].value)
    decreases kvs
  {
    if kvs == [] then [] else EncodeEntry(env, no, k, e, kvs[0]) + EncodeEntries(env, no, k, e, kvs[1..])
  }

  // ----- default-constructed values --------------------------------------------------------------

  function DefaultElem(env: Env, e: Elem): (v: Value)
    requires ValidEnv(env) && ValidElem(env, e)
    ensures ElemOk(env, e, v)
    decreases if e.Msg? then e.id + 1 else 0, 0, 0
  {
    match e
    case Num(_) => Number(0)
    case Str => Bytes([])
    case Msg(id) =>
      var v := Message(DefaultMembers(env, id, env[id]), []);
      assert MessageOk(env, env[id], v);
      v
  }

  function DefaultMembers(env: Env, id: nat, fs: seq<Field>): (ms: seq<Value>)
    requires ValidEnv(env) && id < |env| && forall f <- fs :: f in env[id]
    ensures |ms| == |fs| && forall i | 0 <= i < |fs| :: FieldOk(env, fs[i], ms[i])
    decreases id, 2, |fs|
  {
    if fs == [] then [] else [DefaultField(env, id, fs[0])] + DefaultMembers(env, id, fs[1..])
  }

  function DefaultField(env: Env, id: nat, f: Field): (v: Value)
    requires ValidEnv(env) && id < |env| && f in env[id]
    ensures FieldOk(env, f, v)
    decreases id, 1, 0
  {
    assert ValidFields(env, env[id]) && ValidField(env, f);
    match f
    case Single(_, e) =>
      assert e.Msg? ==> Embeds(f, e.id);
      DefaultElem(env, e)
    case Optional(_, _, _) => Nothing
    case Repeated(_, _) => List([])
    case MapOf(_, _, _) => Entries([])
    case Oneof(cases, monostate) =>
      if monostate then Nothing
      else
        assert cases[0].elem.Msg? ==> Embeds(f, cases[0].elem.id);
        Choice(0, DefaultElem(env, cases[0].elem))
  }
}
