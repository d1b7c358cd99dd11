/** What `from_pb` makes of a byte string, one field occurrence at a time.  `depth` is the
  * number of recursion guards already held.
  */
module PbParse {
  import opened Wire
  import opened Schema

  const MAX_DEPTH: nat := 100

  // ----- unknown fields -------------------------------------------------------------------

  /** `skip_unknown_field`, after the tag: what is left. */
  function SkipUnknown(s: bytes, wire: WireType, number: nat, depth: nat): (r: Result<bytes>)
    ensures r.Ok? ==> |r.value| <= |s| && r.value == s[|s| - |r.value|..]
    decreases |s|, 1
  {
    match wire
    case VarintType =>
      var v :- ReadVarint(s);
      Ok(s[v.size..])
    case Fixed64Type => if |s| < 8 then Err(TooFewBytes) else Ok(s[8..])
    case LengthDelimited =>
      var p :- ReadLenDelim(s);
      ReadLenDelimSuffix(s);
      Ok(p.1)
    case Fixed32Type => if |s| < 4 then Err(TooFewBytes) else Ok(s[4..])
    case StartGroup => if depth >= MAX_DEPTH then Err(RecursionLimit) else SkipGroup(s, number, depth + 1)
    case EndGroup => Err(UnexpectedEndGroup)
  }

  function SkipGroup(s: bytes, number: nat, depth: nat): (r: Result<bytes>)
    ensures r.Ok? ==> |r.value| < |s| && r.value == s[|s| - |r.value|..]
    decreases |s|, 0
  {
    if s == [] then Err(MissingEndTag)
    else
      var key :- DecodeKey(s, true);
      var rest := s[key.size..];
      if key.wire == EndGroup then
        if key.number != number then Err(MismatchedEndTag) else Ok(rest)
      else
        var r :- SkipUnknown(rest, key.wire, key.number, depth);
        SkipGroup(r, number, depth)
  }

  lemma ReadLenDelimSuffix(s: bytes)
    requires ReadLenDelim(s).Ok?
    ensures var rest := ReadLenDelim(s).value.1; rest == s[|s| - |rest|..]
  {
  }

  // ----- values -----------------------------------------------------------------------------

  type Rest<T> = Result<(T, bytes)>

  function ParseScalar(sc: Scalar, s: bytes): (r: Rest<int>)
    ensures r.Ok? ==> |r.value.1| < |s| && sc.InRange(r.value.0)
  {
    if sc.Width() == 0 then
      var v :- ReadVarint(s);
      ScalarInRange(sc, v.value);
      Ok((sc.FromWire(v.value), s[v.size..]))
    else if |s| < sc.Width() then Err(TooFewBytes)
    else
      ScalarInRange(sc, FixedValue(s[..sc.Width()]));
      Ok((sc.FromWire(FixedValue(s[..sc.Width()])), s[sc.Width()..]))
  }

  lemma ScalarInRange(sc: Scalar, u: nat)
    ensures sc.InRange(sc.FromWire(u))
  {
  }

  /** `from_pb_impl` on an element whose target now holds `cur`. */
  function ParseElem(env: Env, e: Elem, cur: Value, s: bytes, depth: nat): (r: Rest<Value>)
    requires ValidEnv(env) && ElemOk(env, e, cur)
    ensures r.Ok? ==> |r.value.1| < |s| && ElemOk(env, e, r.value.0)
    decreases |s|, 1
  {
    match e
    case Num(sc) =>
      var n :- ParseScalar(sc, s);
      Ok((Number(n.0), n.1))
    case Str =>
      var p :- ReadLenDelim(s);
      Ok((Bytes(p.0), p.1))
    case Msg(id) =>
      var p :- ReadLenDelim(s);
      assert MessageOk(env, env[id], cur);
      if p.0 == [] then Ok((cur, p.1))
      else
        var m :- ParseMessage(env, id, cur, p.0, depth);
        Ok((m, p.1))
  }

  /** `from_pb` */
  function ParseMessage(env: Env, id: nat, cur: Value, s: bytes, depth: nat): (r: Result<Value>)
    requires ValidEnv(env) && id < |env| && MessageOk(env, env[id], cur)
    ensures r.Ok? ==> MessageOk(env, env[id], r.value)
    decreases |s|, 3
  {
    if s == [] then Ok(cur)
    else if depth >= MAX_DEPTH then Err(RecursionLimit)
    else ParseFields(env, id, cur, s, depth + 1)
  }

  /** Where a field number is declared: the member, and for a oneof the case. */
  datatype Slot = Unlisted | Listed(member: nat, case_: nat)

  function FindCase(cases: seq<Case>, no: nat): (c: nat)
    ensures c <= |cases| && (c < |cases| ==> cases[c].no == no)
    ensures c == |cases| <==> forall i | 0 <= i < |cases| :: cases[i].no != no
  {
    if cases == [] then 0 else if cases[0].no == no then 0 else 1 + FindCase(cases[1..], no)
  }

  /** `map.find(field_number)` */
  function FindField(fs: seq<Field>, no: nat): (r: Slot)
    ensures r.Listed? ==> r.member < |fs| && Owns(fs[r.member], no)
    ensures r.Listed? && fs[r.member].Oneof? ==>
      r.case_ < |fs[r.member].cases| && fs[r.member].cases[r.case_].no == no
    ensures r.Unlisted? <==> forall i | 0 <= i < |fs| :: !Owns(fs[i], no)
  {
    if fs == [] then Unlisted
    else if Owns(fs[0], no) then Listed(0, if fs[0].Oneof? then FindCase(fs[0].cases, no) else 0)
    else
      match FindField(fs[1..], no)
      case Unlisted => Unlisted
      case Listed(i, c) => Listed(i + 1, c)
  }

  lemma {:induction false} FindsCase(cases: seq<Case>, c: nat)
    requires c < |cases| && forall i, j | 0 <= i < j < |cases| :: cases[i].no != cases[j].no
    ensures FindCase(cases, cases[c].no) == c
  {
    if c > 0 {
      FindsCase(cases[1..], c - 1);
    }
  }

  lemma {:induction false} FindsField(fs: seq<Field>, i: nat, no: nat)
    requires i < |fs| && Owns(fs[i], no) && forall j | 0 <= j < i :: !Owns(fs[j], no)
    ensures FindField(fs, no) == Listed(i, if fs[i].Oneof? then FindCase(fs[i].cases, no) else 0)
  {
    if i > 0 {
      FindsField(fs[1..], i - 1, no);
    }
  }

  /** The field loop of `from_pb`. */
  function ParseFields(env: Env, id: nat, cur: Value, s: bytes, depth: nat): (r: Result<Value>)
    requires ValidEnv(env) && id < |env| && MessageOk(env, env[id], cur)
    ensures r.Ok? ==> MessageOk(env, env[id], r.value)
    decreases |s|, 2
  {
    if s == [] then Ok(cur)
    else
      var one :- ParseOne(env, id, cur, s, depth);
      ParseFields(env, id, one.0, one.1, depth)
  }

  /** One trip round that loop: the tag, then a field to skip or to parse. */
  function ParseOne(env: Env, id: nat, cur: Value, s: bytes, depth: nat): (r: Rest<Value>)
    requires ValidEnv(env) && id < |env| && MessageOk(env, env[id], cur)
    ensures r.Ok? ==> |r.value.1| < |s| && MessageOk(env, env[id], r.value.0)
    decreases |s|, 1
  {
    var key :- DecodeKey(s);
    var rest := s[key.size..];
    match FindField(env[id], key.number)
    case Unlisted =>
      var r :- SkipUnknown(rest, key.wire, key.number, depth);
      Ok((cur.(unknown := cur.unknown + s[..|s| - |r|]), r))
    case Listed(i, c) =>
      assert ValidFields(env, env[id]);
      var r :- ParseField(env, env[id][i], c, cur.members[i], key.wire, rest, depth);
      Ok((cur.(members := cur.members[i := r.0]), r.1))
  }

  lemma ItemsAppended(env: Env, f: Field, cur: Value, items: seq<Value>)
    requires f.Repeated? && FieldOk(env, f, cur) && forall i | 0 <= i < |items| :: ElemOk(env, f.elem, items[i])
    ensures FieldOk(env, f, List(cur.items + items))
  {
  }

  lemma EntryInserted(env: Env, f: Field, cur: Value, kv: Entry)
    requires f.MapOf? && FieldOk(env, f, cur) && ElemOk(env, f.key, kv.key) && ElemOk(env, f.value, kv.value)
    ensures FieldOk(env, f, Entries(InsertOrAssign(cur.kvs, kv)))
  {
    hide InsertOrAssign;
    hide ElemOk;
    var r := InsertOrAssign(cur.kvs, kv);
    forall i | 0 <= i < |r| ensures ElemOk(env, f.key, r[i].key) && ElemOk(env, f.value, r[i].value) {
      assert r[i] in r;
    }
  }

  /** One occurrence of a listed field, after its tag. */
  function ParseField(env: Env, f: Field, c: nat, cur: Value, wire: WireType, s: bytes, depth: nat): (r: Rest<Value>)
    requires ValidEnv(env) && ValidField(env, f) && FieldOk(env, f, cur)
    requires f.Oneof? ==> c < |f.cases|
    ensures r.Ok? ==> |r.value.1| <= |s| && FieldOk(env, f, r.value.0)
    decreases |s|, 2
  {
    hide ReadLenDelim;
    hide DefaultElem;
    hide InsertOrAssign;
    match f
    case Single(_, e) =>
      if wire != WireOf(e) then Err(WireTypeMismatch) else ParseElem(env, e, cur, s, depth)
    case Optional(_, e, _) =>
      if wire != WireOf(e) then Err(WireTypeMismatch)
      else
        var r :- ParseElem(env, e, if cur.Nothing? then DefaultElem(env, e) else cur.v, s, depth);
        Ok((Just(r.0), r.1))
    case Repeated(_, e) =>
      if e.Num? && wire == LengthDelimited then
        var p :- ReadLenDelim(s);
        var items :- ParsePackedBlock(env, e.s, p.0);
        ItemsAppended(env, f, cur, items);
        Ok((List(cur.items + items), p.1))
      else if wire != WireOf(e) then Err(WireTypeMismatch)
      else if s == [] && !e.Num? then Ok((cur, []))
      else
        var r :- ParseElem(env, e, DefaultElem(env, e), s, depth);
        ItemsAppended(env, f, cur, [r.0]);
        Ok((List(cur.items + [r.0]), r.1))
    case MapOf(_, k, e) =>
      if wire != LengthDelimited then Err(WireTypeMismatch)
      else if s == [] then Ok((cur, []))
      else
        var p :- ReadLenDelim(s);
        var kv :- ParseEntry(env, k, e, Entry(DefaultElem(env, k), DefaultElem(env, e)), p.0, depth);
        EntryInserted(env, f, cur, kv);
        Ok((Entries(InsertOrAssign(cur.kvs, kv)), p.1))
    case Oneof(cases, _) =>
      var e := cases[c].elem;
      if wire != WireOf(e) then Err(WireTypeMismatch)
      else
        var r :- ParseElem(env, e, DefaultElem(env, e), s, depth);
        Ok((Choice(c, r.0), r.1))
  }

  function ParsePackedBlock(env: Env, sc: Scalar, s: bytes): (r: Result<seq<Value>>)
    ensures r.Ok? ==> forall i | 0 <= i < |r.value| :: ElemOk(env, Num(sc), r.value[i])
  {
    if sc.IsFixed() && |s| % sc.Width() != 0 then Err(BadPackedLength) else ParsePacked(env, sc, s)
  }

  function ParsePacked(env: Env, sc: Scalar, s: bytes): (r: Result<seq<Value>>)
    ensures r.Ok? ==> forall i | 0 <= i < |r.value| :: ElemOk(env, Num(sc), r.value[i])
    decreases |s|
  {
    if s == [] then Ok([])
    else
      var n :- ParseScalar(sc, s);
      var items :- ParsePacked(env, sc, n.1);
      Ok([Number(n.0)] + items)
  }

  /** The loop over the body of a map entry. */
  function ParseEntry(env: Env, k: Elem, e: Elem, kv: Entry, s: bytes, depth: nat): (r: Result<Entry>)
    requires ValidEnv(env) && ElemOk(env, k, kv.key) && ElemOk(env, e, kv.value)
    ensures r.Ok? ==> ElemOk(env, k, r.value.key) && ElemOk(env, e, r.value.value)
    decreases |s|, 2
  {
    if s == [] then Ok(kv)
    else
      var key :- DecodeKey(s);
      var rest := s[key.size..];
      if key.number == 1 && key.wire == WireOf(k) then
        var r :- ParseElem(env, k, kv.key, rest, depth);
        ParseEntry(env, k, e, kv.(key := r.0), r.1, depth)
      else if key.number == 2 && key.wire == WireOf(e) then
        var r :- ParseElem(env, e, kv.value, rest, depth);
        ParseEntry(env, k, e, kv.(value := r.0), r.1, depth)
      else
        var r :- SkipUnknown(rest, key.wire, key.number, depth);
        ParseEntry(env, k, e, kv, r, depth)
  }

  function InsertOrAssign(kvs: seq<Entry>, kv: Entry): (r: seq<Entry>)
    ensures forall x <- r :: x in kvs || x == kv
    ensures forall x <- r :: x.key == kv.key || exists y :: y in kvs && y.key == x.key
    ensures (forall i, j | 0 <= i < j < |kvs| :: kvs[i].key != kvs[j].key)
        ==> (forall i, j | 0 <= i < j < |r| :: r[i].key != r[j].key)
  {
    if kvs == [] then [kv]
    else if kvs[0].key == kv.key then [kv] + kvs[1..]
    else [kvs[0]] + InsertOrAssign(kvs[1..], kv)
  }
}
