/** `from_pb` as it runs: a cursor that is re-sliced in loops, a recursion counter, and loops
  * that look ahead for more occurrences of the same repeated or map field.
  */
module PbReader {
  import opened Wire
  import opened Schema
  import opened PbParse

  /** `thread_local size_t pb_recursion_depth` */
  class Guard {
    var depth: nat
    constructor ()
      ensures depth == 0
    {
      depth := 0;
    }
  }

  // ----- unknown fields -----------------------------------------------------------------------

  method SkipUnknownField(view: View, wire: WireType, number: nat, g: Guard) returns (r: Result<()>)
    requires g.depth <= MAX_DEPTH
    modifies view, g
    ensures g.depth == old(g.depth)
    ensures match SkipUnknown(old(view.s), wire, number, old(g.depth))
      case Ok(rest) => r.Ok? && view.s == rest
      case Err(e) => r == Err(e)
    decreases |view.s|, 1
  {
    hide SkipGroup;
    hide ReadLenDelim;
    match wire {
    case VarintType =>
      if |view.s| == 0 {
        return Err(TooFewBytes);
      }
      var v := DecodeVarint(view.s);
      if v.Err? {
        return Err(v.error);
      }
      view.s := view.s[v.value.size..];
    case Fixed64Type =>
      if |view.s| < 8 {
        return Err(TooFewBytes);
      }
      view.s := view.s[8..];
    case LengthDelimited =>
      var len := DecodeLengthDelimited(view);
      if len.Err? {
        return Err(len.error);
      }
      view.s := view.s[len.value..];
    case Fixed32Type =>
      if |view.s| < 4 {
        return Err(TooFewBytes);
      }
      view.s := view.s[4..];
    case StartGroup =>
      if g.depth >= MAX_DEPTH {
        return Err(RecursionLimit);
      }
      g.depth := g.depth + 1;
      r := SkipGroupFields(view, number, g);
      g.depth := g.depth - 1;
      return;
    case EndGroup =>
      return Err(UnexpectedEndGroup);
    }
    r := Ok(());
  }

  /** The loop over the fields of a group. */
  method SkipGroupFields(view: View, number: nat, g: Guard) returns (r: Result<()>)
    requires g.depth <= MAX_DEPTH
    modifies view, g
    ensures g.depth == old(g.depth)
    ensures match SkipGroup(old(view.s), number, old(g.depth))
      case Ok(rest) => r.Ok? && view.s == rest
      case Err(e) => r == Err(e)
    decreases |view.s|, 0
  {
    while true
      invariant g.depth == old(g.depth) && |view.s| <= old(|view.s|)
      invariant SkipGroup(view.s, number, g.depth) == SkipGroup(old(view.s), number, g.depth)
      decreases |view.s|
    {
      if |view.s| == 0 {
        return Err(MissingEndTag);
      }
      var key := DecodeKey(view.s, true);
      if key.Err? {
        return Err(key.error);
      }
      view.s := view.s[key.value.size..];
      if key.value.wire == EndGroup {
        if key.value.number != number {
          return Err(MismatchedEndTag);
        }
        return Ok(());
      }
      r := SkipUnknownField(view, key.value.wire, key.value.number, g);
      if r.Err? {
        return;
      }
    }
  }

  // ----- values -----------------------------------------------------------------------------------

  method ReadScalar(sc: Scalar, view: View) returns (r: Result<int>)
    modifies view
    ensures match ParseScalar(sc, old(view.s))
      case Ok((n, rest)) => r == Ok(n) && view.s == rest
      case Err(e) => r == Err(e)
  {
    if sc.Width() == 0 {
      var v := DecodeVarint(view.s);
      if v.Err? {
        return Err(v.error);
      }
      view.s := view.s[v.value.size..];
      return Ok(sc.FromWire(v.value.value));
    }
    if |view.s| < sc.Width() {
      return Err(TooFewBytes);
    }
    var n := sc.FromWire(FixedValue(view.s[..sc.Width()]));
    view.s := view.s[sc.Width()..];
    return Ok(n);
  }

  /** `from_pb_impl` on a scalar, a string or a message. */
  method ReadElem(env: Env, e: Elem, cur: Value, view: View, g: Guard) returns (r: Result<Value>)
    requires ValidEnv(env) && ElemOk(env, e, cur) && g.depth <= MAX_DEPTH
    modifies view, g
    ensures g.depth == old(g.depth)
    ensures match ParseElem(env, e, cur, old(view.s), old(g.depth))
      case Ok((v, rest)) => r == Ok(v) && view.s == rest
      case Err(e) => r == Err(e)
    decreases |view.s|, 1
  {
    match e
    case Num(sc) =>
      var n := ReadScalar(sc, view);
      if n.Err? {
        return Err(n.error);
      }
      return Ok(Number(n.value));
    case Str =>
      var size := DecodeLengthDelimited(view);
      if size.Err? {
        return Err(size.error);
      }
      r := Ok(Bytes(view.s[..size.value]));
      view.s := view.s[size.value..];
    case Msg(id) =>
      var size := DecodeLengthDelimited(view);
      if size.Err? {
        return Err(size.error);
      }
      assert MessageOk(env, env[id], cur);
      if size.value == 0 {
        return Ok(cur);
      }
      r := FromPb(env, id, cur, view.s[..size.value], g);
      view.s := view.s[size.value..];
  }

  /** A packed run, item by item (the block copy of fixed-width items has the same effect). */
  method ReadPacked(env: Env, sc: Scalar, view: View) returns (r: Result<seq<Value>>)
    modifies view
    ensures match ReadLenDelim(old(view.s))
      case Ok((block, rest)) => r == ParsePackedBlock(env, sc, block) && view.s == rest
      case Err(e) => r == Err(e)
  {
    var size := DecodeLengthDelimited(view);
    if size.Err? {
      return Err(size.error);
    }
    ghost var (payload, rest) := ReadLenDelim(old(view.s)).value;
    assert (payload + rest)[..|payload|] == payload && (payload + rest)[|payload|..] == rest;
    var packed := new View(view.s[..size.value]);
    view.s := view.s[size.value..];
    if sc.IsFixed() && size.value % sc.Width() != 0 {
      return Err(BadPackedLength);
    }
    var items: seq<Value> := [];
    ghost var block := packed.s;
    AppendedNothing(ParsePacked(env, sc, block));
    while |packed.s| != 0
      invariant fresh(packed) && view.s == rest
      invariant ParsePacked(env, sc, block) == Appended(items, ParsePacked(env, sc, packed.s))
      decreases |packed.s|
    {
      ghost var before, s := items, packed.s;
      var n := ReadScalar(sc, packed);
      if n.Err? {
        assert ParsePacked(env, sc, s) == Err(n.error);
        return Err(n.error);
      }
      items := items + [Number(n.value)];
      AppendedStep(before, Number(n.value), ParsePacked(env, sc, packed.s));
    }
    assert items + [] == items;
    return Ok(items);
  }

  function Appended(items: seq<Value>, r: Result<seq<Value>>): Result<seq<Value>> {
    match r
    case Ok(more) => Ok(items + more)
    case Err(e) => Err(e)
  }

  lemma AppendedNothing(r: Result<seq<Value>>)
    ensures Appended([], r) == r
  {
    if r.Ok? {
      assert [] + r.value == r.value;
    }
  }

  lemma AppendedStep(items: seq<Value>, x: Value, r: Result<seq<Value>>)
    ensures Appended(items + [x], r) == match r
      case Ok(more) => Ok(items + ([x] + more))
      case Err(e) => Err(e)
  {
    if r.Ok? {
      Assoc(items, [x], r.value);
    }
  }

  /** The body of one map entry. */
  method ReadEntry(env: Env, k: Elem, e: Elem, body: bytes, g: Guard) returns (r: Result<Entry>)
    requires ValidEnv(env) && ValidElem(env, k) && ValidElem(env, e) && g.depth <= MAX_DEPTH
    modifies g
    ensures g.depth == old(g.depth)
    ensures r == ParseEntry(env, k, e, Entry(DefaultElem(env, k), DefaultElem(env, e)), body, old(g.depth))
    decreases |body|, 2
  {
    hide SkipUnknown;
    hide ParseElem;
    hide DecodeKey;
    var kv := Entry(DefaultElem(env, k), DefaultElem(env, e));
    ghost var start := kv;
    var entry := new View(body);
    while |entry.s| != 0
      invariant fresh(entry) && g.depth == old(g.depth) && |entry.s| <= |body|
      invariant ElemOk(env, k, kv.key) && ElemOk(env, e, kv.value)
      invariant ParseEntry(env, k, e, start, body, g.depth) == ParseEntry(env, k, e, kv, entry.s, g.depth)
      decreases |entry.s|
    {
      var key := DecodeKey(entry.s);
      if key.Err? {
        return Err(key.error);
      }
      var wire, number := key.value.wire, key.value.number;
      entry.s := entry.s[key.value.size..];
      if number == 1 && wire == WireOf(k) {
        var x := ReadElem(env, k, kv.key, entry, g);
        if x.Err? {
          return Err(x.error);
        }
        kv := kv.(key := x.value);
      } else if number == 2 && wire == WireOf(e) {
        var x := ReadElem(env, e, kv.value, entry, g);
        if x.Err? {
          return Err(x.error);
        }
        kv := kv.(value := x.value);
      } else {
        var x := SkipUnknownField(entry, wire, number, g);
        if x.Err? {
          return Err(x.error);
        }
      }
    }
    return Ok(kv);
  }

  // ----- fields -------------------------------------------------------------------------------------

  /** What the field loop comes to once the tag of member `i` has been consumed. */
  ghost function AfterTag(env: Env, id: nat, cur: Value, i: nat, c: nat, wire: WireType, s: bytes,
      depth: nat): Result<Value>
    requires ValidEnv(env) && id < |env| && MessageOk(env, env[id], cur) && i < |env[id]|
    requires ValidField(env, env[id][i]) && (env[id][i].Oneof? ==> c < |env[id][i].cases|)
  {
    match ParseField(env, env[id][i], c, cur.members[i], wire, s, depth)
    case Ok(r) => ParseFields(env, id, cur.(members := cur.members[i := r.0]), r.1, depth)
    case Err(e) => Err(e)
  }

  /** `r` is the new value of member `i` (or the error), `s` what is left to parse. */
  ghost predicate Continues(env: Env, id: nat, cur: Value, i: nat, r: Result<Value>, s: bytes, depth: nat,
      whole: Result<Value>)
    requires ValidEnv(env) && id < |env| && MessageOk(env, env[id], cur) && i < |env[id]|
  {
    match r
    case Ok(v) =>
      FieldOk(env, env[id][i], v) && whole == ParseFields(env, id, cur.(members := cur.members[i := v]), s, depth)
    case Err(e) => whole == Err(e)
  }

  lemma TagConsumed(env: Env, id: nat, cur: Value, i: nat, s: bytes, depth: nat)
    requires ValidEnv(env) && id < |env| && MessageOk(env, env[id], cur) && i < |env[id]|
    requires !env[id][i].Oneof? && ValidField(env, env[id][i])
    requires DecodeKey(s).Ok? && DecodeKey(s).value.number == env[id][i].no
    ensures var key := DecodeKey(s).value;
      ParseFields(env, id, cur, s, depth) == AfterTag(env, id, cur, i, 0, key.wire, s[key.size..], depth)
  {
    assert ValidFields(env, env[id]);
    assert Owns(env[id][i], env[id][i].no);
    FindsField(env[id], i, env[id][i].no);
  }

  lemma BadKey(env: Env, id: nat, cur: Value, s: bytes, depth: nat)
    requires ValidEnv(env) && id < |env| && MessageOk(env, env[id], cur)
    requires s != [] && DecodeKey(s).Err?
    ensures ParseFields(env, id, cur, s, depth) == Err(DecodeKey(s).error)
  {
    assert ParseOne(env, id, cur, s, depth) == Err(DecodeKey(s).error);
  }

  /** Repeated strings or messages: items are read as long as the same tag follows. */
  method ReadItems(env: Env, id: nat, cur: Value, i: nat, view: View, g: Guard) returns (r: Result<Value>)
    requires ValidEnv(env) && id < |env| && MessageOk(env, env[id], cur) && i < |env[id]|
    requires g.depth <= MAX_DEPTH && env[id][i].Repeated? && !env[id][i].elem.Num? && ValidField(env, env[id][i])
    modifies view, g
    ensures g.depth == old(g.depth) && (r.Ok? ==> |view.s| <= old(|view.s|))
    ensures Continues(env, id, cur, i, r, view.s, g.depth,
      AfterTag(env, id, cur, i, 0, LengthDelimited, old(view.s), g.depth))
    decreases |view.s|, 2
  {
    var f := env[id][i];
    assert FieldOk(env, f, cur.members[i]);
    var items := cur.members[i].items;
    ghost var whole := AfterTag(env, id, cur, i, 0, LengthDelimited, view.s, g.depth);
    assert cur.members[i := List(items)] == cur.members;
    while |view.s| != 0
      invariant g.depth == old(g.depth) && |view.s| <= old(|view.s|)
      invariant FieldOk(env, f, List(items))
      invariant cur.members[i := List(items)][i := List(items)] == cur.members[i := List(items)]
      invariant AfterTag(env, id, cur.(members := cur.members[i := List(items)]), i, 0, LengthDelimited,
        view.s, g.depth) == whole
      decreases |view.s|
    {
      ghost var before := cur.members[i := List(items)];
      var x := ReadElem(env, f.elem, DefaultElem(env, f.elem), view, g);
      if x.Err? {
        return Err(x.error);
      }
      items := items + [x.value];
      assert before[i := List(items)] == cur.members[i := List(items)];
      if |view.s| == 0 {
        break;
      }
      var key := DecodeKey(view.s);
      if key.Err? {
        BadKey(env, id, cur.(members := cur.members[i := List(items)]), view.s, g.depth);
        return Err(key.error);
      }
      if key.value.number != f.no || key.value.wire != WireOf(f.elem) {
        break;
      }
      TagConsumed(env, id, cur.(members := cur.members[i := List(items)]), i, view.s, g.depth);
      view.s := view.s[key.value.size..];
    }
    return Ok(List(items));
  }

  method ReadOneEntry(env: Env, id: nat, cur: Value, i: nat, kvs: seq<Entry>, view: View, g: Guard)
      returns (r: Result<seq<Entry>>)
    requires ValidEnv(env) && id < |env| && MessageOk(env, env[id], cur) && i < |env[id]|
    requires g.depth <= MAX_DEPTH && env[id][i].MapOf? && ValidField(env, env[id][i])
    requires FieldOk(env, env[id][i], Entries(kvs)) && view.s != []
    modifies view, g
    ensures g.depth == old(g.depth)
    ensures var now := cur.(members := cur.members[i := Entries(kvs)]);
      var whole := AfterTag(env, id, now, i, 0, LengthDelimited, old(view.s), g.depth);
      match r
      case Ok(after) =>
        && FieldOk(env, env[id][i], Entries(after)) && |view.s| < old(|view.s|)
        && whole == ParseFields(env, id, cur.(members := cur.members[i := Entries(after)]), view.s, g.depth)
      case Err(e) => whole == Err(e)
    decreases |view.s|, 1
  {
    var f := env[id][i];
    ghost var p := ParseField(env, f, 0, Entries(kvs), LengthDelimited, view.s, g.depth);
    var size := DecodeLengthDelimited(view);
    if size.Err? {
      return Err(size.error);
    }
    ghost var (payload, rest) := ReadLenDelim(old(view.s)).value;
    assert (payload + rest)[..|payload|] == payload && (payload + rest)[|payload|..] == rest;
    var body := view.s[..size.value];
    view.s := view.s[size.value..];
    var kv := ReadEntry(env, f.key, f.value, body, g);
    if kv.Err? {
      assert p == Err(kv.error);
      return Err(kv.error);
    }
    r := Ok(InsertOrAssign(kvs, kv.value));
    assert p == Ok((Entries(r.value), view.s));
    assert cur.members[i := Entries(kvs)][i := Entries(r.value)] == cur.members[i := Entries(r.value)];
  }

  /** A map: entries are read as long as the same tag follows. */
  method ReadEntries(env: Env, id: nat, cur: Value, i: nat, view: View, g: Guard) returns (r: Result<Value>)
    requires ValidEnv(env) && id < |env| && MessageOk(env, env[id], cur) && i < |env[id]|
    requires g.depth <= MAX_DEPTH && env[id][i].MapOf? && ValidField(env, env[id][i])
    modifies view, g
    ensures g.depth == old(g.depth) && (r.Ok? ==> |view.s| <= old(|view.s|))
    ensures Continues(env, id, cur, i, r, view.s, g.depth,
      AfterTag(env, id, cur, i, 0, LengthDelimited, old(view.s), g.depth))
    decreases |view.s|, 2
  {
    var f := env[id][i];
    assert FieldOk(env, f, cur.members[i]);
    var kvs := cur.members[i].kvs;
    ghost var whole := AfterTag(env, id, cur, i, 0, LengthDelimited, view.s, g.depth);
    assert cur.members[i := Entries(kvs)] == cur.members;
    while |view.s| != 0
      invariant g.depth == old(g.depth) && |view.s| <= old(|view.s|)
      invariant FieldOk(env, f, Entries(kvs))
      invariant cur.members[i := Entries(kvs)][i := Entries(kvs)] == cur.members[i := Entries(kvs)]
      invariant AfterTag(env, id, cur.(members := cur.members[i := Entries(kvs)]), i, 0, LengthDelimited,
        view.s, g.depth) == whole
      decreases |view.s|
    {
      var next := ReadOneEntry(env, id, cur, i, kvs, view, g);
      if next.Err? {
        return Err(next.error);
      }
      kvs := next.value;
      if |view.s| == 0 {
        break;
      }
      var key := DecodeKey(view.s);
      if key.Err? {
        BadKey(env, id, cur.(members := cur.members[i := Entries(kvs)]), view.s, g.depth);
        return Err(key.error);
      }
      if key.value.number != f.no || key.value.wire != LengthDelimited {
        break;
      }
      TagConsumed(env, id, cur.(members := cur.members[i := Entries(kvs)]), i, view.s, g.depth);
      view.s := view.s[key.value.size..];
    }
    return Ok(Entries(kvs));
  }

  /** The visitor of a listed field: wire-type check, then the parser of its kind. */
  method ReadField(env: Env, id: nat, cur: Value, i: nat, c: nat, wire: WireType, view: View, g: Guard)
      returns (r: Result<Value>)
    requires ValidEnv(env) && id < |env| && MessageOk(env, env[id], cur) && i < |env[id]| && g.depth <= MAX_DEPTH
    requires ValidField(env, env[id][i]) && (env[id][i].Oneof? ==> c < |env[id][i].cases|)
    modifies view, g
    ensures g.depth == old(g.depth) && (r.Ok? ==> |view.s| <= old(|view.s|))
    ensures Continues(env, id, cur, i, r, view.s, g.depth, AfterTag(env, id, cur, i, c, wire, old(view.s), g.depth))
    decreases |view.s|, 3
  {
    hide ParseElem;
    hide ParseFields;
    hide ReadVarint;
    hide ReadLenDelim;
    hide ParseEntry;
    hide DecodeKey;
    hide ParsePackedBlock;
    hide DefaultElem;
    var f, now := env[id][i], cur.members[i];
    assert FieldOk(env, f, now);
    match f
    case Single(_, e) =>
      if wire != WireOf(e) {
        return Err(WireTypeMismatch);
      }
      r := ReadElem(env, e, now, view, g);
    case Optional(_, e, _) =>
      if wire != WireOf(e) {
        return Err(WireTypeMismatch);
      }
      var x := ReadElem(env, e, if now.Nothing? then DefaultElem(env, e) else now.v, view, g);
      r := if x.Ok? then Ok(Just(x.value)) else x;
    case Repeated(_, e) =>
      if e.Num? && wire == LengthDelimited {
        var items := ReadPacked(env, e.s, view);
        if items.Err? {
          return Err(items.error);
        }
        return Ok(List(now.items + items.value));
      }
      if wire != WireOf(e) {
        return Err(WireTypeMismatch);
      }
      if !e.Num? {
        r := ReadItems(env, id, cur, i, view, g);
        return;
      }
      var x := ReadElem(env, e, DefaultElem(env, e), view, g);
      r := if x.Ok? then Ok(List(now.items + [x.value])) else x;
    case MapOf(_, _, _) =>
      if wire != LengthDelimited {
        return Err(WireTypeMismatch);
      }
      r := ReadEntries(env, id, cur, i, view, g);
    case Oneof(cases, _) =>
      var e := cases[c].elem;
      if wire != WireOf(e) {
        return Err(WireTypeMismatch);
      }
      var x := ReadElem(env, e, DefaultElem(env, e), view, g);
      r := if x.Ok? then Ok(Choice(c, x.value)) else x;
  }

  /** `from_pb`; the target is passed in and returned. */
  method FromPb(env: Env, id: nat, target: Value, s: bytes, g: Guard) returns (r: Result<Value>)
    requires ValidEnv(env) && id < |env| && MessageOk(env, env[id], target) && g.depth <= MAX_DEPTH
    modifies g
    ensures g.depth == old(g.depth)
    ensures r == ParseMessage(env, id, target, s, old(g.depth))
    decreases |s|, 5
  {
    if |s| == 0 {
      return Ok(target);
    }
    if g.depth >= MAX_DEPTH {
      return Err(RecursionLimit);
    }
    g.depth := g.depth + 1;
    r := ReadFields(env, id, target, s, g);
    g.depth := g.depth - 1;
  }

  /** One trip round the field loop, `key` being the tag the cursor is at. */
  method ReadOne(env: Env, id: nat, t: Value, key: Key, view: View, g: Guard) returns (r: Result<Value>)
    requires ValidEnv(env) && id < |env| && MessageOk(env, env[id], t) && g.depth <= MAX_DEPTH
    requires DecodeKey(view.s) == Ok(key)
    modifies view, g
    ensures g.depth == old(g.depth)
    ensures match r
      case Ok(v) =>
        && MessageOk(env, env[id], v) && |view.s| < old(|view.s|)
        && ParseFields(env, id, t, old(view.s), g.depth) == ParseFields(env, id, v, view.s, g.depth)
      case Err(e) => ParseFields(env, id, t, old(view.s), g.depth) == Err(e)
    decreases |view.s|, 3
  {
    hide SkipUnknown;
    hide ParseField;
    hide DecodeKey;
    var fieldStart := view.s;
    view.s := view.s[key.size..];
    match FindField(env[id], key.number) {
      case Unlisted =>
        var x := SkipUnknownField(view, key.wire, key.number, g);
        if x.Err? {
          return Err(x.error);
        }
        r := Ok(t.(unknown := t.unknown + fieldStart[..|fieldStart| - |view.s|]));
      case Listed(i, c) =>
        assert ValidFields(env, env[id]);
        var x := ReadField(env, id, t, i, c, key.wire, view, g);
        if x.Err? {
          return Err(x.error);
        }
        r := Ok(t.(members := t.members[i := x.value]));
    }
  }

  method ReadFields(env: Env, id: nat, target: Value, s: bytes, g: Guard) returns (r: Result<Value>)
    requires ValidEnv(env) && id < |env| && MessageOk(env, env[id], target) && g.depth <= MAX_DEPTH && s != []
    modifies g
    ensures g.depth == old(g.depth)
    ensures r == ParseFields(env, id, target, s, g.depth)
    decreases |s|, 4
  {
    var t := target;
    var view := new View(s);
    var key := DecodeKey(view.s);
    if key.Err? {
      return Err(key.error);
    }
    while true
      invariant fresh(view) && g.depth == old(g.depth) && 0 < |view.s| <= |s|
      invariant key.Ok? && key == DecodeKey(view.s)
      invariant MessageOk(env, env[id], t)
      invariant ParseFields(env, id, t, view.s, g.depth) == ParseFields(env, id, target, s, g.depth)
      decreases |view.s|
    {
      var next := ReadOne(env, id, t, key.value, view, g);
      if next.Err? {
        return Err(next.error);
      }
      t := next.value;
      if |view.s| == 0 {
        return Ok(t);
      }
      key := DecodeKey(view.s);
      if key.Err? {
        BadKey(env, id, t, view.s, g.depth);
        return Err(key.error);
      }
    }
  }
}
