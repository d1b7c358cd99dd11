/** Reading into a target that is not empty, and one encoding behind another: the merge rule of
  * Protocol Buffers.  A later value replaces a scalar, a string or a oneof, extends a list, is
  * inserted into or assigned in a map, and is merged into a message. */
module MergeLaw {
  import opened Wire
  import opened Wrappers
  import opened Schema
  import opened PbParse
  import opened UnknownFields
  import opened RoundTrip

  // ----- merging ---------------------------------------------------------------------------------

  function ElemMerge(env: Env, e: Elem, cur: Value, v: Value): (r: Value)
    requires ElemOk(env, e, cur) && ElemOk(env, e, v)
    ensures ElemOk(env, e, r)
    decreases v, 1
  {
    if !e.Msg? then v
    else
      assert MessageOk(env, env[e.id], cur) && MessageOk(env, env[e.id], v);
      MessageMerge(env, env[e.id], cur, v)
  }

  function MessageMerge(env: Env, fs: seq<Field>, cur: Value, v: Value): (r: Value)
    requires MessageOk(env, fs, cur) && MessageOk(env, fs, v)
    ensures MessageOk(env, fs, r)
    decreases v, 0
  {
    Message(MembersMerge(env, fs, cur.members, v.members), cur.unknown + v.unknown)
  }

  function MembersMerge(env: Env, fs: seq<Field>, cs: seq<Value>, ms: seq<Value>): (r: seq<Value>)
    requires |fs| == |cs| == |ms|
    requires forall i | 0 <= i < |fs| :: FieldOk(env, fs[i], cs[i]) && FieldOk(env, fs[i], ms[i])
    ensures |r| == |ms| && forall i | 0 <= i < |fs| :: r[i] == FieldMerge(env, fs[i], cs[i], ms[i])
    ensures forall i | 0 <= i < |fs| :: FieldOk(env, fs[i], r[i])
    decreases ms
  {
    seq(|ms|, i requires 0 <= i < |ms| => FieldMerge(env, fs[i], cs[i], ms[i]))
  }

  function FieldMerge(env: Env, f: Field, cur: Value, v: Value): (r: Value)
    requires FieldOk(env, f, cur) && FieldOk(env, f, v)
    ensures FieldOk(env, f, r)
    decreases v, 3
  {
    match f
    case Single(_, e) => if IsDefault(e, v) then cur else ElemMerge(env, e, cur, v)
    case Optional(_, e, explicit) =>
      if v.Nothing? || (!explicit && IsDefault(e, v.v)) then cur
      else Just(if cur.Nothing? then ElemBack(env, e, v.v) else ElemMerge(env, e, cur.v, v.v))
    case Repeated(_, e) => List(cur.items + ItemsBack(env, e, v.items))
    case MapOf(_, k, e) =>
      EntriesAreOk(env, f, cur, v.kvs);
      Entries(EntriesMerge(env, e, cur.kvs, v.kvs))
    case Oneof(cases, _) => if v.Nothing? then cur else Choice(v.index, ElemBack(env, cases[v.index].elem, v.v))
  }

  function EntriesMerge(env: Env, e: Elem, done: seq<Entry>, kvs: seq<Entry>): seq<Entry>
    requires forall i | 0 <= i < |kvs| :: ElemOk(env, e, kvs[i].value)
    decreases kvs
  {
    if kvs == [] then done else EntriesMerge(env, e, InsertOrAssign(done, EntryBack(env, e, kvs[0])), kvs[1..])
  }

  lemma {:induction false} EntriesAreOk(env: Env, f: Field, cur: Value, kvs: seq<Entry>)
    requires f.MapOf? && FieldOk(env, f, cur)
    requires forall i | 0 <= i < |kvs| :: ElemOk(env, f.key, kvs[i].key) && ElemOk(env, f.value, kvs[i].value)
    ensures FieldOk(env, f, Entries(EntriesMerge(env, f.value, cur.kvs, kvs)))
    decreases kvs
  {
    hide ElemOk;
    if kvs != [] {
      var kv := EntryBack(env, f.value, kvs[0]);
      EntryInserted(env, f, cur, kv);
      EntriesAreOk(env, f, Entries(InsertOrAssign(cur.kvs, kv)), kvs[1..]);
    } else {
      assert Entries(cur.kvs) == cur;
    }
  }

  // ----- maps ------------------------------------------------------------------------------------

  /** The value that a map holds for a key. */
  function Find(kvs: seq<Entry>, key: Value): Option<Value> {
    if kvs == [] then None
    else if kvs[|kvs| - 1].key == key then Some(kvs[|kvs| - 1].value)
    else Find(kvs[..|kvs| - 1], key)
  }

  predicate Distinct(kvs: seq<Entry>) {
    forall i, j | 0 <= i < j < |kvs| :: kvs[i].key != kvs[j].key
  }

  lemma {:induction false} FindFirst(kvs: seq<Entry>, key: Value)
    requires kvs != [] && Distinct(kvs)
    ensures Find(kvs, key) == if kvs[0].key == key then Some(kvs[0].value) else Find(kvs[1..], key)
  {
    var n := |kvs| - 1;
    if n > 0 {
      FindFirst(kvs[..n], key);
      assert kvs[..n][1..] == kvs[1..][..n - 1];
    } else {
      assert kvs[..0] == [] && kvs[1..] == [];
    }
  }

  /** `insert_or_assign`: the key gets the new value, every other key keeps its own. */
  lemma {:induction false} InsertOrAssignMeaning(kvs: seq<Entry>, kv: Entry, key: Value)
    requires Distinct(kvs)
    ensures Distinct(InsertOrAssign(kvs, kv))
    ensures Find(InsertOrAssign(kvs, kv), key) == if key == kv.key then Some(kv.value) else Find(kvs, key)
  {
    var r := InsertOrAssign(kvs, kv);
    if kvs == [] {
      FindFirst(r, key);
    } else {
      FindFirst(kvs, key);
      FindFirst(r, key);
      if kvs[0].key == kv.key {
        assert r[1..] == kvs[1..];
      } else {
        InsertOrAssignMeaning(kvs[1..], kv, key);
        assert r[1..] == InsertOrAssign(kvs[1..], kv);
      }
    }
  }

  /** Of several entries with one key the last one wins, over the entries of the target too. */
  lemma {:induction false} LastEntryWins(env: Env, e: Elem, done: seq<Entry>, kvs: seq<Entry>, key: Value)
    requires Distinct(done) && forall i | 0 <= i < |kvs| :: ElemOk(env, e, kvs[i].value)
    ensures Distinct(EntriesMerge(env, e, done, kvs))
    ensures Find(EntriesMerge(env, e, done, kvs), key)
      == match Find(kvs, key)
         case None => Find(done, key)
         case Some(x) => if ElemOk(env, e, x) then Some(ElemBack(env, e, x)) else None
    decreases |kvs|
  {
    if kvs != [] {
      var n := |kvs| - 1;
      LastEntryWins(env, e, done, kvs[..n], key);
      MergeLastEntry(env, e, done, kvs);
      InsertOrAssignMeaning(EntriesMerge(env, e, done, kvs[..n]), EntryBack(env, e, kvs[n]), key);
      FoundIsOk(env, e, kvs[..n], key);
    }
  }

  lemma {:induction false} FoundIsOk(env: Env, e: Elem, kvs: seq<Entry>, key: Value)
    requires forall i | 0 <= i < |kvs| :: ElemOk(env, e, kvs[i].value)
    ensures match Find(kvs, key) case None => true case Some(x) => ElemOk(env, e, x)
  {
    if kvs != [] {
      FoundIsOk(env, e, kvs[..|kvs| - 1], key);
    }
  }

  lemma {:induction false} MergeLastEntry(env: Env, e: Elem, done: seq<Entry>, kvs: seq<Entry>)
    requires kvs != [] && forall i | 0 <= i < |kvs| :: ElemOk(env, e, kvs[i].value)
    ensures var n := |kvs| - 1;
      EntriesMerge(env, e, done, kvs)
        == InsertOrAssign(EntriesMerge(env, e, done, kvs[..n]), EntryBack(env, e, kvs[n]))
    decreases |kvs|
  {
    var n := |kvs| - 1;
    if n > 0 {
      MergeLastEntry(env, e, InsertOrAssign(done, EntryBack(env, e, kvs[0])), kvs[1..]);
      assert kvs[1..][..n - 1] == kvs[..n][1..];
    }
  }

  // ----- what is left out changes nothing --------------------------------------------------------

  lemma EmptyFieldMerges(env: Env, f: Field, cur: Value, v: Value)
    requires FieldOk(env, f, cur) && FieldOk(env, f, v) && EncodeField(env, f, v) == []
    ensures FieldMerge(env, f, cur, v) == cur
  {
    SomethingIsWritten(env, f, v);
    if f.Repeated? {
      assert cur.items + ItemsBack(env, f.elem, v.items) == cur.items;
    }
  }

  lemma {:induction false} EmptyMembersMerge(env: Env, fs: seq<Field>, cs: seq<Value>, ms: seq<Value>)
    requires |fs| == |cs| == |ms|
    requires forall i | 0 <= i < |fs| :: FieldOk(env, fs[i], cs[i]) && FieldOk(env, fs[i], ms[i])
    requires EncodeMembers(env, fs, ms) == []
    ensures forall i | 0 <= i < |fs| :: FieldMerge(env, fs[i], cs[i], ms[i]) == cs[i]
  {
    hide FieldMerge;
    hide EncodeField;
    hide FieldOk;
    if fs != [] {
      assert EncodeField(env, fs[0], ms[0]) == [] && EncodeMembers(env, fs[1..], ms[1..]) == [];
      EmptyFieldMerges(env, fs[0], cs[0], ms[0]);
      EmptyMembersMerge(env, fs[1..], cs[1..], ms[1..]);
      forall i | 0 <= i < |fs| ensures FieldMerge(env, fs[i], cs[i], ms[i]) == cs[i] {
        if i > 0 {
          assert FieldMerge(env, fs[1..][i - 1], cs[1..][i - 1], ms[1..][i - 1]) == cs[1..][i - 1];
        }
      }
    }
  }

  lemma EmptyMessageMerges(env: Env, fs: seq<Field>, cur: Value, v: Value)
    requires MessageOk(env, fs, cur) && MessageOk(env, fs, v) && EncodeMessage(env, fs, v) == []
    ensures MessageMerge(env, fs, cur, v) == cur
  {
    EmptyMembersMerge(env, fs, cur.members, v.members);
    assert MembersMerge(env, fs, cur.members, v.members) == cur.members;
    assert cur.unknown + [] == cur.unknown;
  }

  // ----- the reader ------------------------------------------------------------------------------

  lemma {:induction false} UnknownThen(env: Env, id: nat, cur: Value, ws: seq<WireField>, tail: bytes, depth: nat)
    requires ValidEnv(env) && id < |env| && MessageOk(env, env[id], cur) && depth <= MAX_DEPTH
    requires forall i | 0 <= i < |ws| :: WellFormed(ws[i]) && FindField(env[id], ws[i].number).Unlisted?
    ensures ParseFields(env, id, cur, EncodeWire(ws) + tail, depth)
      == if depth + Nesting(ws) <= MAX_DEPTH
         then ParseFields(env, id, cur.(unknown := cur.unknown + EncodeWire(ws)), tail, depth) else Err(RecursionLimit)
    decreases |ws|
  {
    hide SkipUnknown;
    hide SkipGroup;
    hide ParseField;
    hide ReadVarint;
    if ws == [] {
      assert cur.unknown + [] == cur.unknown && [] + tail == tail;
    } else {
      var f, others := ws[0], EncodeWire(ws[1..]) + tail;
      var s := EncodeWire(ws) + tail;
      Assoc(EncodeWireField(f), EncodeWire(ws[1..]), tail);
      Assoc(f.tag, EncodeBody(f.body), others);
      KeyExtends(f.tag, EncodeBody(f.body) + others, f.number, TypeOf(f.body));
      SkipConsumesField(f.body, f.number, others, depth);
      assert s[..|s| - |others|] == EncodeWireField(f);
      Assoc(cur.unknown, EncodeWireField(f), EncodeWire(ws[1..]));
      UnknownThen(env, id, cur.(unknown := cur.unknown + EncodeWireField(f)), ws[1..], tail, depth);
    }
  }

  lemma {:induction false} ElemMerges(env: Env, e: Elem, cur: Value, v: Value, tail: bytes, depth: nat)
    requires ValidEnv(env) && ElemOk(env, e, cur) && ElemOk(env, e, v) && ElemKnown(env, e, v)
    requires depth <= MAX_DEPTH && |EncodeElem(env, e, v)| < TWO_64
    ensures ParseElem(env, e, cur, EncodeElem(env, e, v) + tail, depth)
      == Outcome(ElemFits(env, e, v, depth), (ElemMerge(env, e, cur, v), tail))
    decreases v, 1
  {
    match e
    case Num(s) => ScalarParses(s, v.n, tail);
    case Str => LenDelimRoundTrip(v.b, tail);
    case Msg(id) =>
      assert MessageOk(env, env[id], v) && MessageOk(env, env[id], cur);
      LenDelimRoundTrip(EncodeMessage(env, env[id], v), tail);
      MessageMerges(env, id, cur, v, depth);
      if EncodeMessage(env, env[id], v) == [] {
        EmptyMessageMerges(env, env[id], cur, v);
      }
  }

  /** Reading an encoding into any target merges the value into it. */
  lemma {:induction false} MessageMerges(env: Env, id: nat, cur: Value, v: Value, depth: nat)
    requires ValidEnv(env) && id < |env| && MessageOk(env, env[id], cur)
    requires MessageOk(env, env[id], v) && MessageKnown(env, env[id], v)
    requires depth <= MAX_DEPTH && |EncodeMessage(env, env[id], v)| < TWO_64
    ensures ParseMessage(env, id, cur, EncodeMessage(env, env[id], v), depth)
      == Outcome(MessageFits(env, env[id], v, depth), MessageMerge(env, env[id], cur, v))
    decreases v, 0
  {
    hide ValidEnv;
    hide MessageKnown;
    hide MessageMerge;
    var s := EncodeMessage(env, env[id], v);
    if s == [] {
      EmptyMessageMerges(env, env[id], cur, v);
    } else if depth < MAX_DEPTH {
      AllMerge(env, id, cur, v, [], depth + 1);
      assert s + [] == s;
    }
  }

  lemma {:induction false} AllMerge(env: Env, id: nat, cur: Value, v: Value, tail: bytes, depth: nat)
    requires ValidEnv(env) && id < |env| && MessageOk(env, env[id], cur)
    requires MessageOk(env, env[id], v) && MessageKnown(env, env[id], v)
    requires depth <= MAX_DEPTH && |EncodeMessage(env, env[id], v)| < TWO_64
    ensures ParseFields(env, id, cur, EncodeMessage(env, env[id], v) + tail, depth)
      == if MembersFit(env, env[id], v.members, depth) && UnknownFits(env[id], v.unknown, depth)
         then ParseFields(env, id, MessageMerge(env, env[id], cur, v), tail, depth) else Err(RecursionLimit)
    decreases v.members, |v.members| + 1
  {
    var rest := v.unknown + tail;
    Assoc(EncodeMembers(env, env[id], v.members), v.unknown, tail);
    MembersMerges(env, id, cur, v.members, 0, rest, depth);
    assert v.members[0..] == v.members && env[id][0..] == env[id];
    HalfwayStart(env, id, cur, v.members);
    var all := Merged(env, id, cur, v.members, |v.members|);
    HalfwayEnd(env, id, cur, v);
    UnknownThen(env, id, all, WireOfUnknown(env[id], v.unknown), tail, depth);
  }

  /** The target when the first `i` members have been read. */
  function Merged(env: Env, id: nat, cur: Value, ms: seq<Value>, i: nat): (v: Value)
    requires id < |env| && MessageOk(env, env[id], cur) && |ms| == |env[id]| && i <= |ms|
    requires forall j | 0 <= j < |ms| :: FieldOk(env, env[id][j], ms[j])
    ensures MessageOk(env, env[id], v)
  {
    Message(MembersMerge(env, env[id], cur.members, ms)[..i] + cur.members[i..], cur.unknown)
  }

  lemma HalfwayStart(env: Env, id: nat, cur: Value, ms: seq<Value>)
    requires id < |env| && MessageOk(env, env[id], cur) && |ms| == |env[id]|
    requires forall j | 0 <= j < |ms| :: FieldOk(env, env[id][j], ms[j])
    ensures Merged(env, id, cur, ms, 0) == cur
  {
  }

  lemma HalfwayEnd(env: Env, id: nat, cur: Value, v: Value)
    requires id < |env| && MessageOk(env, env[id], cur) && MessageOk(env, env[id], v)
    ensures var all := Merged(env, id, cur, v.members, |v.members|);
      MessageMerge(env, env[id], cur, v) == all.(unknown := all.unknown + v.unknown)
  {
  }

  lemma MergedStep(env: Env, id: nat, cur: Value, ms: seq<Value>, i: nat)
    requires id < |env| && MessageOk(env, env[id], cur) && |ms| == |env[id]| && i < |ms|
    requires forall j | 0 <= j < |ms| :: FieldOk(env, env[id][j], ms[j])
    ensures var half, f := Merged(env, id, cur, ms, i), env[id][i];
      && half.members[i] == cur.members[i]
      && half.(members := half.members[i := FieldMerge(env, f, cur.members[i], ms[i])])
        == Merged(env, id, cur, ms, i + 1)
  {
    SpliceStep(MembersMerge(env, env[id], cur.members, ms), cur.members, i);
  }

  lemma {:induction false} MembersMerges(env: Env, id: nat, cur: Value, ms: seq<Value>, i: nat, tail: bytes, depth: nat)
    requires ValidEnv(env) && id < |env| && MessageOk(env, env[id], cur) && |ms| == |env[id]| && i <= |ms|
    requires depth <= MAX_DEPTH
    requires forall j | 0 <= j < |ms| :: FieldOk(env, env[id][j], ms[j]) && FieldKnown(env, env[id][j], ms[j])
    requires |EncodeMembers(env, env[id][i..], ms[i..])| < TWO_64
    ensures ParseFields(env, id, Merged(env, id, cur, ms, i), EncodeMembers(env, env[id][i..], ms[i..]) + tail, depth)
      == if MembersFit(env, env[id][i..], ms[i..], depth)
         then ParseFields(env, id, Merged(env, id, cur, ms, |ms|), tail, depth) else Err(RecursionLimit)
    decreases ms, |ms| - i
  {
    hide Merged;
    hide ParseFields;
    hide EncodeField;
    hide FieldFits;
    hide FieldMerge;
    if i == |ms| {
      assert EncodeMembers(env, env[id][i..], ms[i..]) + tail == tail;
    } else {
      var fs := env[id];
      var enc, others := EncodeField(env, fs[i], ms[i]), EncodeMembers(env, fs[i + 1..], ms[i + 1..]);
      MembersSplit(env, fs, ms, i, tail);
      MergedStep(env, id, cur, ms, i);
      FieldMerges(env, id, Merged(env, id, cur, ms, i), i, ms[i], others + tail, depth);
      MembersMerges(env, id, cur, ms, i + 1, tail, depth);
      FitSplits(env, fs[i..], ms[i..], depth);
      assert fs[i..][1..] == fs[i + 1..] && ms[i..][1..] == ms[i + 1..];
    }
  }

  lemma {:induction false} FieldMerges(env: Env, id: nat, cur: Value, i: nat, v: Value, tail: bytes, depth: nat)
    requires ValidEnv(env) && id < |env| && MessageOk(env, env[id], cur) && i < |env[id]| && depth <= MAX_DEPTH
    requires FieldOk(env, env[id][i], v) && FieldKnown(env, env[id][i], v)
    requires |EncodeField(env, env[id][i], v)| < TWO_64
    ensures var f := env[id][i];
      Reads(env, id, cur, i, EncodeField(env, f, v), tail, depth, FieldFits(env, f, v, depth),
            FieldMerge(env, f, cur.members[i], v))
    decreases v, 3, 1
  {
    hide Reads;
    var f := env[id][i];
    if EncodeField(env, f, v) == [] {
      EmptyFieldMerges(env, f, cur.members[i], v);
      EmptyFieldFits(env, f, v, depth);
      ReadsNothing(env, id, cur, i, tail, depth);
    } else {
      match f
      case Single(no, e) => SingleMerges(env, id, cur, i, v, tail, depth);
      case Optional(no, e, _) => OptionalMerges(env, id, cur, i, v, tail, depth);
      case Repeated(no, e) =>
        if e.Num? {
          PackedMerges(env, id, cur, i, v.items, tail, depth);
          assert ItemsBack(env, e, v.items) == v.items;
        } else {
          ItemsParse(env, id, cur, i, v.items, cur.members[i].items, tail, depth);
        }
      case MapOf(no, k, e) => EntriesMerges(env, id, cur, i, v.kvs, tail, depth);
      case Oneof(cases, _) => CaseMerges(env, id, cur, i, v, tail, depth);
    }
  }

  lemma {:induction false} SingleMerges(env: Env, id: nat, cur: Value, i: nat, v: Value, tail: bytes, depth: nat)
    requires ValidEnv(env) && id < |env| && MessageOk(env, env[id], cur) && i < |env[id]| && depth <= MAX_DEPTH
    requires env[id][i].Single? && FieldOk(env, env[id][i], v) && FieldKnown(env, env[id][i], v)
    requires 0 < |EncodeField(env, env[id][i], v)| < TWO_64
    ensures var f := env[id][i];
      Reads(env, id, cur, i, EncodeField(env, f, v), tail, depth, FieldFits(env, f, v, depth),
            FieldMerge(env, f, cur.members[i], v))
    decreases v, 2
  {
    var f := env[id][i];
    var enc := EncodeElem(env, f.elem, v);
    Assoc(TagBytes(f.no, WireOf(f.elem)), enc, tail);
    TagReaches(env, id, cur, i, 0, WireOf(f.elem), enc + tail, depth);
    ElemMerges(env, f.elem, cur.members[i], v, tail, depth);
  }

  lemma {:induction false} OptionalMerges(env: Env, id: nat, cur: Value, i: nat, v: Value, tail: bytes, depth: nat)
    requires ValidEnv(env) && id < |env| && MessageOk(env, env[id], cur) && i < |env[id]| && depth <= MAX_DEPTH
    requires env[id][i].Optional? && FieldOk(env, env[id][i], v) && FieldKnown(env, env[id][i], v)
    requires 0 < |EncodeField(env, env[id][i], v)| < TWO_64
    ensures var f := env[id][i];
      Reads(env, id, cur, i, EncodeField(env, f, v), tail, depth, FieldFits(env, f, v, depth),
            FieldMerge(env, f, cur.members[i], v))
    decreases v, 2
  {
    var f := env[id][i];
    var enc := EncodeElem(env, f.elem, v.v);
    assert ValidFields(env, env[id]) && ValidField(env, f);
    Assoc(TagBytes(f.no, WireOf(f.elem)), enc, tail);
    TagReaches(env, id, cur, i, 0, WireOf(f.elem), enc + tail, depth);
    if cur.members[i].Nothing? {
      ElemParses(env, f.elem, v.v, tail, depth);
    } else {
      ElemMerges(env, f.elem, cur.members[i].v, v.v, tail, depth);
    }
  }

  lemma {:induction false} CaseMerges(env: Env, id: nat, cur: Value, i: nat, v: Value, tail: bytes, depth: nat)
    requires ValidEnv(env) && id < |env| && MessageOk(env, env[id], cur) && i < |env[id]| && depth <= MAX_DEPTH
    requires env[id][i].Oneof? && FieldOk(env, env[id][i], v) && FieldKnown(env, env[id][i], v)
    requires 0 < |EncodeField(env, env[id][i], v)| < TWO_64
    ensures var f := env[id][i];
      Reads(env, id, cur, i, EncodeField(env, f, v), tail, depth, FieldFits(env, f, v, depth),
            FieldMerge(env, f, cur.members[i], v))
    decreases v, 2
  {
    var f := env[id][i];
    var e := f.cases[v.index].elem;
    var enc := EncodeElem(env, e, v.v);
    assert ValidFields(env, env[id]) && ValidField(env, f);
    Assoc(TagBytes(f.cases[v.index].no, WireOf(e)), enc, tail);
    TagReaches(env, id, cur, i, v.index, WireOf(e), enc + tail, depth);
    ElemParses(env, e, v.v, tail, depth);
  }

  lemma PackedMerges(env: Env, id: nat, cur: Value, i: nat, items: seq<Value>, tail: bytes, depth: nat)
    requires ValidEnv(env) && id < |env| && MessageOk(env, env[id], cur) && i < |env[id]|
    requires var f := env[id][i]; f.Repeated? && f.elem.Num? && FieldOk(env, f, List(items)) && items != []
    requires |EncodeField(env, env[id][i], List(items))| < TWO_64
    requires cur.members[i].List?
    ensures FieldOk(env, env[id][i], List(cur.members[i].items + items))
    ensures Reads(env, id, cur, i, EncodeField(env, env[id][i], List(items)), tail, depth, true,
                  List(cur.members[i].items + items))
  {
    var f := env[id][i];
    assert FieldOk(env, f, cur.members[i]);
    var payload := EncodePacked(env, f.elem, items);
    Assoc(TagBytes(f.no, LengthDelimited), LenDelim(payload), tail);
    TagReaches(env, id, cur, i, 0, LengthDelimited, LenDelim(payload) + tail, depth);
    LenDelimRoundTrip(payload, tail);
    PackedBlockParses(env, f.elem.s, items);
  }

  lemma {:induction false} OneEntryMerges(env: Env, id: nat, cur: Value, i: nat, kv: Entry, tail: bytes, depth: nat)
    requires ValidEnv(env) && id < |env| && MessageOk(env, env[id], cur) && i < |env[id]| && depth <= MAX_DEPTH
    requires env[id][i].MapOf? && cur.members[i].Entries? && !env[id][i].key.Msg?
    requires ElemOk(env, env[id][i].key, kv.key) && ElemOk(env, env[id][i].value, kv.value)
    requires EntryKnown(env, env[id][i].value, kv)
    requires |EncodeEntry(env, env[id][i].no, env[id][i].key, env[id][i].value, kv)| < TWO_64
    ensures var f := env[id][i];
      var next := Entries(InsertOrAssign(cur.members[i].kvs, EntryBack(env, f.value, kv)));
      FieldOk(env, f, next) &&
      Reads(env, id, cur, i, EncodeEntry(env, f.no, f.key, f.value, kv), tail, depth,
            EntryFits(env, f.value, kv, depth), next)
    decreases kv, 2
  {
    hide ReadVarint;
    hide ReadLenDelim;
    hide ParseEntry;
    hide InsertOrAssign;
    hide EntryBack;
    hide EntryFits;
    var f := env[id][i];
    assert ValidFields(env, env[id]) && ValidField(env, f) && FieldOk(env, f, cur.members[i]);
    var body := EntryBody(env, f.key, f.value, kv);
    Assoc(TagBytes(f.no, LengthDelimited), LenDelim(body), tail);
    TagReaches(env, id, cur, i, 0, LengthDelimited, LenDelim(body) + tail, depth);
    BodyInEntry(env, f.no, f.key, f.value, kv);
    LenDelimRoundTrip(body, tail);
    EntryBodyParses(env, f.key, f.value, kv, depth);
    EntryInserted(env, f, cur.members[i], EntryBack(env, f.value, kv));
    NotNothing(body, tail);
  }

  lemma {:induction false} EntriesMerges(env: Env, id: nat, cur: Value, i: nat, kvs: seq<Entry>, tail: bytes,
      depth: nat)
    requires ValidEnv(env) && id < |env| && MessageOk(env, env[id], cur) && i < |env[id]| && depth <= MAX_DEPTH
    requires env[id][i].MapOf? && cur.members[i].Entries?
    requires EntriesKnown(env, env[id][i].key, env[id][i].value, kvs)
    requires |EncodeEntries(env, env[id][i].no, env[id][i].key, env[id][i].value, kvs)| < TWO_64
    ensures var f := env[id][i];
      var next := Entries(EntriesMerge(env, f.value, cur.members[i].kvs, kvs));
      FieldOk(env, f, next) &&
      Reads(env, id, cur, i, EncodeEntries(env, f.no, f.key, f.value, kvs), tail, depth,
            EntriesFit(env, f.key, f.value, kvs, depth), next)
    decreases kvs
  {
    hide EncodeEntry;
    hide EntryFits;
    hide EntryBack;
    hide ParseFields;
    var f := env[id][i];
    if kvs == [] {
      ReadsNothing(env, id, cur, i, tail, depth);
    } else {
      var kv, others := kvs[0], EncodeEntries(env, f.no, f.key, f.value, kvs[1..]);
      assert ValidFields(env, env[id]) && ValidField(env, f) && FieldOk(env, f, cur.members[i]);
      EntriesSplit(env, f.key, f.value, kvs, [], depth);
      OneEntryMerges(env, id, cur, i, kv, others + tail, depth);
      var next := Entries(InsertOrAssign(cur.members[i].kvs, EntryBack(env, f.value, kv)));
      EntriesMerges(env, id, cur.(members := cur.members[i := next]), i, kvs[1..], tail, depth);
      ReadsThen(env, id, cur, i, EncodeEntry(env, f.no, f.key, f.value, kv), others, tail, depth,
                EntryFits(env, f.value, kv, depth), next,
                EntriesFit(env, f.key, f.value, kvs[1..], depth),
                Entries(EntriesMerge(env, f.value, next.kvs, kvs[1..])));
    }
  }

  // ----- one encoding behind another -------------------------------------------------------------

  /** Reading two encodings one behind the other merges the second value into the first. */
  lemma ConcatenationMerges(env: Env, id: nat, cur: Value, v: Value, w: Value, depth: nat)
    requires ValidEnv(env) && id < |env| && MessageOk(env, env[id], cur) && depth < MAX_DEPTH
    requires MessageOk(env, env[id], v) && MessageKnown(env, env[id], v) && |EncodeMessage(env, env[id], v)| < TWO_64
    requires MessageOk(env, env[id], w) && MessageKnown(env, env[id], w) && |EncodeMessage(env, env[id], w)| < TWO_64
    ensures ParseMessage(env, id, cur, EncodeMessage(env, env[id], v) + EncodeMessage(env, env[id], w), depth)
      == Outcome(MessageFits(env, env[id], v, depth) && MessageFits(env, env[id], w, depth),
                 MessageMerge(env, env[id], MessageMerge(env, env[id], cur, v), w))
  {
    hide MessageMerge;
    hide ParseFields;
    hide MessageFits;
    hide EncodeMessage;
    var s, t := EncodeMessage(env, env[id], v), EncodeMessage(env, env[id], w);
    var first := MessageMerge(env, env[id], cur, v);
    MergeThen(env, id, cur, v, t, depth + 1);
    MergeThen(env, id, first, w, [], depth + 1);
    AllFieldsRead(env, id, MessageMerge(env, env[id], first, w), depth + 1);
    assert t + [] == t;
    if s + t == [] {
      EmptyMessageMerges(env, env[id], cur, v);
      EmptyMessageMerges(env, env[id], cur, w);
      NothingFits(env, env[id], v, depth);
      NothingFits(env, env[id], w, depth);
    }
  }

  lemma NothingFits(env: Env, fs: seq<Field>, v: Value, depth: nat)
    requires MessageOk(env, fs, v) && MessageKnown(env, fs, v) && EncodeMessage(env, fs, v) == []
    ensures MessageFits(env, fs, v, depth)
  {
  }

  /** An encoding, perhaps an empty one, and what follows it. */
  lemma MergeThen(env: Env, id: nat, cur: Value, v: Value, tail: bytes, depth: nat)
    requires ValidEnv(env) && id < |env| && MessageOk(env, env[id], cur) && 0 < depth <= MAX_DEPTH
    requires MessageOk(env, env[id], v) && MessageKnown(env, env[id], v) && |EncodeMessage(env, env[id], v)| < TWO_64
    ensures ParseFields(env, id, cur, EncodeMessage(env, env[id], v) + tail, depth)
      == if MessageFits(env, env[id], v, depth - 1)
         then ParseFields(env, id, MessageMerge(env, env[id], cur, v), tail, depth) else Err(RecursionLimit)
  {
    hide MessageMerge;
    hide ParseFields;
    if EncodeMessage(env, env[id], v) == [] {
      EmptyMessageMerges(env, env[id], cur, v);
      assert [] + tail == tail;
    } else {
      AllMerge(env, id, cur, v, tail, depth);
    }
  }

  lemma AllFieldsRead(env: Env, id: nat, cur: Value, depth: nat)
    requires ValidEnv(env) && id < |env| && MessageOk(env, env[id], cur)
    ensures ParseFields(env, id, cur, [], depth) == Ok(cur)
  {
  }
}
