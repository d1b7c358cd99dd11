/** When the two passes agree.  A skipped record (`Gap`) delays every later record by one, so the
  * output is right only when nothing but empty messages comes after the first gap; a record has
  * 32 bits, so every nested message must be smaller than 4 GiB; and the length of a map entry is
  * computed from casts to 32 bits.
  */
module TwoPassProof {
  import opened Wire
  import opened Schema
  import opened Sizes
  import opened TwoPass

  // ----- records behind a gap ------------------------------------------------------------

  function Zeros(g: nat): (z: seq<nat>)
    ensures |z| == g
  {
    seq(g, _ => 0)
  }

  /** With `g` skipped records pending, is every length still read correctly? */
  predicate InStep(evs: seq<Event>, g: nat) {
    evs == [] ||
    match evs[0]
    case Slot(n, _) => (g == 0 || n == 0) && n < TWO_32 && InStep(evs[1..], g)
    case Gap => InStep(evs[1..], g + 1)
  }

  function Gaps(evs: seq<Event>): nat {
    if evs == [] then 0 else (if evs[0].Gap? then 1 else 0) + Gaps(evs[1..])
  }

  lemma {:induction false} InStepConcat(a: seq<Event>, b: seq<Event>, g: nat)
    ensures InStep(a + b, g) <==> InStep(a, g) && InStep(b, g + Gaps(a))
    ensures Gaps(a + b) == Gaps(a) + Gaps(b)
  {
    if a == [] {
      assert a + b == b;
    } else {
      assert (a + b)[1..] == a[1..] + b;
      InStepConcat(a[1..], b, if a[0].Gap? then g + 1 else g);
    }
  }

  /** A non-empty message is visited after a skipped record. */
  ghost predicate Overtaken(evs: seq<Event>) {
    exists i, j :: 0 <= i < j < |evs| && evs[i].Gap? && evs[j].Slot? && evs[j].size > 0
  }

  /** A message does not fit its record. */
  ghost predicate Oversized(evs: seq<Event>) {
    exists i :: 0 <= i < |evs| && evs[i].Slot? && evs[i].size >= TWO_32
  }

  lemma {:induction false} InStepFromGap(evs: seq<Event>, g: nat)
    requires g > 0
    ensures InStep(evs, g) <==> forall j | 0 <= j < |evs| :: evs[j].Slot? ==> evs[j].size == 0
  {
    if evs != [] {
      InStepFromGap(evs[1..], if evs[0].Gap? then g + 1 else g);
      assert forall j | 0 < j < |evs| :: evs[j] == evs[1..][j - 1];
    }
  }

  /** Behind the first record. */
  lemma OvertakenTail(evs: seq<Event>)
    requires evs != []
    ensures Oversized(evs) <==> Oversized(evs[1..]) || (evs[0].Slot? && evs[0].size >= TWO_32)
    ensures evs[0].Slot? ==> (Overtaken(evs) <==> Overtaken(evs[1..]))
  {
    var rest := evs[1..];
    assert forall j | 0 < j < |evs| :: evs[j] == rest[j - 1];
    if Oversized(rest) {
      var i :| 0 <= i < |rest| && rest[i].Slot? && rest[i].size >= TWO_32;
      assert evs[i + 1].Slot?;
    }
    if Overtaken(rest) {
      var i, j :| 0 <= i < j < |rest| && rest[i].Gap? && rest[j].Slot? && rest[j].size > 0;
      assert evs[i + 1].Gap? && evs[j + 1].Slot?;
    }
    if evs[0].Slot? && Overtaken(evs) {
      var i, j :| 0 <= i < j < |evs| && evs[i].Gap? && evs[j].Slot? && evs[j].size > 0;
      assert rest[i - 1].Gap? && rest[j - 1].Slot?;
    }
  }

  lemma FirstIsGap(evs: seq<Event>)
    requires evs != [] && evs[0].Gap?
    ensures Overtaken(evs) || Oversized(evs) <==>
      exists j :: 0 <= j < |evs[1..]| && evs[1..][j].Slot? && evs[1..][j].size > 0
  {
    var rest := evs[1..];
    if j :| 0 <= j < |rest| && rest[j].Slot? && rest[j].size > 0 {
      assert evs[j + 1].Slot? && evs[j + 1].size > 0;
    }
    if Overtaken(evs) {
      var i, j :| 0 <= i < j < |evs| && evs[i].Gap? && evs[j].Slot? && evs[j].size > 0;
      assert rest[j - 1].Slot?;
    }
    if Oversized(evs) {
      var i :| 0 <= i < |evs| && evs[i].Slot? && evs[i].size >= TWO_32;
      assert rest[i - 1].Slot?;
    }
  }

  lemma {:induction false} InStepMeaning(evs: seq<Event>)
    ensures InStep(evs, 0) <==> !Overtaken(evs) && !Oversized(evs)
  {
    hide Overtaken;
    hide Oversized;
    if evs == [] {
      NothingOvertaken();
    } else if evs[0].Gap? {
      InStepFromGap(evs[1..], 1);
      FirstIsGap(evs);
    } else {
      OvertakenTail(evs);
      InStepMeaning(evs[1..]);
    }
  }

  lemma NothingOvertaken()
    ensures !Overtaken([]) && !Oversized([])
  {
  }

  // ----- map entries -------------------------------------------------------------------------

  /** A string that is the key or value of a map has a length whose cast is harmless. */
  predicate PartOk(e: Elem, v: Value) {
    e.Str? && v.Bytes? ==> Harmless(|v.b|)
  }

  predicate PairOk(k: Elem, e: Elem, kv: Entry) {
    PartOk(k, kv.key) && PartOk(e, kv.value)
  }

  predicate PairsOk(k: Elem, e: Elem, kvs: seq<Entry>) {
    forall i | 0 <= i < |kvs| :: PairOk(k, e, kvs[i])
  }

  predicate MapOk(f: Field, v: Value) {
    f.MapOf? && v.Entries? ==> PairsOk(f.key, f.value, v.kvs)
  }

  ghost predicate MapsOk(fs: seq<Field>, ms: seq<Value>)
    requires |fs| == |ms|
  {
    forall i | 0 <= i < |fs| :: MapOk(fs[i], ms[i])
  }

  lemma MapsOkTail(fs: seq<Field>, ms: seq<Value>)
    requires |fs| == |ms| > 0
    ensures MapsOk(fs, ms) <==> MapOk(fs[0], ms[0]) && MapsOk(fs[1..], ms[1..])
  {
    assert forall i | 0 < i < |fs| :: fs[i] == fs[1..][i - 1] && ms[i] == ms[1..][i - 1];
  }

  lemma PairsOkTail(k: Elem, e: Elem, kvs: seq<Entry>)
    requires kvs != []
    ensures PairsOk(k, e, kvs) <==> PairOk(k, e, kvs[0]) && PairsOk(k, e, kvs[1..])
  {
    assert forall i | 0 < i < |kvs| :: kvs[i] == kvs[1..][i - 1];
  }

  lemma SmallPart(env: Env, no: nat, e: Elem, v: Value)
    requires ElemOk(env, e, v) && |Occurrence(env, no, e, v)| < TWO_32
    ensures PartOk(e, v)
  {
    if e.Str? {
      SmallIsHarmless(|v.b|);
    }
  }

  lemma PartsInEntry(env: Env, no: nat, k: Elem, e: Elem, kv: Entry)
    requires ElemOk(env, k, kv.key) && ElemOk(env, e, kv.value)
    ensures |Occurrence(env, 1, k, kv.key)| <= |EncodeEntry(env, no, k, e, kv)|
    ensures |Occurrence(env, 2, e, kv.value)| <= |EncodeEntry(env, no, k, e, kv)|
  {
    assert |EncodeEntry(env, no, k, e, kv)| >= |EntryBody(env, k, e, kv)|;
  }

  lemma {:induction false} SmallPairs(env: Env, no: nat, k: Elem, e: Elem, kvs: seq<Entry>)
    requires forall i | 0 <= i < |kvs| :: ElemOk(env, k, kvs[i].key) && ElemOk(env, e, kvs[i].value)
    requires |EncodeEntries(env, no, k, e, kvs)| < TWO_32
    ensures PairsOk(k, e, kvs)
  {
    hide Occurrence;
    hide PartOk;
    if kvs != [] {
      PartsInEntry(env, no, k, e, kvs[0]);
      SmallPart(env, 1, k, kvs[0].key);
      SmallPart(env, 2, e, kvs[0].value);
      SmallPairs(env, no, k, e, kvs[1..]);
      PairsOkTail(k, e, kvs);
    }
  }

  /** Below 4 GiB no cast does harm. */
  lemma {:induction false} SmallMaps(env: Env, fs: seq<Field>, ms: seq<Value>)
    requires |fs| == |ms| && forall i | 0 <= i < |fs| :: FieldOk(env, fs[i], ms[i])
    requires |EncodeMembers(env, fs, ms)| < TWO_32
    ensures MapsOk(fs, ms)
  {
    if fs != [] {
      if fs[0].MapOf? {
        SmallPairs(env, fs[0].no, fs[0].key, fs[0].value, ms[0].kvs);
      }
      SmallMaps(env, fs[1..], ms[1..]);
      MapsOkTail(fs, ms);
    }
  }

  // ----- outputs that part ways -------------------------------------------------------------

  /** The two differ at a position inside both. */
  predicate Diverges(a: bytes, b: bytes) {
    a != [] && b != [] && (a[0] != b[0] || Diverges(a[1..], b[1..]))
  }

  lemma {:induction false} DivergesAfter(p: bytes, a: bytes, b: bytes)
    requires Diverges(a, b)
    ensures Diverges(p + a, p + b)
  {
    if p == [] {
      assert p + a == a && p + b == b;
    } else {
      DivergesAfter(p[1..], a, b);
      assert (p + a)[1..] == p[1..] + a && (p + b)[1..] == p[1..] + b;
    }
  }

  lemma {:induction false} DivergesBefore(a: bytes, b: bytes, x: bytes, y: bytes)
    requires Diverges(a, b)
    ensures Diverges(a + x, b + y)
    ensures a != b
  {
    if a[0] == b[0] {
      DivergesBefore(a[1..], b[1..], x, y);
      assert (a + x)[1..] == a[1..] + x && (b + y)[1..] == b[1..] + y;
    }
  }

  /** Varints are prefix-free. */
  lemma {:induction false} VarintsDiverge(m: nat, n: nat)
    requires m != n
    ensures Diverges(VarintBytes(m), VarintBytes(n))
  {
    if m >= 128 && n >= 128 && m % 128 == n % 128 {
      VarintsDiverge(m / 128, n / 128);
    }
  }

  // ----- the invariant of pass two --------------------------------------------------------------

  /** What emitting a part with events `evs` gives when `g` skipped records are pending; `ok`
    * says whether the lengths of its map entries come out right. */
  ghost predicate Faithful(r: Emitted, enc: bytes, evs: seq<Event>, g: nat, ok: bool, tail: seq<nat>) {
    if ok && InStep(evs, g) then r == (enc, Zeros(g + Gaps(evs)) + tail) else Diverges(r.0, enc)
  }

  function Pending(g: nat, evs: seq<Event>, tail: seq<nat>): (t: seq<nat>)
    ensures |t| >= |evs|
  {
    Zeros(g) + TableOf(evs) + tail
  }

  lemma PendingConcat(g: nat, a: seq<Event>, b: seq<Event>, tail: seq<nat>)
    ensures Pending(g, a + b, tail) == Pending(g, a, TableOf(b) + tail)
    ensures Zeros(g) + (TableOf(b) + tail) == Pending(g, b, tail)
  {
    TableOfConcat(a, b);
  }

  lemma FaithfulConcat(r: Emitted, q: Emitted, enc1: bytes, enc2: bytes, a: seq<Event>, b: seq<Event>,
                       g: nat, ok1: bool, ok2: bool, tail: seq<nat>)
    requires Faithful(r, enc1, a, g, ok1, TableOf(b) + tail)
    requires ok1 && InStep(a, g) ==> Faithful(q, enc2, b, g + Gaps(a), ok2, tail)
    ensures Faithful((r.0 + q.0, q.1), enc1 + enc2, a + b, g, ok1 && ok2, tail)
  {
    InStepConcat(a, b, g);
    if !ok1 || !InStep(a, g) {
      DivergesBefore(r.0, enc1, q.0, enc2);
    } else if !ok2 || !InStep(b, g + Gaps(a)) {
      DivergesAfter(enc1, q.0, enc2);
    }
  }

  /** A part that reads no record. */
  lemma FaithfulPlain(enc: bytes, g: nat, tail: seq<nat>)
    ensures Faithful((enc, Pending(g, [], tail)), enc, [], g, true, tail)
  {
    assert Pending(g, [], tail) == Zeros(g) + tail;
  }

  lemma {:induction false} ElemFaithful(env: Env, no: nat, e: Elem, v: Value, g: nat, tail: seq<nat>)
    requires ElemOk(env, e, v)
    ensures var evs := ElemEvents(env, e, v, false);
      Faithful(EmitElem(env, no, e, v, Pending(g, evs, tail)), Occurrence(env, no, e, v), evs, g, true, tail)
    decreases v, 1
  {
    if !e.Msg? {
      FaithfulPlain(Occurrence(env, no, e, v), g, tail);
    } else {
      assert MessageOk(env, env[e.id], v);
      MessageFaithful(env, no, e, v, g, tail);
    }
  }

  /** A record holds the size of its message, if that has 32 bits. */
  predicate Records(size: nat, record: nat) {
    record < TWO_32 && record <= size && (size < TWO_32 ==> record == size)
  }

  lemma MessageRecord(env: Env, fs: seq<Field>, v: Value)
    requires MessageOk(env, fs, v)
    ensures Records(|EncodeMessage(env, fs, v)|, PredictMessage(env, fs, v) % TWO_32)
  {
    MessageExact(env, fs, v);
  }

  lemma {:induction false} MessageFaithful(env: Env, no: nat, e: Elem, v: Value, g: nat, tail: seq<nat>)
    requires ElemOk(env, e, v) && e.Msg?
    ensures var evs := ElemEvents(env, e, v, false);
      Faithful(EmitElem(env, no, e, v, Pending(g, evs, tail)), Occurrence(env, no, e, v), evs, g, true, tail)
    decreases v, 0
  {
    hide Faithful;
    var fs := env[e.id];
    assert MessageOk(env, fs, v);
    var inner := MemberEvents(env, fs, v.members);
    var enc := EncodeMembers(env, fs, v.members);
    var record := PredictMessage(env, fs, v) % TWO_32;
    var evs := [Slot(|enc + v.unknown|, record)] + inner;
    var tab := Pending(g, evs, tail);
    EmptyHasNoEvents(env, fs, v.members);
    MessageRecord(env, fs, v);
    if g == 0 && |enc + v.unknown| < TWO_32 {
      MembersFaithful(env, fs, v.members, 0, tail);
      SmallMaps(env, fs, v.members);
    }
    HeadOfPending(|enc + v.unknown|, record, inner, g, tail);
    var r := EmitMembers(env, fs, v.members, tab[1..]);
    MessageConclusion(TagBytes(no, LengthDelimited), enc, v.unknown, record, inner, g, tail, r);
  }

  lemma HeadOfPending(n: nat, record: nat, inner: seq<Event>, g: nat, tail: seq<nat>)
    requires Records(n, record)
    ensures var tab := Pending(g, [Slot(n, record)] + inner, tail);
      if g == 0 then tab[0] == record && tab[1..] == Pending(0, inner, tail)
      else tab[0] == 0 && (n == 0 && inner == [] ==> tab[1..] == Zeros(g) + tail)
  {
    assert TableOf([Slot(n, record)] + inner) == [record] + TableOf(inner);
  }

  /** How `EmitElem` puts a message together, and what that gives. */
  function Enclosed(tag: bytes, size: nat, rest: seq<nat>, r: Emitted, unknown: bytes): Emitted {
    if size == 0 then (tag + VarintBytes(0), rest) else (tag + VarintBytes(size) + r.0 + unknown, r.1)
  }

  lemma MessageConclusion(tag: bytes, enc: bytes, unknown: bytes, record: nat, inner: seq<Event>, g: nat,
                          tail: seq<nat>, r: Emitted)
    requires Records(|enc + unknown|, record) && (|enc + unknown| == 0 ==> inner == [])
    requires g == 0 && |enc + unknown| < TWO_32 ==> Faithful(r, enc, inner, 0, true, tail)
    ensures
      var evs := [Slot(|enc + unknown|, record)] + inner;
      var tab := Pending(g, evs, tail);
      Faithful(Enclosed(tag, tab[0], tab[1..], r, unknown), tag + LenDelim(enc + unknown), evs, g, true, tail)
  {
    var body := enc + unknown;
    var evs := [Slot(|body|, record)] + inner;
    HeadOfPending(|body|, record, inner, g, tail);
    assert evs[1..] == inner;
    if |body| == 0 {
      assert tag + VarintBytes(0) == tag + LenDelim(body);
      assert InStep(inner, g) && Gaps(inner) == 0 && TableOf(inner) == [];
      assert Pending(g, evs, tail)[1..] == Zeros(g) + tail;
    } else if g > 0 || |body| >= TWO_32 {
      EnclosedDiverges(tag, if g > 0 then 0 else record, Pending(g, evs, tail)[1..], r, unknown, body);
    } else {
      MessageBody(tag + VarintBytes(|body|), r, enc, unknown, inner, tail);
      assert tag + LenDelim(body) == tag + VarintBytes(|body|) + body;
    }
  }

  lemma EnclosedDiverges(tag: bytes, size: nat, rest: seq<nat>, r: Emitted, unknown: bytes, body: bytes)
    requires size != |body|
    ensures Diverges(Enclosed(tag, size, rest, r, unknown).0, tag + LenDelim(body))
  {
    if size == 0 {
      LengthDiverges(tag, 0, [], |body|, body);
      assert tag + VarintBytes(0) + [] == tag + VarintBytes(0);
    } else {
      LengthDiverges(tag, size, r.0 + unknown, |body|, body);
      Assoc(tag + VarintBytes(size), r.0, unknown);
    }
  }

  lemma LengthDiverges(tag: bytes, m: nat, x: bytes, n: nat, y: bytes)
    requires m != n
    ensures Diverges(tag + VarintBytes(m) + x, tag + LenDelim(y)) || n != |y|
  {
    VarintsDiverge(m, n);
    DivergesBefore(VarintBytes(m), VarintBytes(n), x, y);
    DivergesAfter(tag, VarintBytes(m) + x, VarintBytes(n) + y);
    assert tag + VarintBytes(m) + x == tag + (VarintBytes(m) + x);
  }

  /** Around the members: the head before them, the unknown fields after. */
  lemma MessageBody(head: bytes, r: Emitted, enc: bytes, unknown: bytes, evs: seq<Event>, tail: seq<nat>)
    requires Faithful(r, enc, evs, 0, true, tail)
    ensures Faithful((head + r.0 + unknown, r.1), head + (enc + unknown), evs, 0, true, tail)
  {
    assert head + r.0 + unknown == head + (r.0 + unknown);
    if !InStep(evs, 0) {
      DivergesBefore(r.0, enc, unknown, unknown);
      DivergesAfter(head, r.0 + unknown, enc + unknown);
    }
  }

  lemma {:induction false} MembersFaithful(env: Env, fs: seq<Field>, ms: seq<Value>, g: nat, tail: seq<nat>)
    requires |fs| == |ms| && forall i | 0 <= i < |fs| :: FieldOk(env, fs[i], ms[i])
    ensures var evs := MemberEvents(env, fs, ms);
      Faithful(EmitMembers(env, fs, ms, Pending(g, evs, tail)), EncodeMembers(env, fs, ms), evs, g,
               MapsOk(fs, ms), tail)
    decreases ms, 0
  {
    hide InStep;
    hide Pending;
    hide Gaps;
    hide EmitField;
    hide EncodeField;
    hide FieldEvents;
    hide MapOk;
    hide Faithful;
    hide MapsOk;
    if fs == [] {
      NoMaps();
      FaithfulPlain([], g, tail);
    } else {
      var a, b := FieldEvents(env, fs[0], ms[0]), MemberEvents(env, fs[1..], ms[1..]);
      var tab := Pending(g, a + b, tail);
      PendingConcat(g, a, b, tail);
      MapsOkTail(fs, ms);
      FieldFaithful(env, fs[0], ms[0], g, TableOf(b) + tail);
      var r := EmitField(env, fs[0], ms[0], tab);
      if MapOk(fs[0], ms[0]) && InStep(a, g) {
        FaithfulRest(r, EncodeField(env, fs[0], ms[0]), a, g, TableOf(b) + tail);
        MembersFaithful(env, fs[1..], ms[1..], g + Gaps(a), tail);
        PendingConcat(g + Gaps(a), a, b, tail);
      }
      FaithfulConcat(r, EmitMembers(env, fs[1..], ms[1..], r.1), EncodeField(env, fs[0], ms[0]),
                     EncodeMembers(env, fs[1..], ms[1..]), a, b, g,
                     MapOk(fs[0], ms[0]), MapsOk(fs[1..], ms[1..]), tail);
    }
  }

  lemma NoMaps()
    ensures MapsOk([], [])
  {
  }

  lemma FaithfulRest(r: Emitted, enc: bytes, evs: seq<Event>, g: nat, tail: seq<nat>)
    requires Faithful(r, enc, evs, g, true, tail) && InStep(evs, g)
    ensures r == (enc, Zeros(g + Gaps(evs)) + tail)
  {
  }

  lemma {:induction false} FieldFaithful(env: Env, f: Field, v: Value, g: nat, tail: seq<nat>)
    requires FieldOk(env, f, v)
    ensures var evs := FieldEvents(env, f, v);
      Faithful(EmitField(env, f, v, Pending(g, evs, tail)), EncodeField(env, f, v), evs, g, MapOk(f, v), tail)
    decreases v, 3
  {
    hide Faithful;
    match f
    case Single(no, e) =>
      if IsDefault(e, v) {
        FaithfulPlain([], g, tail);
      } else {
        ElemFaithful(env, no, e, v, g, tail);
      }
    case Optional(no, e, explicit) =>
      if v.Nothing? || (!explicit && IsDefault(e, v.v)) {
        FaithfulPlain([], g, tail);
      } else {
        ElemFaithful(env, no, e, v.v, g, tail);
      }
    case Repeated(no, e) =>
      if e.Num? {
        NumbersHaveNoEvents(env, e, v.items);
        FaithfulPlain(EncodeField(env, f, v), g, tail);
      } else {
        ItemsFaithful(env, no, e, v.items, g, tail);
      }
    case MapOf(no, k, e) => EntriesFaithful(env, no, k, e, v.kvs, g, tail);
    case Oneof(cases, _) =>
      if v.Nothing? {
        FaithfulPlain([], g, tail);
      } else {
        ElemFaithful(env, cases[v.index].no, cases[v.index].elem, v.v, g, tail);
      }
  }

  lemma {:induction false} ItemsFaithful(env: Env, no: nat, e: Elem, items: seq<Value>, g: nat, tail: seq<nat>)
    requires forall i | 0 <= i < |items| :: ElemOk(env, e, items[i])
    ensures var evs := ItemEvents(env, e, items);
      Faithful(EmitItems(env, no, e, items, Pending(g, evs, tail)), EncodeItems(env, no, e, items), evs, g, true, tail)
    decreases items, 0
  {
    hide Faithful;
    hide ElemEvents;
    hide EmitElem;
    if items == [] {
      FaithfulPlain([], g, tail);
    } else {
      var a, b := ElemEvents(env, e, items[0], false), ItemEvents(env, e, items[1..]);
      PendingConcat(g, a, b, tail);
      ElemFaithful(env, no, e, items[0], g, TableOf(b) + tail);
      var r := EmitElem(env, no, e, items[0], Pending(g, a + b, tail));
      if InStep(a, g) {
        FaithfulRest(r, Occurrence(env, no, e, items[0]), a, g, TableOf(b) + tail);
        ItemsFaithful(env, no, e, items[1..], g + Gaps(a), tail);
        PendingConcat(g + Gaps(a), a, b, tail);
      }
      FaithfulConcat(r, EmitItems(env, no, e, items[1..], r.1), Occurrence(env, no, e, items[0]),
                     EncodeItems(env, no, e, items[1..]), a, b, g, true, true, tail);
    }
  }

  lemma {:induction false} EntriesFaithful(env: Env, no: nat, k: Elem, e: Elem, kvs: seq<Entry>, g: nat, tail: seq<nat>)
    requires forall i | 0 <= i < |kvs| :: ElemOk(env, k, kvs[i].key) && ElemOk(env, e, kvs[i].value)
    requires !k.Msg?
    ensures var evs := EntryEvents(env, e, kvs);
      Faithful(EmitEntries(env, no, k, e, kvs, Pending(g, evs, tail)), EncodeEntries(env, no, k, e, kvs), evs, g,
               PairsOk(k, e, kvs), tail)
    decreases kvs, 0
  {
    hide Faithful;
    hide ElemEvents;
    hide ValueEvents;
    hide EmitEntry;
    hide EncodeElem;
    hide InStep;
    hide Pending;
    hide Gaps;
    hide PairOk;
    if kvs == [] {
      FaithfulPlain([], g, tail);
    } else {
      var a, b := ValueEvents(env, e, kvs[0]), EntryEvents(env, e, kvs[1..]);
      PendingConcat(g, a, b, tail);
      PairsOkTail(k, e, kvs);
      EntryFaithful(env, no, k, e, kvs[0], g, TableOf(b) + tail);
      var r := EmitEntry(env, no, k, e, kvs[0], Pending(g, a + b, tail));
      if PairOk(k, e, kvs[0]) && InStep(a, g) {
        FaithfulRest(r, EncodeEntry(env, no, k, e, kvs[0]), a, g, TableOf(b) + tail);
        EntriesFaithful(env, no, k, e, kvs[1..], g + Gaps(a), tail);
        PendingConcat(g + Gaps(a), a, b, tail);
      }
      FaithfulConcat(r, EmitEntries(env, no, k, e, kvs[1..], r.1),
                     EncodeEntry(env, no, k, e, kvs[0]),
                     EncodeEntries(env, no, k, e, kvs[1..]), a, b, g,
                     PairOk(k, e, kvs[0]), PairsOk(k, e, kvs[1..]), tail);
    }
  }

  /** The size of a part's payload. */
  function SizeOf(env: Env, e: Elem, v: Value): nat
    requires ElemOk(env, e, v)
  {
    if e.Msg? then |EncodeMessage(env, env[e.id], v)| else PayloadSize(env, e, v)
  }

  /** The predicted length of an entry part never exceeds its length, and is exact if and only if
    * its payload's size `m` was right and, for a string, the cast of it is harmless. */
  lemma PartLengthIsExact(env: Env, no: nat, e: Elem, v: Value, m: nat)
    requires ElemOk(env, e, v) && m <= SizeOf(env, e, v) && (e.Msg? ==> m < TWO_32)
    ensures PartLength(no, e, m) <= |Occurrence(env, no, e, v)|
    ensures PartLength(no, e, m) == |Occurrence(env, no, e, v)| <==> m == SizeOf(env, e, v) && PartOk(e, v)
  {
    match e
    case Num(s) =>
    case Str => PrefixBound(m, |v.b|);
    case Msg(id) =>
      assert MessageOk(env, env[id], v);
      PrefixBound(m, |EncodeMessage(env, env[id], v)|);
      SmallIsHarmless(m);
  }

  lemma PrefixBound(m: nat, n: nat)
    requires m <= n
    ensures VariantSize32(m) <= |VarintBytes(n)|
  {
    CastShortens(m);
    VarintMonotone(m, n);
  }

  /** A plain part is written in full whichever branch `encode_pair_value` takes. */
  lemma PlainPart(env: Env, no: nat, e: Elem, v: Value, tab: seq<nat>)
    requires ElemOk(env, e, v) && !e.Msg?
    ensures EmitPart(env, no, e, v, PayloadSize(env, e, v), tab) == (Occurrence(env, no, e, v), tab)
  {
    match e
    case Num(s) => assert |EncodeScalar(s, v.n)| > 0;
    case Str =>
      if v.b == [] {
        assert LenDelim(v.b) == VarintBytes(0);
      }
  }

  /** A map entry as `to_pb_impl` assembles it. */
  function Assembled(no: nat, pair: nat, key: bytes, value: bytes): bytes {
    TagBytes(no, LengthDelimited) + VarintBytes(pair) + key + value
  }

  lemma AssembledRight(no: nat, key: bytes, value: bytes)
    ensures Assembled(no, |key| + |value|, key, value) == TagBytes(no, LengthDelimited) + LenDelim(key + value)
  {
  }

  lemma AssembledDiverges(no: nat, p: nat, q: nat, key: bytes, v1: bytes, v2: bytes)
    requires p != q || Diverges(v1, v2)
    ensures Diverges(Assembled(no, p, key, v1), Assembled(no, q, key, v2))
  {
    var tag := TagBytes(no, LengthDelimited);
    if p != q {
      VarintsDiverge(p, q);
      DivergesBefore(VarintBytes(p), VarintBytes(q), key + v1, key + v2);
      DivergesAfter(tag, VarintBytes(p) + (key + v1), VarintBytes(q) + (key + v2));
      assert Assembled(no, p, key, v1) == tag + (VarintBytes(p) + (key + v1));
      assert Assembled(no, q, key, v2) == tag + (VarintBytes(q) + (key + v2));
    } else {
      DivergesAfter(tag + VarintBytes(p) + key, v1, v2);
    }
  }

  lemma EntryUnfolds(env: Env, no: nat, k: Elem, e: Elem, kv: Entry, tab: seq<nat>, vSize: nat, part: Emitted)
    requires ElemOk(env, k, kv.key) && !k.Msg? && ElemOk(env, e, kv.value)
    requires |ValueEvents(env, e, kv)| <= |tab| && (e.Msg? ==> tab != [])
    requires vSize == if e.Msg? then tab[0] else PayloadSize(env, e, kv.value)
    requires part == EmitPart(env, 2, e, kv.value, vSize, tab)
    ensures var key := Occurrence(env, 1, k, kv.key);
      EmitEntry(env, no, k, e, kv, tab)
      == (Assembled(no, PartLength(1, k, PayloadSize(env, k, kv.key)) + PartLength(2, e, vSize), key, part.0), part.1)
  {
    PlainPart(env, 1, k, kv.key, tab);
  }

  /** An entry is right when its value part is, and the lengths of both parts are. */
  lemma EntryConclusion(no: nat, key: bytes, value: bytes, part: Emitted, kLen: nat, vLen: nat,
                        evs: seq<Event>, g: nat, ok: bool, tail: seq<nat>)
    requires kLen <= |key| && vLen <= |value|
    requires ok && InStep(evs, g) ==>
      kLen == |key| && vLen == |value| && part == (value, Zeros(g + Gaps(evs)) + tail)
    requires !ok || !InStep(evs, g) ==> kLen != |key| || vLen != |value| || Diverges(part.0, value)
    ensures Faithful((Assembled(no, kLen + vLen, key, part.0), part.1),
                     TagBytes(no, LengthDelimited) + LenDelim(key + value), evs, g, ok, tail)
  {
    hide Diverges;
    hide VarintBytes;
    hide LenDelim;
    hide TagBytes;
    hide InStep;
    hide Gaps;
    hide Zeros;
    hide Assembled;
    AssembledRight(no, key, value);
    if !ok || !InStep(evs, g) {
      AssembledDiverges(no, kLen + vLen, |key| + |value|, key, part.0, value);
    }
  }

  lemma MessageHasEvent(env: Env, e: Elem, kv: Entry)
    requires ElemOk(env, e, kv.value)
    ensures e.Msg? ==> ValueEvents(env, e, kv) != []
  {
  }

  lemma {:induction false} EntryFaithful(env: Env, no: nat, k: Elem, e: Elem, kv: Entry, g: nat, tail: seq<nat>)
    requires ElemOk(env, k, kv.key) && !k.Msg? && ElemOk(env, e, kv.value)
    ensures var evs := ValueEvents(env, e, kv);
      Faithful(EmitEntry(env, no, k, e, kv, Pending(g, evs, tail)),
               EncodeEntry(env, no, k, e, kv), evs, g, PairOk(k, e, kv), tail)
    decreases kv, 0
  {
    hide EmitPart;
    hide Occurrence;
    hide Zeros;
    hide TagBytes;
    hide LenDelim;
    hide Faithful;
    hide PartLength;
    hide EmitEntry;
    hide EmitElem;
    var evs := ValueEvents(env, e, kv);
    var tab := Pending(g, evs, tail);
    MessageHasEvent(env, e, kv);
    var kSize := PayloadSize(env, k, kv.key);
    var vSize := if e.Msg? then tab[0] else PayloadSize(env, e, kv.value);
    var part := EmitPart(env, 2, e, kv.value, vSize, tab);
    EntryUnfolds(env, no, k, e, kv, tab, vSize, part);
    if e.Msg? {
      MessagePart(env, e, kv.value, g, tail);
    } else {
      PlainPart(env, 2, e, kv.value, tab);
      assert tab == Zeros(g) + tail;
    }
    PartLengthIsExact(env, 1, k, kv.key, kSize);
    PartLengthIsExact(env, 2, e, kv.value, vSize);
    EntryConclusion(no, Occurrence(env, 1, k, kv.key), Occurrence(env, 2, e, kv.value), part,
                    PartLength(1, k, kSize), PartLength(2, e, vSize), evs, g, PairOk(k, e, kv), tail);
  }

  /** The value part of an entry whose value is a message. */
  lemma {:induction false} MessagePart(env: Env, e: Elem, v: Value, g: nat, tail: seq<nat>)
    requires ElemOk(env, e, v) && e.Msg?
    ensures
      var size := |EncodeMessage(env, env[e.id], v)|;
      var evs := ElemEvents(env, e, v, true);
      var tab := Pending(g, evs, tail);
      var part := EmitPart(env, 2, e, v, tab[0], tab);
      && tab[0] < TWO_32 && tab[0] <= size
      && if InStep(evs, g) then
          tab[0] == size && part == (Occurrence(env, 2, e, v), Zeros(g + Gaps(evs)) + tail)
        else
          tab[0] != size || Diverges(part.0, Occurrence(env, 2, e, v))
    decreases v, 1
  {
    assert MessageOk(env, env[e.id], v);
    var size := |EncodeMessage(env, env[e.id], v)|;
    var record := PredictMessage(env, env[e.id], v) % TWO_32;
    var inner := MemberEvents(env, env[e.id], v.members);
    var evs := ElemEvents(env, e, v, true);
    EmptyHasNoEvents(env, env[e.id], v.members);
    MessageRecord(env, env[e.id], v);
    if size == 0 {
      EmptyPart(env, e, v, g, tail);
    } else {
      assert evs == [Slot(size, record)] + inner;
      HeadOfPending(size, record, inner, g, tail);
      if g == 0 && size < TWO_32 {
        MessageFaithful(env, 2, e, v, 0, tail);
      } else {
        assert evs[0] == Slot(size, record);
      }
    }
  }

  /** An empty message as a map value: its record stays pending. */
  lemma EmptyPart(env: Env, e: Elem, v: Value, g: nat, tail: seq<nat>)
    requires ElemOk(env, e, v) && e.Msg? && MessageOk(env, env[e.id], v) && |EncodeMessage(env, env[e.id], v)| == 0
    ensures
      var evs := ElemEvents(env, e, v, true);
      var tab := Pending(g, evs, tail);
      && tab[0] == 0 && InStep(evs, g)
      && EmitPart(env, 2, e, v, 0, tab) == (Occurrence(env, 2, e, v), Zeros(g + Gaps(evs)) + tail)
  {
    EmptyHasNoEvents(env, env[e.id], v.members);
    var evs := ElemEvents(env, e, v, true);
    assert evs == [Gap];
    assert Pending(g, evs, tail) == Zeros(g) + [0] + tail == Zeros(g + 1) + tail;
    assert LenDelim([]) == VarintBytes(0);
    assert InStep(evs[1..], g + 1) && Gaps(evs[1..]) == 0;
  }

  // ----- the theorem ------------------------------------------------------------------------------

  /** What `to_pb` writes for a top-level message, given the table pass one made. */
  function EmitTop(env: Env, fs: seq<Field>, v: Value): bytes
    requires MessageOk(env, fs, v)
  {
    EmitMembers(env, fs, v.members, TableOf(MemberEvents(env, fs, v.members))).0 + v.unknown
  }

  /** Pass two writes the encoding if and only if no non-empty message comes after an empty one
    * that is a map value, every nested message is smaller than 4 GiB, and the casts of the lengths
    * of strings in maps are harmless.  Without such an empty value it then also ends at the end
    * of the table. */
  lemma TwoPassesAgree(env: Env, fs: seq<Field>, v: Value)
    requires MessageOk(env, fs, v)
    ensures var evs := MemberEvents(env, fs, v.members);
      && (EmitTop(env, fs, v) == EncodeMessage(env, fs, v)
        <==> !Overtaken(evs) && !Oversized(evs) && MapsOk(fs, v.members))
      && (Gaps(evs) == 0 && !Oversized(evs) && MapsOk(fs, v.members) ==>
        !Overtaken(evs) && EmitMembers(env, fs, v.members, TableOf(evs)).1 == [])
  {
    hide Overtaken;
    hide Oversized;
    hide MapsOk;
    var evs := MemberEvents(env, fs, v.members);
    var enc := EncodeMembers(env, fs, v.members);
    MembersFaithful(env, fs, v.members, 0, []);
    assert Pending(0, evs, []) == TableOf(evs);
    InStepMeaning(evs);
    NoGapsNotOvertaken(evs);
    if !InStep(evs, 0) || !MapsOk(fs, v.members) {
      DivergesBefore(EmitMembers(env, fs, v.members, TableOf(evs)).0, enc, v.unknown, v.unknown);
      DivergesBefore(EmitTop(env, fs, v), EncodeMessage(env, fs, v), [], []);
    }
  }

  /** Below 4 GiB only the empty map values matter. */
  lemma SmallPassesAgree(env: Env, fs: seq<Field>, v: Value)
    requires MessageOk(env, fs, v) && |EncodeMessage(env, fs, v)| < TWO_32
    ensures !Oversized(MemberEvents(env, fs, v.members)) && MapsOk(fs, v.members)
    ensures EmitTop(env, fs, v) == EncodeMessage(env, fs, v) <==> !Overtaken(MemberEvents(env, fs, v.members))
  {
    TwoPassesAgree(env, fs, v);
    MembersWithin(env, fs, v.members);
    SmallMaps(env, fs, v.members);
  }

  lemma {:induction false} NoGapsNotOvertaken(evs: seq<Event>)
    ensures Gaps(evs) == 0 ==> !Overtaken(evs)
  {
    if evs != [] && evs[0].Slot? {
      NoGapsNotOvertaken(evs[1..]);
      OvertakenTail(evs);
    }
  }

  const EMPTY := Message([], [])
  const FIVE := Message([Number(5)], [])
  const MAP_FIELD := MapOf(1, Num(Int32), Msg(0))
  const MESSAGE_FIELD := Single(2, Msg(1))
  const GAP_FIELDS: seq<Field> := [MAP_FIELD, MESSAGE_FIELD]
  const GAP_ENV: Env := [[], [Single(1, Num(Int32))], GAP_FIELDS]
  const GAP_MEMBERS: seq<Value> := [Entries([Entry(Number(1), EMPTY)]), FIVE]

  lemma GapEnvIsValid()
    ensures ValidEnv(GAP_ENV)
  {
    assert forall id | 0 <= id < 3 :: ValidFields(GAP_ENV, GAP_ENV[id]);
  }

  lemma GapFieldsOk()
    ensures ElemOk(GAP_ENV, Msg(0), EMPTY) && ElemOk(GAP_ENV, Msg(1), FIVE)
    ensures FieldOk(GAP_ENV, MAP_FIELD, GAP_MEMBERS[0]) && FieldOk(GAP_ENV, MESSAGE_FIELD, GAP_MEMBERS[1])
  {
    assert MessageOk(GAP_ENV, [], EMPTY);
    assert FieldOk(GAP_ENV, Single(1, Num(Int32)), Number(5));
    assert MessageOk(GAP_ENV, GAP_ENV[1], FIVE);
  }

  /** The map field encodes to six bytes and leaves a gap. */
  lemma GapMapField()
    requires FieldOk(GAP_ENV, MAP_FIELD, GAP_MEMBERS[0])
    ensures |EncodeField(GAP_ENV, MAP_FIELD, GAP_MEMBERS[0])| < 100
    ensures FieldEvents(GAP_ENV, MAP_FIELD, GAP_MEMBERS[0]) == [Gap]
  {
    var kv := Entry(Number(1), EMPTY);
    var kvs := [kv];
    assert EncodeMessage(GAP_ENV, [], EMPTY) == [];
    assert ElemEvents(GAP_ENV, Msg(0), EMPTY, true) == [Gap];
    assert EntryEvents(GAP_ENV, Msg(0), kvs) == ValueEvents(GAP_ENV, Msg(0), kv) + EntryEvents(GAP_ENV, Msg(0), []);
    assert |EncodeElem(GAP_ENV, Num(Int32), Number(1))| == 1;
    assert |EncodeElem(GAP_ENV, Msg(0), EMPTY)| == 1;
    assert |EntryBody(GAP_ENV, Num(Int32), Msg(0), kv)| == 4;
    assert |EncodeEntry(GAP_ENV, 1, Num(Int32), Msg(0), kv)| == 6;
    assert EncodeEntries(GAP_ENV, 1, Num(Int32), Msg(0), kvs)
        == EncodeEntry(GAP_ENV, 1, Num(Int32), Msg(0), kv) + EncodeEntries(GAP_ENV, 1, Num(Int32), Msg(0), []);
  }

  lemma GapMessageField()
    requires FieldOk(GAP_ENV, MESSAGE_FIELD, FIVE)
    ensures |EncodeField(GAP_ENV, MESSAGE_FIELD, FIVE)| < 100
    ensures FieldEvents(GAP_ENV, MESSAGE_FIELD, FIVE) == [Slot(2, 2)]
  {
    var fs, f := GAP_ENV[1], Single(1, Num(Int32));
    assert MessageOk(GAP_ENV, fs, FIVE);
    assert |EncodeField(GAP_ENV, f, Number(5))| == 2;
    assert EncodeMembers(GAP_ENV, fs, [Number(5)])
      == EncodeField(GAP_ENV, f, Number(5)) + EncodeMembers(GAP_ENV, [], []);
    assert MemberEvents(GAP_ENV, fs, [Number(5)]) == FieldEvents(GAP_ENV, f, Number(5)) + MemberEvents(GAP_ENV, [], []);
    assert |EncodeMessage(GAP_ENV, fs, FIVE)| == 2;
    MessageExact(GAP_ENV, fs, FIVE);
  }

  /** A map from 1 to an empty message, then a message holding 5: the second message is
    * given the length of the first. */
  lemma GapExample()
    ensures ValidEnv(GAP_ENV)
    ensures var v := Message(GAP_MEMBERS, []);
      MessageOk(GAP_ENV, GAP_FIELDS, v) &&
      EmitTop(GAP_ENV, GAP_FIELDS, v) != EncodeMessage(GAP_ENV, GAP_FIELDS, v)
  {
    GapEnvIsValid();
    hide ValidEnv;
    GapFieldsOk();
    GapMapField();
    GapMessageField();
    var v := Message(GAP_MEMBERS, []);
    assert MessageOk(GAP_ENV, GAP_FIELDS, v);
    assert GAP_FIELDS[1..] == [MESSAGE_FIELD] && GAP_MEMBERS[1..] == [FIVE];
    assert MemberEvents(GAP_ENV, [MESSAGE_FIELD], [FIVE]) == [Slot(2, 2)] + MemberEvents(GAP_ENV, [], []);
    assert |EncodeMembers(GAP_ENV, [MESSAGE_FIELD], [FIVE])| < 100;
    var evs := MemberEvents(GAP_ENV, GAP_FIELDS, GAP_MEMBERS);
    assert evs == [Gap, Slot(2, 2)];
    assert evs[0].Gap? && evs[1].Slot?;
    TwoPassesAgree(GAP_ENV, GAP_FIELDS, v);
  }

  const TEXT_FIELDS: seq<Field> := [Single(1, Str)]
  const OUTER_FIELDS: seq<Field> := [Single(1, Msg(0))]
  const OUTER_ENV: Env := [TEXT_FIELDS, OUTER_FIELDS]

  lemma {:induction false} TextMessage(s: bytes)
    requires s != []
    ensures var v := Message([Bytes(s)], []);
      MessageOk(OUTER_ENV, TEXT_FIELDS, v) && |EncodeMessage(OUTER_ENV, TEXT_FIELDS, v)| >= |s|
  {
    var v := Message([Bytes(s)], []);
    assert FieldOk(OUTER_ENV, TEXT_FIELDS[0], Bytes(s));
    assert MessageOk(OUTER_ENV, TEXT_FIELDS, v);
    assert |EncodeField(OUTER_ENV, TEXT_FIELDS[0], Bytes(s))| >= |EncodeElem(OUTER_ENV, Str, Bytes(s))| >= |s|;
    assert TEXT_FIELDS[1..] == [] && v.members[1..] == [];
    assert EncodeMembers(OUTER_ENV, TEXT_FIELDS, v.members)
      == EncodeField(OUTER_ENV, TEXT_FIELDS[0], Bytes(s)) + EncodeMembers(OUTER_ENV, [], []);
  }

  /** A message that holds a string of 4 GiB or more, inside another message, gets a length that
    * was cut to 32 bits. */
  lemma {:induction false} OversizedExample(s: bytes)
    requires |s| >= TWO_32
    ensures ValidEnv(OUTER_ENV)
    ensures var v := Message([Message([Bytes(s)], [])], []);
      MessageOk(OUTER_ENV, OUTER_FIELDS, v) &&
      EmitTop(OUTER_ENV, OUTER_FIELDS, v) != EncodeMessage(OUTER_ENV, OUTER_FIELDS, v)
  {
    assert forall id | 0 <= id < 2 :: ValidFields(OUTER_ENV, OUTER_ENV[id]);
    TextMessage(s);
    var inner := Message([Bytes(s)], []);
    var v := Message([inner], []);
    assert ElemOk(OUTER_ENV, Msg(0), inner);
    assert FieldOk(OUTER_ENV, OUTER_FIELDS[0], inner);
    assert MessageOk(OUTER_ENV, OUTER_FIELDS, v);
    var evs := MemberEvents(OUTER_ENV, OUTER_FIELDS, v.members);
    assert OUTER_FIELDS[1..] == [] && v.members[1..] == [];
    assert evs == FieldEvents(OUTER_ENV, OUTER_FIELDS[0], inner) + MemberEvents(OUTER_ENV, [], []);
    assert FieldEvents(OUTER_ENV, OUTER_FIELDS[0], inner) == ElemEvents(OUTER_ENV, Msg(0), inner, false);
    assert evs[0] == ElemEvents(OUTER_ENV, Msg(0), inner, false)[0];
    assert evs[0].Slot? && evs[0].size >= TWO_32;
    TwoPassesAgree(OUTER_ENV, OUTER_FIELDS, v);
  }
}
