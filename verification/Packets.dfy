/** The packet layer of the MySQL client: frames of at most 0xffffff bytes, length-encoded
  * integers and nullable strings, and the classification of row packets. */
module Packets {
  import opened Powers
  import opened Wire
  import opened Wrappers

  datatype Failure = TruncatedPacket | InvalidLenenc | LenencOverflow | EndOfStream

  datatype Outcome<+T> = Done(value: T) | Failed(failure: Failure)

  // ----- little-endian words ------------------------------------------------------------------------

  lemma {:induction false} WordRoundTrip(v: nat, width: nat)
    requires (width == 2 && v < 0x1_0000) || (width == 3 && v < 0x100_0000) || (width == 8 && v < TWO_64)
    ensures FixedValue(FixedBytes(v, width)) == v
  {
    FixedLowBytes(v, width);
    assert Power(16) == 0x1_0000 && Power(24) == 0x100_0000 by { SmallPowers(); }
    if width == 8 {
      FixedRoundTrip(v, 8);
    }
  }

  lemma SmallPowers()
    ensures Power(16) == 0x1_0000 && Power(24) == 0x100_0000
  {
    assert Power(8) == 256;
    assert Power(16) == 0x1_0000;
  }

  function TakeWord(s: bytes, width: nat): Outcome<(nat, bytes)> {
    if |s| < width then Failed(TruncatedPacket) else Done((FixedValue(s[..width]), s[width..]))
  }

  // ----- length-encoded values --------------------------------------------------------------------------

  function LenencBytes(v: nat): (s: bytes)
    ensures 1 <= |s| <= 9
  {
    if v < 0xfb then [v]
    else if v <= 0xffff then [0xfc] + FixedBytes(v, 2)
    else if v <= 0xff_ffff then [0xfd] + FixedBytes(v, 3)
    else [0xfe] + FixedBytes(v, 8)
  }

  function ReadLenencInt(s: bytes): Outcome<(nat, bytes)> {
    if s == [] then Failed(TruncatedPacket)
    else if s[0] < 0xfb then Done((s[0], s[1..]))
    else if s[0] == 0xfc then TakeWord(s[1..], 2)
    else if s[0] == 0xfd then TakeWord(s[1..], 3)
    else if s[0] == 0xfe then TakeWord(s[1..], 8)
    else Failed(InvalidLenenc)
  }

  function NullableBytes(v: Option<bytes>): bytes {
    if v.None? then [0xfb] else LenencBytes(|v.value|) + v.value
  }

  function ReadNullable(s: bytes): Outcome<(Option<bytes>, bytes)> {
    if s != [] && s[0] == 0xfb then Done((None, s[1..]))
    else
      var len := ReadLenencInt(s);
      if len.Failed? then Failed(len.failure)
      else if len.value.0 > |len.value.1| then Failed(LenencOverflow)
      else Done((Some(len.value.1[..len.value.0]), len.value.1[len.value.0..]))
  }

  function RowBytes(row: seq<Option<bytes>>): bytes {
    if row == [] then [] else NullableBytes(row[0]) + RowBytes(row[1..])
  }

  function ReadRow(s: bytes, columns: nat): Outcome<seq<Option<bytes>>>
    decreases columns
  {
    if columns == 0 then Done([])
    else
      var first := ReadNullable(s);
      if first.Failed? then Failed(first.failure)
      else
        var others := ReadRow(first.value.1, columns - 1);
        if others.Failed? then others else Done([first.value.0] + others.value)
  }

  // ----- writing and reading them as it is done ----------------------------------------------------------

  method AppendWord(out: Writer, value: nat, width: nat)
    modifies out
    ensures out.out == old(out.out) + FixedBytes(value, width)
  {
    var v := value;
    for i := 0 to width
      invariant out.out + FixedBytes(v, width - i) == old(out.out) + FixedBytes(value, width)
    {
      ghost var before := out.out;
      out.Write([v % 256]);
      Assoc(before, [v % 256], FixedBytes(v / 256, width - i - 1));
      v := v / 256;
    }
  }

  method AppendLenencInt(out: Writer, value: nat)
    modifies out
    ensures out.out == old(out.out) + LenencBytes(value)
  {
    if value < 0xfb {
      out.Write([value]);
      return;
    }
    var (mark, width) := if value <= 0xffff then (0xfc, 2) else if value <= 0xff_ffff then (0xfd, 3) else (0xfe, 8);
    ghost var before := out.out;
    out.Write([mark]);
    AppendWord(out, value, width);
    Assoc(before, [mark], FixedBytes(value, width));
  }

  method AppendLenencString(out: Writer, value: bytes)
    modifies out
    ensures out.out == old(out.out) + NullableBytes(Some(value))
  {
    ghost var before := out.out;
    AppendLenencInt(out, |value|);
    out.Write(value);
    Assoc(before, LenencBytes(|value|), value);
  }

  class PacketReader {
    const data: bytes
    var cur: nat

    constructor (data: bytes)
      ensures this.data == data && cur == 0
    {
      this.data := data;
      cur := 0;
    }

    ghost predicate Valid()
      reads this
    {
      cur <= |data|
    }

    ghost function Ahead(): bytes
      reads this
      requires Valid()
    {
      data[cur..]
    }

    method TakeLe(width: nat) returns (r: Outcome<nat>)
      requires Valid()
      modifies this
      ensures Valid()
      ensures match TakeWord(old(Ahead()), width)
        case Done(v) => r == Done(v.0) && Ahead() == v.1
        case Failed(f) => r == Failed(f)
    {
      if |data| - cur < width {
        return Failed(TruncatedPacket);
      }
      assert data[cur..][..width] == data[cur..cur + width];
      r := Done(FixedValue(data[cur..cur + width]));
      cur := cur + width;
    }

    method LenencInt() returns (r: Outcome<nat>)
      requires Valid()
      modifies this
      ensures Valid()
      ensures match ReadLenencInt(old(Ahead()))
        case Done(v) => r == Done(v.0) && Ahead() == v.1
        case Failed(f) => r == Failed(f)
    {
      if cur == |data| {
        return Failed(TruncatedPacket);
      }
      var first := data[cur];
      cur := cur + 1;
      if first < 0xfb {
        return Done(first);
      }
      if first == 0xfc {
        r := TakeLe(2);
      } else if first == 0xfd {
        r := TakeLe(3);
      } else if first == 0xfe {
        r := TakeLe(8);
      } else {
        r := Failed(InvalidLenenc);
      }
    }

    /** `read_lenenc_string_optional` */
    method LenencString() returns (r: Outcome<Option<bytes>>)
      requires Valid()
      modifies this
      ensures Valid()
      ensures match ReadNullable(old(Ahead()))
        case Done(v) => r == Done(v.0) && Ahead() == v.1
        case Failed(f) => r == Failed(f)
    {
      if cur < |data| && data[cur] == 0xfb {
        cur := cur + 1;
        return Done(None);
      }
      var len := LenencInt();
      if len.Failed? {
        return Failed(len.failure);
      }
      var n := len.value;
      if n > |data| - cur {
        return Failed(LenencOverflow);
      }
      assert data[cur..][..n] == data[cur..cur + n];
      r := Done(Some(data[cur..cur + n]));
      cur := cur + n;
    }
  }

  /** `parse_text_row` */
  method ParseTextRow(payload: bytes, columns: nat) returns (r: Outcome<seq<Option<bytes>>>)
    ensures r == ReadRow(payload, columns)
  {
    var rd := new PacketReader(payload);
    var row: seq<Option<bytes>> := [];
    assert payload[0..] == payload;
    PutNothing(ReadRow(payload, columns));
    for i := 0 to columns
      invariant rd.Valid()
      invariant ReadRow(payload, columns) == Put(row, ReadRow(rd.Ahead(), columns - i))
    {
      ghost var ahead := rd.Ahead();
      var field := rd.LenencString();
      if field.Failed? {
        return Failed(field.failure);
      }
      PutOne(row, field.value, ReadRow(rd.Ahead(), columns - i - 1));
      row := row + [field.value];
    }
    assert row + [] == row;
    r := Done(row);
  }

  function Put(row: seq<Option<bytes>>, r: Outcome<seq<Option<bytes>>>): Outcome<seq<Option<bytes>>> {
    if r.Failed? then r else Done(row + r.value)
  }

  lemma PutNothing(r: Outcome<seq<Option<bytes>>>)
    ensures Put([], r) == r
  {
    if r.Done? {
      assert [] + r.value == r.value;
    }
  }

  lemma PutOne(row: seq<Option<bytes>>, field: Option<bytes>, r: Outcome<seq<Option<bytes>>>)
    ensures Put(row, Put([field], r)) == Put(row + [field], r)
  {
    if r.Done? {
      assert row + ([field] + r.value) == row + [field] + r.value;
    }
  }

  // ----- round trips -----------------------------------------------------------------------------------------

  lemma LenencIntRoundTrip(v: nat, rest: bytes)
    requires v < TWO_64
    ensures ReadLenencInt(LenencBytes(v) + rest) == Done((v, rest))
  {
    var s := LenencBytes(v) + rest;
    if v < 0xfb {
      assert s[1..] == rest;
    } else {
      var width := if v <= 0xffff then 2 else if v <= 0xff_ffff then 3 else 8;
      WordRoundTrip(v, width);
      WordThenRest(s[0], FixedBytes(v, width), rest);
    }
  }

  lemma WordThenRest(mark: byte, word: bytes, rest: bytes)
    ensures var s := [mark] + word + rest;
      s[1..][..|word|] == word && s[1..][|word|..] == rest
  {
  }

  lemma NullableRoundTrip(v: Option<bytes>, rest: bytes)
    requires v.Some? ==> |v.value| < TWO_64
    ensures ReadNullable(NullableBytes(v) + rest) == Done((v, rest))
  {
    if v.Some? {
      LenencIntRoundTrip(|v.value|, v.value + rest);
      Assoc(LenencBytes(|v.value|), v.value, rest);
      assert (v.value + rest)[..|v.value|] == v.value;
      assert (v.value + rest)[|v.value|..] == rest;
    } else {
      assert ([0xfb] + rest)[1..] == rest;
    }
  }

  ghost predicate Representable(row: seq<Option<bytes>>) {
    forall i | 0 <= i < |row| :: row[i].Some? ==> |row[i].value| < TWO_64
  }

  lemma {:induction false} RowRoundTrip(row: seq<Option<bytes>>, rest: bytes)
    requires Representable(row)
    ensures ReadRow(RowBytes(row) + rest, |row|) == Done(row)
  {
    if row != [] {
      Assoc(NullableBytes(row[0]), RowBytes(row[1..]), rest);
      NullableRoundTrip(row[0], RowBytes(row[1..]) + rest);
      RowRoundTrip(row[1..], rest);
      assert row == [row[0]] + row[1..];
    }
  }

  /** A row that was cut short is an error, never a shorter row. */
  lemma {:induction false} CutRowFails(row: seq<Option<bytes>>, n: nat)
    requires Representable(row) && n < |RowBytes(row)|
    ensures ReadRow(RowBytes(row)[..n], |row|).Failed?
  {
    if row != [] {
      var first, others := NullableBytes(row[0]), RowBytes(row[1..]);
      if n < |first| {
        assert RowBytes(row)[..n] == first[..n];
        CutNullableFails(row[0], n);
      } else {
        assert RowBytes(row)[..n] == first + others[..n - |first|];
        NullableRoundTrip(row[0], others[..n - |first|]);
        CutRowFails(row[1..], n - |first|);
      }
    }
  }

  lemma CutNullableFails(v: Option<bytes>, n: nat)
    requires (v.Some? ==> |v.value| < TWO_64) && n < |NullableBytes(v)|
    ensures ReadNullable(NullableBytes(v)[..n]).Failed?
  {
    if v.Some? && n > 0 {
      var len := LenencBytes(|v.value|);
      if n < |len| {
        assert NullableBytes(v)[..n] == len[..n];
      } else {
        assert NullableBytes(v)[..n] == len + v.value[..n - |len|];
        LenencIntRoundTrip(|v.value|, v.value[..n - |len|]);
      }
    }
  }

  // ----- classification ----------------------------------------------------------------------------------------

  predicate IsErrPacket(payload: bytes) {
    payload != [] && payload[0] == 0xff
  }

  predicate LooksLikeEofPacket(payload: bytes) {
    |payload| < 9 && payload != [] && payload[0] == 0xfe
  }

  /** A row with at least one column is never taken for the end of the rows or for an error. */
  lemma RowIsNeitherEofNorErr(row: seq<Option<bytes>>)
    requires row != [] && Representable(row)
    ensures !IsErrPacket(RowBytes(row)) && !LooksLikeEofPacket(RowBytes(row))
  {
    assert RowBytes(row)[0] == NullableBytes(row[0])[0];
    assert |RowBytes(row)| >= |NullableBytes(row[0])|;
  }

  // ----- frames --------------------------------------------------------------------------------------------------

  const MAX_CHUNK: nat := 0xff_ffff

  function Frame(chunk: bytes, seq_: byte): bytes
    requires |chunk| <= MAX_CHUNK
  {
    FixedBytes(|chunk|, 3) + [seq_] + chunk
  }

  function Following(seq_: byte): byte {
    (seq_ + 1) % 256
  }

  /** A payload on the wire: full frames as long as there are as many bytes, then a shorter,
    * perhaps empty, last one. */
  function Frames(payload: bytes, seq_: byte): bytes
    decreases |payload|
  {
    if |payload| < MAX_CHUNK then Frame(payload, seq_)
    else Frame(payload[..MAX_CHUNK], seq_) + Frames(payload[MAX_CHUNK..], Following(seq_))
  }

  function FrameCount(payload: bytes): nat {
    |payload| / MAX_CHUNK + 1
  }

  /** One packet read from a stream: payload, the next sequence number, the rest of the stream. */
  function ReadFrames(input: bytes): Outcome<(bytes, byte, bytes)>
    decreases |input|
  {
    if |input| < 4 then Failed(EndOfStream)
    else
      var size := FixedValue(input[..3]);
      var body := input[4..];
      if |body| < size then Failed(EndOfStream)
      else if size != MAX_CHUNK then Done((body[..size], Following(input[3]), body[size..]))
      else
        var later := ReadFrames(body[size..]);
        if later.Failed? then later
        else Done((body[..size] + later.value.0, later.value.1, later.value.2))
  }

  lemma FrameStart(chunk: bytes, seq_: byte, rest: bytes)
    requires |chunk| <= MAX_CHUNK
    ensures var s := Frame(chunk, seq_) + rest;
      && |s| >= 4 && FixedValue(s[..3]) == |chunk| && s[3] == seq_
      && |s[4..]| >= |chunk| && s[4..][..|chunk|] == chunk && s[4..][|chunk|..] == rest
  {
    var s := Frame(chunk, seq_) + rest;
    WordRoundTrip(|chunk|, 3);
    assert s[..3] == FixedBytes(|chunk|, 3);
    assert s[4..] == chunk + rest;
  }

  /** Whatever the payload, also an empty one or an exact multiple of the chunk size: reading the
    * frames returns it, leaves the rest of the stream, and the reader's next sequence number is
    * the writer's. */
  lemma {:induction false} FramesRoundTrip(payload: bytes, seq_: byte, rest: bytes)
    ensures ReadFrames(Frames(payload, seq_) + rest)
      == Done((payload, ((seq_ + FrameCount(payload)) % 256) as byte, rest))
    decreases |payload|
  {
    hide Frame;
    hide FrameCount;
    if |payload| < MAX_CHUNK {
      FrameStart(payload, seq_, rest);
      FramesStep([], payload, seq_);
    } else {
      var chunk, tail := payload[..MAX_CHUNK], payload[MAX_CHUNK..];
      var later := Frames(tail, Following(seq_));
      Assoc(Frame(chunk, seq_), later, rest);
      FrameStart(chunk, seq_, later + rest);
      FramesRoundTrip(tail, Following(seq_), rest);
      FramesStep([], payload, seq_);
      CountAhead(seq_, FrameCount(tail));
      assert payload == chunk + tail;
    }
  }

  lemma FramesStep(before: bytes, tail: bytes, seq_: byte)
    ensures |tail| < MAX_CHUNK ==> Frames(tail, seq_) == Frame(tail, seq_) && FrameCount(tail) == 1
    ensures |tail| >= MAX_CHUNK ==>
      var (chunk, others) := (tail[..MAX_CHUNK], tail[MAX_CHUNK..]);
      && before + Frames(tail, seq_) == before + Frame(chunk, seq_) + Frames(others, Following(seq_))
      && FrameCount(tail) == FrameCount(others) + 1
  {
    if |tail| >= MAX_CHUNK {
      var chunk, others := tail[..MAX_CHUNK], tail[MAX_CHUNK..];
      Assoc(before, Frame(chunk, seq_), Frames(others, Following(seq_)));
      assert |tail| / MAX_CHUNK == |others| / MAX_CHUNK + 1;
    } else {
      assert |tail| / MAX_CHUNK == 0;
    }
  }

  lemma CountAhead(start: byte, n: nat)
    ensures (Following(start) + n) % 256 == (start + (n + 1)) % 256
  {
  }

  lemma CountOn(start: byte, n: nat)
    ensures Following((start + n) % 256) == (start + (n + 1)) % 256
  {
  }

  lemma SliceTwice(s: bytes, from: nat, n: nat)
    requires from + n <= |s|
    ensures s[from..][..n] == s[from..from + n] && s[from..][n..] == s[from + n..]
    ensures n == |s| - from ==> s[from..] == s[from..from + n] && s[from + n..] == []
  {
  }

  function Prepend(payload: bytes, r: Outcome<(bytes, byte, bytes)>): Outcome<(bytes, byte, bytes)> {
    if r.Failed? then r else Done((payload + r.value.0, r.value.1, r.value.2))
  }

  lemma PrependTwice(a: bytes, b: bytes, r: Outcome<(bytes, byte, bytes)>)
    ensures Prepend(a, Prepend(b, r)) == Prepend(a + b, r)
  {
    if r.Done? {
      Assoc(a, b, r.value.0);
    }
  }

  lemma PrependNothing(r: Outcome<(bytes, byte, bytes)>)
    ensures Prepend([], r) == r
  {
    if r.Done? {
      assert [] + r.value.0 == r.value.0;
    }
  }

  class Connection {
    var sequenceId: byte
    var output: bytes
    var input: bytes

    constructor (input: bytes)
      ensures sequenceId == 0 && output == [] && this.input == input
    {
      sequenceId, output, this.input := 0, [], input;
    }

    method WriteFrame(chunk: bytes)
      requires |chunk| <= MAX_CHUNK
      modifies this
      ensures output == old(output) + Frame(chunk, old(sequenceId))
      ensures sequenceId == Following(old(sequenceId)) && input == old(input)
    {
      output := output + (FixedBytes(|chunk|, 3) + [sequenceId] + chunk);
      sequenceId := (sequenceId + 1) % 256;
    }

    method WritePacket(payload: bytes)
      modifies this
      ensures output == old(output) + Frames(payload, old(sequenceId))
      ensures sequenceId == (old(sequenceId) + FrameCount(payload)) % 256
      ensures input == old(input)
    {
      hide Frames;
      hide Frame;
      hide FrameCount;
      var offset := 0;
      ghost var frames: nat := 0;
      assert payload[0..] == payload;
      while true
        invariant offset <= |payload| && input == old(input) && (offset > 0 ==> offset < |payload|)
        invariant output + Frames(payload[offset..], sequenceId) == old(output) + Frames(payload, old(sequenceId))
        invariant sequenceId == (old(sequenceId) + frames) % 256
        invariant frames + FrameCount(payload[offset..]) == FrameCount(payload)
        decreases |payload| - offset
      {
        var remaining := |payload| - offset;
        var size := if remaining < MAX_CHUNK then remaining else MAX_CHUNK;
        FramesStep(output, payload[offset..], sequenceId);
        SliceTwice(payload, offset, size);
        WriteFrame(payload[offset..offset + size]);
        CountOn(old(sequenceId), frames);
        frames := frames + 1;
        offset := offset + size;
        if size == MAX_CHUNK && offset == |payload| {
          FramesStep(output, [], sequenceId);
          WriteFrame([]);
          CountOn(old(sequenceId), frames);
          break;
        }
        if offset >= |payload| {
          break;
        }
      }
    }

    method ReadPacket() returns (r: Outcome<bytes>)
      modifies this
      ensures output == old(output)
      ensures match ReadFrames(old(input))
        case Done(p) => r == Done(p.0) && sequenceId == p.1 && input == p.2
        case Failed(f) => r == Failed(f)
    {
      var payload: bytes := [];
      PrependNothing(ReadFrames(input));
      while true
        invariant output == old(output)
        invariant ReadFrames(old(input)) == Prepend(payload, ReadFrames(input))
        decreases |input|
      {
        if |input| < 4 {
          return Failed(EndOfStream);
        }
        var size := FixedValue(input[..3]);
        sequenceId := Following(input[3]);
        input := input[4..];
        if |input| < size {
          return Failed(EndOfStream);
        }
        var chunk := input[..size];
        input := input[size..];
        PrependTwice(payload, chunk, ReadFrames(input));
        payload := payload + chunk;
        if size != MAX_CHUNK {
          break;
        }
      }
      r := Done(payload);
    }
  }
}
