/** The packets byte by byte: where the sizes, the sequence numbers and the chunks of a payload
  * are, and which bytes a length-encoded integer takes. */
module PacketLayout {
  import opened Wire
  import opened Wrappers
  import opened Packets

  // ----- words -----------------------------------------------------------------------------------

  lemma Words(v: nat)
    ensures v < 0x1_0000 ==> FixedBytes(v, 2) == [v % 0x100, v / 0x100]
    ensures v < 0x100_0000 ==> FixedBytes(v, 3) == [v % 0x100, v / 0x100 % 0x100, v / 0x1_0000]
  {
    assert FixedBytes(v / 256 / 256 / 256, 0) == [];
    assert FixedBytes(v / 256 / 256, 1) == [v / 256 / 256 % 256];
    assert FixedBytes(v / 256, 2) == [v / 256 % 256, v / 256 / 256 % 256];
    assert FixedBytes(v / 256 / 256, 0) == [];
    assert FixedBytes(v / 256, 1) == [v / 256 % 256];
  }

  /** Byte `i` of a little-endian word is worth `256^i`. */
  function Worth(s: bytes): nat {
    if s == [] then 0 else Worth(s[..|s| - 1]) + s[|s| - 1] * Place(|s| - 1)
  }

  function Place(i: nat): nat {
    if i == 0 then 1 else 256 * Place(i - 1)
  }

  lemma {:induction false} WorthFirst(s: bytes)
    requires s != []
    ensures Worth(s) == s[0] + 256 * Worth(s[1..])
  {
    if |s| > 1 {
      WorthFirst(s[..|s| - 1]);
      assert s[..|s| - 1][1..] == s[1..][..|s| - 2];
    } else {
      assert s[1..] == [] && s[..0] == [];
    }
  }

  lemma {:induction false} ValueIsWorth(s: bytes)
    ensures FixedValue(s) == Worth(s)
  {
    if s != [] {
      ValueIsWorth(s[1..]);
      WorthFirst(s);
    }
  }

  // ----- length-encoded integers -------------------------------------------------------------------

  /** One byte up to 250, and otherwise a mark and two, three or eight bytes, whichever first
    * suffice; 251 alone stands for NULL. */
  lemma LenencForms(v: nat)
    requires v < TWO_64
    ensures var s := LenencBytes(v);
      if v <= 250 then s == [v]
      else
        && Worth(s[1..]) == v
        && (if v < 0x1_0000 then s[0] == 252 && |s| == 3
          else if v < 0x100_0000 then s[0] == 253 && |s| == 4
          else s[0] == 254 && |s| == 9)
    ensures NullableBytes(None) == [251]
  {
    if v > 250 {
      var width := if v <= 0xffff then 2 else if v <= 0xff_ffff then 3 else 8;
      WordRoundTrip(v, width);
      assert LenencBytes(v)[1..] == FixedBytes(v, width);
      ValueIsWorth(FixedBytes(v, width));
    }
  }

  /** What a reader makes of the first byte, also of integers that are longer than they need be. */
  lemma LenencRead(first: byte, word: bytes, rest: bytes)
    requires |word| == (if first == 252 then 2 else if first == 253 then 3 else if first == 254 then 8 else 0)
    ensures ReadLenencInt([first] + word + rest)
      == (if first <= 250 then Done((first, rest))
          else if first == 251 || first == 255 then Failed(InvalidLenenc)
          else Done((Worth(word), rest)))
  {
    WordThenRest(first, word, rest);
    ValueIsWorth(word);
  }

  // ----- frames ------------------------------------------------------------------------------------

  /** The bytes of a stream of chunks: the size of each, lowest byte first, its number, the chunk. */
  function Stream(chunks: seq<bytes>, number: byte): bytes
    requires forall i | 0 <= i < |chunks| :: |chunks[i]| < 0x100_0000
  {
    if chunks == [] then []
    else
      var n := |chunks[0]|;
      [n % 0x100, n / 0x100 % 0x100, n / 0x1_0000, number] + chunks[0] + Stream(chunks[1..], (number + 1) % 256)
  }

  function Joined(chunks: seq<bytes>): bytes {
    if chunks == [] then [] else chunks[0] + Joined(chunks[1..])
  }

  /** Every chunk is full but the last one, which is shorter. */
  predicate FullButLast(chunks: seq<bytes>) {
    && chunks != [] && |chunks[|chunks| - 1]| < 0xFF_FFFF
    && forall i | 0 <= i < |chunks| - 1 :: |chunks[i]| == 0xFF_FFFF
  }

  lemma FrameIsStream(chunk: bytes, number: byte)
    requires |chunk| < 0x100_0000
    ensures Frame(chunk, number)
      == [|chunk| % 0x100, |chunk| / 0x100 % 0x100, |chunk| / 0x1_0000, number] + chunk
  {
    Words(|chunk|);
  }

  lemma OneChunk(chunk: bytes, others: seq<bytes>)
    ensures ([chunk] + others)[1..] == others && ([chunk] + others)[0] == chunk
  {
  }

  /** Every payload is sent as full chunks and a shorter last one, numbered from the connection's
    * sequence number on. */
  lemma {:induction false} FramesAreStream(payload: bytes, number: byte) returns (chunks: seq<bytes>)
    ensures Joined(chunks) == payload && FullButLast(chunks)
    ensures forall i | 0 <= i < |chunks| :: |chunks[i]| < 0x100_0000
    ensures Frames(payload, number) == Stream(chunks, number)
    decreases |payload|
  {
    hide Frame;
    hide Joined;
    if |payload| < MAX_CHUNK {
      chunks := [payload];
      assert chunks[1..] == [];
      FrameIsStream(payload, number);
      LastChunk(payload);
      assert Stream(chunks[1..], (number + 1) % 256) == [];
      assert Frames(payload, number) == Frame(payload, number) + [];
    } else {
      var chunk, tail := payload[..MAX_CHUNK], payload[MAX_CHUNK..];
      var others := FramesAreStream(tail, Following(number));
      chunks := [chunk] + others;
      OneChunk(chunk, others);
      FrameIsStream(chunk, number);
      ChunkThenOthers(chunk, others);
      assert payload == chunk + tail;
    }
  }

  lemma LastChunk(chunk: bytes)
    ensures Joined([chunk]) == chunk
  {
    assert [chunk][1..] == [] && Joined([]) == [];
  }

  lemma ChunkThenOthers(chunk: bytes, others: seq<bytes>)
    ensures Joined([chunk] + others) == chunk + Joined(others)
  {
    assert ([chunk] + others)[1..] == others;
  }

  /** And only such a cut joins to the payload, so this is the only form. */
  lemma {:induction false} CutIsUnique(chunks: seq<bytes>, others: seq<bytes>)
    requires FullButLast(chunks) && FullButLast(others) && Joined(chunks) == Joined(others)
    ensures chunks == others
  {
    if |chunks| == 1 {
      ShortIsOne(chunks, others);
    } else if |others| == 1 {
      ShortIsOne(others, chunks);
    } else {
      var c, d := chunks[0], others[0];
      assert c == Joined(chunks)[..0xFF_FFFF] && d == Joined(others)[..0xFF_FFFF];
      assert Joined(chunks[1..]) == Joined(chunks)[0xFF_FFFF..] && Joined(others[1..]) == Joined(others)[0xFF_FFFF..];
      CutIsUnique(chunks[1..], others[1..]);
      assert chunks == [c] + chunks[1..] && others == [d] + others[1..];
    }
  }

  lemma ShortIsOne(chunks: seq<bytes>, others: seq<bytes>)
    requires |chunks| == 1 && FullButLast(chunks) && FullButLast(others) && Joined(chunks) == Joined(others)
    ensures chunks == others
  {
    LastChunk(chunks[0]);
    LastChunk(others[0]);
    assert chunks == [chunks[0]];
    assert |Joined(others)| >= |others[0]|;
    assert others == [others[0]];
  }

  /** A stream that ends before the last frame does is an error wherever it is cut. */
  lemma {:induction false} CutFramesFail(payload: bytes, number: byte, n: nat)
    requires n < |Frames(payload, number)|
    ensures ReadFrames(Frames(payload, number)[..n]) == Failed(EndOfStream)
    decreases |payload|
  {
    hide Frame;
    var chunk := if |payload| < MAX_CHUNK then payload else payload[..MAX_CHUNK];
    var first := Frame(chunk, number);
    var all := Frames(payload, number);
    if n < |first| {
      assert all[..n] == first[..n];
      CutFrameFails(chunk, number, n);
    } else {
      var later := Frames(payload[MAX_CHUNK..], Following(number));
      assert all[..n] == first + later[..n - |first|];
      CutFramesFail(payload[MAX_CHUNK..], Following(number), n - |first|);
      FrameStart(chunk, number, later[..n - |first|]);
    }
  }

  lemma CutFrameFails(chunk: bytes, number: byte, n: nat)
    requires |chunk| <= MAX_CHUNK && n < |Frame(chunk, number)|
    ensures ReadFrames(Frame(chunk, number)[..n]) == Failed(EndOfStream)
  {
    var f := Frame(chunk, number);
    if n >= 4 {
      FrameStart(chunk, number, []);
      assert f + [] == f && f[..n][..3] == f[..3];
    }
  }

  // ----- what is refused -----------------------------------------------------------------------------

  /** A value that is cut within its length, and one that is shorter than its length says. */
  lemma CutValueFails(v: bytes, n: nat)
    requires |v| < TWO_64 && n < |NullableBytes(Some(v))|
    ensures ReadNullable(NullableBytes(Some(v))[..n])
      == Failed(if n < |LenencBytes(|v|)| then TruncatedPacket else LenencOverflow)
  {
    var len := LenencBytes(|v|);
    var s := NullableBytes(Some(v))[..n];
    if n < |len| {
      assert s == len[..n];
    } else {
      assert s == len + v[..n - |len|];
      LenencIntRoundTrip(|v|, v[..n - |len|]);
    }
  }

  // ----- packet kinds --------------------------------------------------------------------------------

  /** Error packets begin with 255; a short packet that begins with 254 ends the rows. */
  lemma PacketKinds(payload: bytes)
    ensures IsErrPacket(payload) <==> payload != [] && payload[0] == 255
    ensures LooksLikeEofPacket(payload) <==> 1 <= |payload| <= 8 && payload[0] == 254
  {
  }
}
