/** The byte layer of iguana's Protocol Buffers codec: base 128 varints, zigzag,
  * little-endian fixed-width words and field tags.  Bytes are integers below 256, so
  * a shift by seven is a division by 128, and joining disjoint bits is an addition.
  */
module Wire {
  import opened Powers

  type byte = x: int | 0 <= x < 256
  type bytes = seq<byte>

  const TWO_31: int := 0x8000_0000
  const TWO_32: int := 0x1_0000_0000
  const TWO_63: int := 0x8000_0000_0000_0000
  const TWO_64: int := 0x1_0000_0000_0000_0000

  datatype Error =
    | TooFewBytes | TooManyBytes
    | TagTooLarge | ZeroFieldNumber | UnknownWireType | UnexpectedEndGroup
    | Truncated | BadPackedLength | WireTypeMismatch
    | MissingEndTag | MismatchedEndTag | RecursionLimit

  /** What a call returns or throws. */
  datatype Result<+T> = Ok(value: T) | Err(error: Error) {
    predicate IsFailure() { Err? }
    function PropagateFailure<U>(): Result<U>
      requires Err?
    {
      Err(error)
    }
    function Extract(): T
      requires Ok?
    {
      value
    }
  }

  /** A `std::string_view&`: the callee moves the caller's cursor. */
  class View {
    var s: bytes
    constructor (s: bytes)
      ensures this.s == s
    {
      this.s := s;
    }
  }

  /** The output stream both passes agree on. */
  class Writer {
    var out: bytes
    constructor ()
      ensures out == []
    {
      out := [];
    }

    method Write(data: bytes)
      modifies this
      ensures out == old(out) + data
    {
      out := out + data;
    }
  }

  // ----- varints ---------------------------------------------------------------

  /** The base 128 encoding, least significant group first. */
  function VarintBytes(v: nat): (s: bytes)
    ensures |s| >= 1
  {
    if v < 128 then [v] else [v % 128 + 128] + VarintBytes(v / 128)
  }

  datatype Varint = Varint(value: nat, size: nat)

  /** What a varint whose first `i` bytes are already consumed means. */
  function ReadVarint(s: bytes, i: nat := 0): (r: Result<Varint>)
    requires i <= 9
    ensures r.Ok? ==> 1 <= r.value.size <= |s| && r.value.size + i <= 10
    decreases 10 - i
  {
    if s == [] then Err(TooFewBytes)
    else if i == 9 && s[0] >= 2 then Err(TooManyBytes)
    else if s[0] < 128 then Ok(Varint(s[0], 1))
    else
      var r :- ReadVarint(s[1..], i + 1);
      Ok(Varint(s[0] - 128 + 128 * r.value, r.size + 1))
  }

  /** The values that still fit in 64 bits after `i` groups. */
  function Room(i: nat): nat
    requires i <= 9
  {
    if i == 0 then TWO_64 else Room(i - 1) / 128
  }

  lemma {:induction false} ReadVarintInRange(s: bytes, i: nat)
    requires i <= 9 && ReadVarint(s, i).Ok?
    ensures ReadVarint(s, i).value.value < Room(i)
    decreases 10 - i
  {
    RoomValues();
    if s[0] >= 128 {
      ReadVarintInRange(s[1..], i + 1);
    }
  }

  lemma RoomValues()
    ensures forall i {:trigger Room(i)} | 0 <= i < 9 :: Room(i) == 128 * Room(i + 1)
    ensures Room(9) == 2
  {
    assert Room(1) == 0x200_0000_0000_0000;
    assert Room(2) == 0x4_0000_0000_0000;
    assert Room(3) == 0x800_0000_0000;
    assert Room(4) == 0x10_0000_0000;
    assert Room(5) == 0x2000_0000;
    assert Room(6) == 0x40_0000;
    assert Room(7) == 0x8000;
    assert Room(8) == 0x100;
    assert Room(9) == 2;
  }

  /** Decoding undoes encoding and leaves the bytes that follow. */
  lemma {:induction false} VarintRoundTrip(v: nat, rest: bytes, i: nat := 0)
    requires i <= 9 && v < Room(i)
    ensures ReadVarint(VarintBytes(v) + rest, i) == Ok(Varint(v, |VarintBytes(v)|))
    ensures (VarintBytes(v) + rest)[|VarintBytes(v)|..] == rest
    decreases 10 - i
  {
    RoomValues();
    if v >= 128 {
      VarintRoundTrip(v / 128, rest, i + 1);
      assert (VarintBytes(v) + rest)[1..] == VarintBytes(v / 128) + rest;
    }
  }

  lemma Assoc<T>(a: seq<T>, b: seq<T>, c: seq<T>)
    ensures (a + b) + c == a + (b + c)
  {
  }

  method SerializeVarint(v: nat, w: Writer)
    requires v < TWO_64
    modifies w
    ensures w.out == old(w.out) + VarintBytes(v)
  {
    var x := v;
    if x < 0x80 {
      w.Write([x]);
      return;
    }
    Assoc(w.out, [x % 128 + 128], VarintBytes(x / 128));
    w.Write([x % 128 + 128]);
    x := x / 128;
    if x < 0x80 {
      w.Write([x]);
      return;
    }
    Assoc(w.out, [x % 128 + 128], VarintBytes(x / 128));
    w.Write([x % 128 + 128]);
    x := x / 128;
    while x >= 0x80
      invariant w.out + VarintBytes(x) == old(w.out) + VarintBytes(v)
    {
      Assoc(w.out, [x % 128 + 128], VarintBytes(x / 128));
      w.Write([x % 128 + 128]);
      x := x / 128;
    }
    w.Write([x]);
  }

  /** `v << (7 * i)`. */
  function Shifted(v: nat, i: nat): nat {
    if i == 0 then v else 128 * Shifted(v, i - 1)
  }

  lemma {:induction false} ShiftedSum(b: nat, v: nat, i: nat)
    ensures Shifted(b + 128 * v, i) == Shifted(b, i) + Shifted(v, i + 1)
  {
    if i > 0 {
      ShiftedSum(b, v, i - 1);
    }
  }

  /** The result for the whole input, given the value of the groups before it. */
  function Resume(r: Result<Varint>, low: nat, i: nat): Result<Varint> {
    match r
    case Ok(v) => Ok(Varint(low + Shifted(v.value, i), i + v.size))
    case Err(e) => Err(e)
  }

  lemma ResumeStart(data: bytes)
    ensures Resume(ReadVarint(data[0..], 0), 0, 0) == ReadVarint(data)
  {
    assert data[0..] == data;
  }

  /** One trip round the decoding loop. */
  lemma ResumeStep(data: bytes, low: nat, i: nat)
    requires i < |data| && i <= 9 && (i == 9 ==> data[i] < 2)
    ensures Resume(ReadVarint(data[i..], i), low, i) ==
      if data[i] < 128 then Ok(Varint(low + Shifted(data[i] % 128, i), i + 1))
      else Resume(ReadVarint(data[i + 1..], i + 1), low + Shifted(data[i] % 128, i), i + 1)
  {
    assert data[i..][1..] == data[i + 1..];
    if data[i] >= 128 {
      var r := ReadVarint(data[i + 1..], i + 1);
      if r.Ok? {
        ShiftedSum(data[i] - 128, r.value.value, i);
      }
    }
  }

  lemma ResumeTooLong(data: bytes, low: nat)
    requires |data| > 9 && data[9] >= 2
    ensures Resume(ReadVarint(data[9..], 9), low, 9) == Err(TooManyBytes)
  {
  }

  lemma ResumeTooShort(data: bytes, low: nat)
    requires |data| <= 9
    ensures Resume(ReadVarint(data[|data|..], |data|), low, |data|) == Err(TooFewBytes)
  {
  }

  method DecodeVarint(data: bytes) returns (r: Result<Varint>)
    ensures r == ReadVarint(data)
  {
    if |data| == 0 {
      return Err(TooFewBytes);
    }
    var val: nat := 0;
    var limit := if |data| < 10 then |data| else 10;
    ResumeStart(data);
    hide ReadVarint;
    hide Resume;
    hide Shifted;
    for i := 0 to limit
      invariant i <= 9
      invariant ReadVarint(data) == Resume(ReadVarint(data[i..], i), val, i)
    {
      var b: nat := data[i];
      if i == 9 && b >= 2 {
        ResumeTooLong(data, val);
        return Err(TooManyBytes);
      }
      ResumeStep(data, val, i);
      val := val + Shifted(b % 128, i);
      if b < 128 {
        return Ok(Varint(val, i + 1));
      }
    }
    if |data| >= 10 {
      return Err(TooManyBytes);
    }
    ResumeTooShort(data, val);
    return Err(TooFewBytes);
  }

  // ----- predicted varint sizes --------------------------------------------------

  /** `n | 1` */
  function OrOne(n: nat): nat { if n % 2 == 0 then n + 1 else n }

  /** `variant_uint64_size`; on values below 2^32 also `variant_uint32_size`. */
  function VariantSize(value: nat): nat {
    (Log2(OrOne(value)) * 9 + 73) / 64
  }

  lemma {:induction false} Log2Halves(n: nat)
    ensures Log2(OrOne(n)) == Log2(n)
    ensures n >= 128 ==> Log2(n) == 7 + Log2(n / 128)
  {
    if n >= 2 {
      assert OrOne(n) / 2 == n / 2;
    }
    if n >= 128 {
      assert Log2(n) == 1 + Log2(n / 2) == 2 + Log2(n / 4) == 3 + Log2(n / 8);
      assert n / 8 / 2 == n / 16 && n / 16 / 2 == n / 32 && n / 32 / 2 == n / 64 && n / 64 / 2 == n / 128;
      assert Log2(n / 8) == 1 + Log2(n / 16) == 2 + Log2(n / 32);
      assert Log2(n / 32) == 1 + Log2(n / 64) == 2 + Log2(n / 128);
    }
  }

  lemma {:induction false} VarintLength(v: nat)
    ensures |VarintBytes(v)| == Log2(v) / 7 + 1
  {
    if v >= 128 {
      VarintLength(v / 128);
      Log2Halves(v);
    } else {
      Log2Bound(v, 7);
    }
  }

  /** The multiply-and-shift size is the length of the varint, for every 64-bit value. */
  lemma VariantSizeIsExact(v: nat)
    requires v < TWO_64
    ensures VariantSize(v) == |VarintBytes(v)|
  {
    assert Power(64) == TWO_64 by { PowerValues(); }
    Log2Halves(v);
    Log2Bound(v, 64);
    VarintLength(v);
  }

  /** `variant_uint32_size_constexpr`, used for field tags. */
  method ConstexprSize(value: nat) returns (size: nat)
    ensures size == |VarintBytes(value)|
  {
    VarintLength(value);
    if value == 0 {
      return 1;
    }
    var log, v: nat := 0, value / 2;
    while v != 0
      invariant Log2(value) == log + (if v == 0 then 0 else 1 + Log2(v))
      decreases v
    {
      log := log + 1;
      v := v / 2;
    }
    return log / 7 + 1;
  }

  /** `v >> (7 * i)` */
  function Unshifted(v: nat, i: nat): nat {
    if i == 0 then v else Unshifted(v, i - 1) / 128
  }

  method SerializeVarintU32(v: nat, w: Writer)
    modifies w
    ensures w.out == old(w.out) + VarintBytes(v)
  {
    var size := ConstexprSize(v);
    for i := 0 to size - 1
      invariant w.out + VarintBytes(Unshifted(v, i)) == old(w.out) + VarintBytes(v)
      invariant |w.out| == |old(w.out)| + i
    {
      var group := Unshifted(v, i);
      Assoc(w.out, [group % 128 + 128], VarintBytes(group / 128));
      w.Write([group % 128 + 128]);
    }
    w.Write([Unshifted(v, size - 1) % 256]);
  }

  // ----- zigzag --------------------------------------------------------------------

  /** `encode_zigzag` on `bits`-bit integers: `x ^ mask` with an all-ones mask is
    * `2^bits - 1 - x`, with a zero mask it is `x`. */
  function EncodeZigzag(v: int, half: nat): nat
    requires half > 0 && -(half as int) <= v < half
  {
    var u := if v < 0 then v + 2 * half else v;
    var shifted := (2 * u) % (2 * half);
    if u / half == 1 then 2 * half - 1 - shifted else shifted
  }

  function DecodeZigzag(u: nat): int {
    if u % 2 == 1 then -1 - u / 2 else u / 2
  }

  /** Zigzag is a bijection between the signed and the unsigned range. */
  lemma ZigzagRoundTrip(v: int, half: nat)
    requires half > 0 && -(half as int) <= v < half
    ensures EncodeZigzag(v, half) == (if v < 0 then -2 * v - 1 else 2 * v) < 2 * half
    ensures DecodeZigzag(EncodeZigzag(v, half)) == v
  {
    var u := if v < 0 then v + 2 * half else v;
    if v < 0 {
      DivModOf(2 * u, 2 * half, 1, 2 * v + 2 * half);
      DivModOf(u, half, 1, u - half);
    } else {
      DivModOf(2 * u, 2 * half, 0, 2 * v);
      DivModOf(u, half, 0, v);
    }
  }

  lemma DivModOf(a: nat, d: nat, q: nat, r: nat)
    requires r < d && a == q * d + r && q <= 1
    ensures a / d == q && a % d == r
  {
  }

  // ----- fixed-width words -----------------------------------------------------------

  /** `width` little-endian bytes, as `memcpy` lays them out. */
  function FixedBytes(u: nat, width: nat): (s: bytes)
    ensures |s| == width
  {
    if width == 0 then [] else [u % 256] + FixedBytes(u / 256, width - 1)
  }

  function FixedValue(s: bytes): nat {
    if s == [] then 0 else s[0] + 256 * FixedValue(s[1..])
  }

  lemma {:induction false} FixedRoundTrip(u: nat, width: nat)
    requires (width == 4 && u < TWO_32) || (width == 8 && u < TWO_64)
    ensures FixedValue(FixedBytes(u, width)) == u
  {
    FixedLowBytes(u, width);
    assert Power(32) == TWO_32 && Power(64) == TWO_64 by { PowerValues(); }
  }

  lemma {:induction false} FixedLowBytes(u: nat, width: nat)
    ensures u < Power(8 * width) ==> FixedValue(FixedBytes(u, width)) == u
  {
    if width > 0 {
      FixedLowBytes(u / 256, width - 1);
      PowerByte(8 * (width - 1));
    }
  }

  // ----- tags ---------------------------------------------------------------------------

  datatype WireType = VarintType | Fixed64Type | LengthDelimited | StartGroup | EndGroup | Fixed32Type {
    function Code(): (c: nat)
      ensures c <= 5 && FromCode(c) == this
    {
      match this
      case VarintType => 0
      case Fixed64Type => 1
      case LengthDelimited => 2
      case StartGroup => 3
      case EndGroup => 4
      case Fixed32Type => 5
    }

    static function FromCode(c: nat): WireType
      requires c <= 5
    {
      if c == 0 then VarintType else if c == 1 then Fixed64Type
      else if c == 2 then LengthDelimited else if c == 3 then StartGroup
      else if c == 4 then EndGroup else Fixed32Type
    }
  }

  const MAX_FIELD_NUMBER: nat := 0x1fff_ffff

  function TagBytes(number: nat, wire: WireType): bytes {
    VarintBytes(number * 8 + wire.Code())
  }

  datatype Key = Key(number: nat, wire: WireType, size: nat)

  function DecodeKey(data: bytes, allowEndGroup: bool := false): (r: Result<Key>)
    ensures r.Ok? ==> 1 <= r.value.size <= |data| && 1 <= r.value.number <= MAX_FIELD_NUMBER
    ensures r.Ok? && !allowEndGroup ==> r.value.wire != EndGroup
  {
    var raw :- ReadVarint(data);
    if raw.value >= TWO_32 then Err(TagTooLarge)
    else
      var wire, number := raw.value % 8, raw.value / 8;
      if number == 0 then Err(ZeroFieldNumber)
      else if wire > 5 then Err(UnknownWireType)
      else if WireType.FromCode(wire) == EndGroup && !allowEndGroup then Err(UnexpectedEndGroup)
      else Ok(Key(number, WireType.FromCode(wire), raw.size))
  }

  lemma TagRoundTrip(number: nat, wire: WireType, rest: bytes, allowEndGroup: bool := false)
    requires 1 <= number <= MAX_FIELD_NUMBER
    requires wire == EndGroup ==> allowEndGroup
    ensures DecodeKey(TagBytes(number, wire) + rest, allowEndGroup)
         == Ok(Key(number, wire, |TagBytes(number, wire)|))
    ensures (TagBytes(number, wire) + rest)[|TagBytes(number, wire)|..] == rest
  {
    hide VarintBytes;
    hide ReadVarint;
    VarintRoundTrip(number * 8 + wire.Code(), rest);
  }

  // ----- length-delimited values -----------------------------------------------------------

  function LenDelim(payload: bytes): bytes {
    VarintBytes(|payload|) + payload
  }

  /** `decode_length_delimited` and the `substr` its callers take: payload and rest. */
  function ReadLenDelim(s: bytes): (r: Result<(bytes, bytes)>)
    ensures r.Ok? ==> |r.value.0| + |r.value.1| < |s|
  {
    var n :- ReadVarint(s);
    var body := s[n.size..];
    if n.value > |body| then Err(Truncated) else Ok((body[..n.value], body[n.value..]))
  }

  lemma LenDelimRoundTrip(payload: bytes, rest: bytes)
    requires |payload| < TWO_64
    ensures ReadLenDelim(LenDelim(payload) + rest) == Ok((payload, rest))
  {
    var s := LenDelim(payload) + rest;
    VarintRoundTrip(|payload|, payload + rest);
    assert s == VarintBytes(|payload|) + (payload + rest);
    assert (payload + rest)[..|payload|] == payload;
  }

  /** `decode_length_delimited`: moves the cursor to the payload and returns its length. */
  method DecodeLengthDelimited(view: View) returns (r: Result<nat>)
    modifies view
    ensures match ReadLenDelim(old(view.s))
      case Ok((payload, rest)) => r == Ok(|payload|) && view.s == payload + rest
      case Err(e) => r == Err(e)
  {
    var v := DecodeVarint(view.s);
    if v.Err? {
      return Err(v.error);
    }
    view.s := view.s[v.value.size..];
    if v.value.value > |view.s| {
      return Err(Truncated);
    }
    return Ok(v.value.value);
  }
}
