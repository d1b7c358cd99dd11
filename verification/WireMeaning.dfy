/** What the bytes of the codec mean, independently of how they are written and read: base 128
  * groups, little-endian words, tags, and the number that every scalar kind puts on the wire (the
  * "Base 128 Varints", "Message Structure" and "Signed Integers" chapters of the Protocol Buffers
  * "Encoding" specification). */
module WireMeaning {
  import opened Powers
  import opened Wire
  import opened Schema

  // ----- varints ---------------------------------------------------------------------------------

  /** Seven bits a byte, the first byte the least significant. */
  function Groups(s: bytes): nat {
    if s == [] then 0 else Groups(s[..|s| - 1]) + s[|s| - 1] % 128 * Power(7 * (|s| - 1))
  }

  /** The top bit says that another byte follows. */
  predicate IsVarint(s: bytes) {
    s != [] && s[|s| - 1] < 128 && forall i | 0 <= i < |s| - 1 :: s[i] >= 128
  }

  lemma PowerOfGroup(k: nat)
    ensures Power(7 * (k + 1)) == 128 * Power(7 * k)
  {
    assert Power(7 * k + 7) == 2 * Power(7 * k + 6) == 4 * Power(7 * k + 5);
    assert Power(7 * k + 5) == 2 * Power(7 * k + 4) == 4 * Power(7 * k + 3);
    assert Power(7 * k + 3) == 2 * Power(7 * k + 2) == 4 * Power(7 * k + 1) == 8 * Power(7 * k);
  }

  /** From the other end. */
  lemma {:induction false} GroupsFromFirst(s: bytes)
    requires s != []
    ensures Groups(s) == s[0] % 128 + 128 * Groups(s[1..])
  {
    var n := |s| - 1;
    if n == 0 {
      assert s[..0] == [] && s[1..] == [];
    } else {
      GroupsFromFirst(s[..n]);
      assert s[..n][1..] == s[1..][..n - 1] && s[1..][n - 1] == s[n];
      PowerOfGroup(n - 1);
      GroupStep(s[n] % 128, Power(7 * (n - 1)), Power(7 * n));
    }
  }

  lemma GroupStep(d: nat, p: nat, q: nat)
    requires q == 128 * p
    ensures d * q == 128 * (d * p)
  {
  }

  lemma {:induction false} VarintShape(v: nat)
    ensures var s := VarintBytes(v); IsVarint(s) && (|s| > 1 ==> s[|s| - 1] > 0)
  {
    if v >= 128 {
      VarintShape(v / 128);
      var s, t := VarintBytes(v), VarintBytes(v / 128);
      assert s[|s| - 1] == t[|t| - 1];
      assert forall i | 0 < i < |s| :: s[i] == t[i - 1];
    }
  }

  /** What is written is a varint of the number, and no shorter one is: its last group is not zero. */
  lemma {:induction false} VarintMeaning(v: nat)
    ensures IsVarint(VarintBytes(v)) && Groups(VarintBytes(v)) == v
    ensures var s := VarintBytes(v); |s| > 1 ==> s[|s| - 1] > 0
  {
    hide Power;
    hide IsVarint;
    VarintShape(v);
    var s := VarintBytes(v);
    GroupsFromFirst(s);
    if v >= 128 {
      VarintMeaning(v / 128);
      assert s[1..] == VarintBytes(v / 128);
    } else {
      assert s[1..] == [];
    }
  }

  /** One more byte in front. */
  lemma LongerVarint(s: bytes, k: nat)
    requires 1 <= k < |s| && s[0] >= 128 && IsVarint(s[1..][..k])
    ensures IsVarint(s[..k + 1]) && Groups(s[..k + 1]) == s[0] - 128 + 128 * Groups(s[1..][..k])
  {
    var t, u := s[..k + 1], s[1..][..k];
    assert t[1..] == u;
    GroupsFromFirst(t);
    forall j | 0 <= j < |t| - 1 ensures t[j] >= 128 {
      if j > 0 {
        assert t[j] == u[j - 1];
      }
    }
  }

  lemma OneByte(s: bytes)
    requires s != [] && s[0] < 128
    ensures IsVarint(s[..1]) && Groups(s[..1]) == s[0]
  {
    assert s[..1][..0] == [];
  }

  /** How the reader fails with `n` bytes still allowed. */
  predicate Fails(s: bytes, n: nat, e: Error)
    requires n >= 1
  {
    if |s| < n then e == TooFewBytes && forall j | 0 <= j < |s| :: s[j] >= 128
    else e == TooManyBytes && (forall j | 0 <= j < n - 1 :: s[j] >= 128) && s[n - 1] >= 2
  }

  lemma FailsLonger(s: bytes, n: nat, e: Error)
    requires n >= 1 && s != [] && s[0] >= 128 && Fails(s[1..], n, e)
    ensures Fails(s, n + 1, e)
  {
    assert forall j | 0 < j < |s| :: s[j] == s[1..][j - 1];
  }

  lemma {:induction false} ReadGroups(s: bytes, i: nat)
    requires i <= 9
    ensures match ReadVarint(s, i)
      case Ok(r) => r.size <= 10 - i && IsVarint(s[..r.size]) && Groups(s[..r.size]) == r.value < Room(i)
      case Err(e) => Fails(s, 10 - i, e)
    decreases 10 - i
  {
    hide Room;
    hide IsVarint;
    hide Groups;
    RoomValues();
    if s != [] {
      if s[0] < 128 {
        OneByte(s);
      } else if i < 9 {
        ReadGroups(s[1..], i + 1);
        match ReadVarint(s[1..], i + 1)
        case Ok(r) => LongerVarint(s, r.size);
        case Err(e) => FailsLonger(s, 9 - i, e);
      }
    }
  }

  /** A varint does not go on behind its end. */
  lemma VarintsEnd(s: bytes, j: nat, k: nat)
    requires j <= |s| && k <= |s|
    ensures j < k && IsVarint(s[..j]) ==> !IsVarint(s[..k])
  {
    if 0 < j < k {
      assert s[..k][j - 1] == s[..j][j - 1];
    }
  }

  lemma TooLongIsTooLarge(s: bytes)
    requires |s| == 10 && IsVarint(s)
    ensures s[9] >= 2 ==> Groups(s) >= TWO_64
  {
    PowerValues();
    assert s[9] % 128 == s[9];
    Larger(s[9], Power(63));
  }

  lemma Larger(d: nat, p: nat)
    ensures d >= 2 ==> d * p >= 2 * p
  {
  }

  /** What a varint says about how the reader fails: nothing, it does not. */
  lemma VarintDoesNotFail(s: bytes, k: nat, e: Error)
    requires 1 <= k <= 10 && k <= |s| && IsVarint(s[..k])
    ensures Fails(s, 10, e) ==> Groups(s[..k]) >= TWO_64
  {
    assert s[..k][k - 1] == s[k - 1];
    if k == 10 {
      TooLongIsTooLarge(s[..k]);
      assert s[..k][9] == s[9];
    }
  }

  /** The reader takes a varint of at most ten bytes whose number has 64 bits, canonical or not, and
    * nothing else. */
  lemma ReadVarintExactly(s: bytes, v: nat, k: nat)
    ensures ReadVarint(s) == Ok(Varint(v, k)) <==>
      1 <= k <= 10 && k <= |s| && IsVarint(s[..k]) && Groups(s[..k]) == v < TWO_64
  {
    hide IsVarint;
    hide Groups;
    hide Fails;
    hide ReadVarint;
    ReadIsVarint(s);
    if 1 <= k <= 10 && k <= |s| && IsVarint(s[..k]) && Groups(s[..k]) == v < TWO_64 {
      VarintIsRead(s, v, k);
    }
  }

  lemma ReadIsVarint(s: bytes)
    ensures ReadVarint(s).Ok? ==>
      var r := ReadVarint(s).value; r.size <= 10 && IsVarint(s[..r.size]) && Groups(s[..r.size]) == r.value < TWO_64
    ensures ReadVarint(s).Err? ==> Fails(s, 10, ReadVarint(s).error)
  {
    ReadGroups(s, 0);
  }

  lemma VarintIsRead(s: bytes, v: nat, k: nat)
    requires 1 <= k <= 10 && k <= |s| && IsVarint(s[..k]) && Groups(s[..k]) == v < TWO_64
    ensures ReadVarint(s) == Ok(Varint(v, k))
  {
    hide IsVarint;
    hide Groups;
    hide Fails;
    hide ReadVarint;
    ReadIsVarint(s);
    var r := ReadVarint(s);
    if r.Ok? {
      VarintsEnd(s, k, r.value.size);
      VarintsEnd(s, r.value.size, k);
    } else {
      VarintDoesNotFail(s, k, r.error);
    }
  }

  /** And when it does not: the bytes end too early, or there is no end within 64 bits. */
  lemma ReadVarintError(s: bytes)
    ensures ReadVarint(s) == Err(TooFewBytes) <==> |s| < 10 && forall j | 0 <= j < |s| :: s[j] >= 128
    ensures ReadVarint(s) == Err(TooManyBytes) <==> |s| >= 10 && (forall j | 0 <= j < 9 :: s[j] >= 128) && s[9] >= 2
  {
    ReadGroups(s, 0);
    var r := ReadVarint(s);
    hide ReadVarint;
    if r.Ok? {
      var k := r.value.size;
      assert s[..k][k - 1] == s[k - 1];
      VarintDoesNotFail(s, k, TooManyBytes);
    }
  }

  // ----- fixed-width words ---------------------------------------------------------------------------

  lemma {:induction false} FixedMeaning(u: nat, width: nat, i: nat)
    requires i < width
    ensures FixedBytes(u, width)[i] == u / Power(8 * i) % 256
  {
    if i > 0 {
      FixedMeaning(u / 256, width - 1, i - 1);
      PowerByte(8 * (i - 1));
      DivideTwice(u, Power(8 * (i - 1)));
    }
  }

  lemma DivideTwice(u: nat, p: nat)
    requires p > 0
    ensures u / 256 / p == u / (256 * p)
  {
    var q, r := u / (256 * p), u % (256 * p);
    assert u == 256 * (p * q) + r;
    var a, b := r / 256, r % 256;
    assert u / 256 == p * q + a;
    assert a < p;
    QuotientOf(p * q + a, p, q, a);
  }

  lemma QuotientOf(n: nat, d: nat, q: nat, r: nat)
    requires r < d && n == d * q + r
    ensures n / d == q
  {
    LargeMultiple(n / d - q, d);
    assert n / d * d + n % d == n;
    assert (n / d - q) * d == r - n % d;
  }

  lemma LargeMultiple(x: int, d: nat)
    ensures x >= 1 ==> x * d >= d
    ensures x <= -1 ==> x * d <= -(d as int)
  {
  }

  /** Little-endian, four and eight bytes. */
  lemma FixedNumber(s: bytes)
    ensures |s| == 4 ==>
      FixedValue(s) == s[0] + 0x100 * (s[1] as int) + 0x1_0000 * (s[2] as int) + 0x100_0000 * (s[3] as int)
    ensures |s| == 8 ==>
      FixedValue(s) == s[0] + 0x100 * (s[1] as int) + 0x1_0000 * (s[2] as int) + 0x100_0000 * (s[3] as int)
      + 0x1_0000_0000 * (s[4] as int) + 0x100_0000_0000 * (s[5] as int)
      + 0x1_0000_0000_0000 * (s[6] as int) + 0x100_0000_0000_0000 * (s[7] as int)
  {
    if |s| == 4 {
      FourBytes(s);
    } else if |s| == 8 {
      FourBytes(s[4..]);
      assert s[1..][1..][1..][1..] == s[4..];
      assert FixedValue(s) == s[0] + 256 * FixedValue(s[1..]);
      assert FixedValue(s[1..]) == s[1] + 256 * FixedValue(s[1..][1..]);
      assert FixedValue(s[1..][1..]) == s[2] + 256 * FixedValue(s[1..][1..][1..]);
      assert FixedValue(s[1..][1..][1..]) == s[3] + 256 * FixedValue(s[4..]);
    }
  }

  lemma FourBytes(s: bytes)
    requires |s| == 4
    ensures FixedValue(s) == s[0] + 0x100 * (s[1] as int) + 0x1_0000 * (s[2] as int) + 0x100_0000 * (s[3] as int)
  {
    assert FixedValue(s) == s[0] + 256 * FixedValue(s[1..]);
    assert FixedValue(s[1..]) == s[1] + 256 * FixedValue(s[1..][1..]);
    assert FixedValue(s[1..][1..]) == s[2] + 256 * FixedValue(s[1..][1..][1..]);
    assert FixedValue(s[1..][1..][1..]) == s[3] + 256 * FixedValue(s[1..][1..][1..][1..]);
    assert s[1..][1..][1..][1..] == [];
  }

  // ----- tags ------------------------------------------------------------------------------------

  /** The wire types of the specification. */
  function NumberOfType(w: WireType): nat {
    match w
    case VarintType => 0
    case Fixed64Type => 1
    case LengthDelimited => 2
    case StartGroup => 3
    case EndGroup => 4
    case Fixed32Type => 5
  }

  lemma TagMeaning(number: nat, wire: WireType)
    ensures IsVarint(TagBytes(number, wire)) && Groups(TagBytes(number, wire)) == 8 * number + NumberOfType(wire)
  {
    VarintMeaning(number * 8 + wire.Code());
  }

  /** A tag is a varint of 32 bits with a field number that is not zero and one of the six types. */
  lemma DecodeKeyExactly(s: bytes, allowEndGroup: bool, number: nat, wire: WireType, k: nat)
    ensures DecodeKey(s, allowEndGroup) == Ok(Key(number, wire, k))
      <==>
      && ReadVarint(s) == Ok(Varint(8 * number + NumberOfType(wire), k))
      && 1 <= number <= 0x1fff_ffff && (wire == EndGroup ==> allowEndGroup)
  {
    hide ReadVarint;
    var r := ReadVarint(s);
    if r == Ok(Varint(8 * number + NumberOfType(wire), k)) {
      assert r.value.value % 8 == NumberOfType(wire) && r.value.value / 8 == number;
    }
  }

  lemma DecodeKeyError(s: bytes, allowEndGroup: bool)
    ensures match ReadVarint(s)
      case Err(e) => DecodeKey(s, allowEndGroup) == Err(e)
      case Ok(v) =>
        && (v.value >= 0x1_0000_0000 ==> DecodeKey(s, allowEndGroup) == Err(TagTooLarge))
        && (v.value < 8 ==> DecodeKey(s, allowEndGroup) == Err(ZeroFieldNumber))
        && (8 <= v.value < 0x1_0000_0000 && v.value % 8 >= 6 ==> DecodeKey(s, allowEndGroup) == Err(UnknownWireType))
        && (8 <= v.value < 0x1_0000_0000 && v.value % 8 == 4 && !allowEndGroup ==>
            DecodeKey(s, allowEndGroup) == Err(UnexpectedEndGroup))
  {
    hide ReadVarint;
  }

  /** A length and as many bytes. */
  lemma ReadLenDelimExactly(s: bytes, payload: bytes, rest: bytes)
    ensures ReadLenDelim(s) == Ok((payload, rest)) <==>
      exists k: nat :: k <= |s| && ReadVarint(s) == Ok(Varint(|payload|, k)) && s[k..] == payload + rest
    ensures match ReadVarint(s)
      case Err(e) => ReadLenDelim(s) == Err(e)
      case Ok(v) => ReadLenDelim(s) == Err(Truncated) <==> v.value > |s| - v.size
  {
    hide ReadVarint;
    var n := ReadVarint(s);
    if n.Ok? {
      var v := n.value;
      var body := s[v.size..];
      if ReadLenDelim(s) == Ok((payload, rest)) {
        assert body == body[..v.value] + body[v.value..];
      }
      if v.value == |payload| && body == payload + rest {
        assert body[..v.value] == payload && body[v.value..] == rest;
      }
    }
  }

  /** The wire type of every kind of member. */
  lemma KindTypes()
    ensures forall s | s in {Bool, Int32, UInt32, Int64, UInt64, SInt32, SInt64} :: WireOf(Num(s)) == VarintType
    ensures forall s | s in {Fixed32, SFixed32, Float} :: WireOf(Num(s)) == Fixed32Type
    ensures forall s | s in {Fixed64, SFixed64, Double} :: WireOf(Num(s)) == Fixed64Type
    ensures WireOf(Str) == LengthDelimited && forall id :: WireOf(Msg(id)) == LengthDelimited
  {
  }

  // ----- scalars ---------------------------------------------------------------------------------

  /** The number that goes on the wire: two's complement of 64 bits, or zigzag. */
  predicate OnTheWire(s: Scalar, n: int, u: int) {
    if s == SInt32 || s == SInt64 then u == if n >= 0 then 2 * n else -2 * n - 1
    else 0 <= u < 0x1_0000_0000_0000_0000 && (u == n || u == n + 0x1_0000_0000_0000_0000)
  }

  /** Every integer kind without fixed width is written as a varint of that number. */
  lemma ScalarMeaning(s: Scalar, n: int)
    requires s in {Bool, Int32, UInt32, Int64, UInt64, SInt32, SInt64} && s.InRange(n)
    ensures var e := EncodeScalar(s, n);
      && IsVarint(e) && OnTheWire(s, n, Groups(e))
      && ReadVarint(e) == Ok(Varint(Groups(e), |e|))
  {
    var u := s.ToWire(n);
    if s == SInt32 {
      ZigzagRoundTrip(n, TWO_31);
    } else if s == SInt64 {
      ZigzagRoundTrip(n, TWO_63);
    }
    VarintMeaning(u);
    VarintRoundTrip(u, []);
    assert VarintBytes(u) + [] == VarintBytes(u);
  }

  /** Four or eight bytes, little-endian, two's complement. */
  lemma FixedScalarMeaning(s: Scalar, n: int)
    requires s in {Fixed32, SFixed32, Float, Fixed64, SFixed64, Double} && s.InRange(n)
    ensures var e := EncodeScalar(s, n);
      if s in {Fixed32, SFixed32, Float} then |e| == 4 && (FixedValue(e) == n || FixedValue(e) == n + 0x1_0000_0000)
      else |e| == 8 && (FixedValue(e) == n || FixedValue(e) == n + 0x1_0000_0000_0000_0000)
  {
    FixedRoundTrip(s.ToWire(n), s.Width());
  }

  /** A negative 32- or 64-bit integer takes ten bytes. */
  lemma NegativeTakesTenBytes(s: Scalar, n: int)
    requires (s == Int32 || s == Int64) && s.InRange(n) && n < 0
    ensures |EncodeScalar(s, n)| == 10
  {
    var u := s.ToWire(n);
    ScalarMeaning(s, n);
    var e := EncodeScalar(s, n);
    ReadVarintExactly(e, u, |e|);
    assert e[..|e|] == e;
    if |e| < 10 {
      GroupsBound(e);
      PowerMonotone(7 * |e|, 63);
      PowerValues();
    }
  }

  lemma {:induction false} GroupsBound(s: bytes)
    ensures Groups(s) < Power(7 * |s|)
  {
    if s != [] {
      var n := |s| - 1;
      GroupsBound(s[..n]);
      PowerOfGroup(n);
      TopGroup(s[n] % 128, Power(7 * n));
    }
  }

  lemma TopGroup(d: nat, p: nat)
    requires d < 128
    ensures d * p <= 127 * p
  {
  }

  /** The number that a kind takes from what is on the wire: truncated to its width, a boolean by
    * whether it is zero. */
  lemma FromWireMeaning(s: Scalar, u: nat)
    requires u < 0x1_0000_0000_0000_0000
    ensures s.InRange(s.FromWire(u))
    ensures s == Bool ==> (s.FromWire(u) == 0 <==> u == 0)
    ensures s in {Int32, UInt32, Fixed32, SFixed32, Float} ==> (u - s.FromWire(u)) % 0x1_0000_0000 == 0
    ensures s in {Int64, UInt64, Fixed64, SFixed64, Double} ==> (u - s.FromWire(u)) % 0x1_0000_0000_0000_0000 == 0
    ensures s == SInt32 ==> var n := s.FromWire(u); u % 0x1_0000_0000 == if n >= 0 then 2 * n else -2 * n - 1
    ensures s == SInt64 ==> var n := s.FromWire(u); u == if n >= 0 then 2 * n else -2 * n - 1
  {
  }

  /** -1 as int32 and sint32, and 150, as in the specification. */
  lemma KnownScalars()
    ensures EncodeScalar(Int32, -1) == EncodeScalar(Int64, -1) == [255, 255, 255, 255, 255, 255, 255, 255, 255, 1]
    ensures EncodeScalar(SInt32, -1) == [1] && EncodeScalar(SInt32, 1) == [2] && EncodeScalar(SInt32, -2) == [3]
    ensures EncodeScalar(UInt32, 150) == [0x96, 0x01]
    ensures EncodeScalar(SFixed32, -1) == [255, 255, 255, 255] && EncodeScalar(Fixed32, 1) == [1, 0, 0, 0]
  {
    hide FixedBytes;
    SixtyFourOnes();
    OneHundredFifty();
    FourOnes();
    hide VarintBytes;
  }

  lemma OneHundredFifty()
    ensures VarintBytes(150) == [0x96, 0x01] && VarintBytes(1) == [1] && VarintBytes(2) == [2] && VarintBytes(3) == [3]
  {
    assert VarintBytes(150) == [0x96] + VarintBytes(1);
  }

  lemma FourOnes()
    ensures FixedBytes(0xFFFF_FFFF, 4) == [255, 255, 255, 255] && FixedBytes(1, 4) == [1, 0, 0, 0]
  {
    assert FixedBytes(0xFFFF_FFFF, 4) == [255] + ([255] + ([255] + ([255] + FixedBytes(0, 0))));
    assert FixedBytes(1, 4) == [1] + ([0] + ([0] + ([0] + FixedBytes(0, 0))));
  }

  lemma SixtyFourOnes()
    ensures VarintBytes(0xFFFF_FFFF_FFFF_FFFF) == [255, 255, 255, 255, 255, 255, 255, 255, 255, 1]
  {
    assert VarintBytes(0xFF) == [255] + VarintBytes(1);
    assert VarintBytes(0x7FFF) == [255] + VarintBytes(0xFF);
    assert VarintBytes(0x3F_FFFF) == [255] + VarintBytes(0x7FFF);
    assert VarintBytes(0x1FFF_FFFF) == [255] + VarintBytes(0x3F_FFFF);
    assert VarintBytes(0xF_FFFF_FFFF) == [255] + VarintBytes(0x1FFF_FFFF);
    assert VarintBytes(0x7FF_FFFF_FFFF) == [255] + VarintBytes(0xF_FFFF_FFFF);
    assert VarintBytes(0x3_FFFF_FFFF_FFFF) == [255] + VarintBytes(0x7FF_FFFF_FFFF);
    assert VarintBytes(0x1FF_FFFF_FFFF_FFFF) == [255] + VarintBytes(0x3_FFFF_FFFF_FFFF);
    assert VarintBytes(0xFFFF_FFFF_FFFF_FFFF) == [255] + VarintBytes(0x1FF_FFFF_FFFF_FFFF);
  }

  // ----- messages --------------------------------------------------------------------------------

  /** Fields of every form, byte by byte. */
  lemma KnownScalarFields(env: Env)
    ensures EncodeField(env, Single(1, Num(Int32)), Number(150)) == [0x08, 0x96, 0x01]
    ensures EncodeField(env, Single(2, Str), Bytes([0x68, 0x69])) == [0x12, 0x02, 0x68, 0x69]
    ensures EncodeField(env, Optional(3, Num(Fixed32), true), Just(Number(0))) == [0x1D, 0, 0, 0, 0]
    ensures EncodeField(env, Oneof([Case(8, Num(Bool)), Case(9, Str)], true), Choice(1, Bytes([0x7A])))
      == [0x4A, 0x01, 0x7A]
  {
    assert VarintBytes(150) == [0x96] + VarintBytes(1);
    assert EncodeElem(env, Num(Int32), Number(150)) == [0x96, 0x01];
    assert EncodeElem(env, Str, Bytes([0x68, 0x69])) == [0x02, 0x68, 0x69];
    assert EncodeElem(env, Num(Fixed32), Number(0)) == [0, 0, 0, 0];
    assert EncodeElem(env, Str, Bytes([0x7A])) == [0x01, 0x7A];
  }

  lemma KnownListFields(env: Env)
    ensures EncodeField(env, Repeated(6, Num(Int32)), List([Number(3), Number(270)])) == [0x32, 0x03, 0x03, 0x8E, 0x02]
    ensures EncodeField(env, Repeated(4, Str), List([Bytes([0x61]), Bytes([])])) == [0x22, 0x01, 0x61, 0x22, 0x00]
  {
    var ns, ss := [Number(3), Number(270)], [Bytes([0x61]), Bytes([])];
    assert VarintBytes(270) == [0x8E] + VarintBytes(2);
    assert EncodeElem(env, Num(Int32), ns[0]) == [0x03] && EncodeElem(env, Num(Int32), ns[1]) == [0x8E, 0x02];
    assert ns[1..] == [Number(270)] && ns[1..][1..] == [] && ss[1..] == [Bytes([])] && ss[1..][1..] == [];
    assert EncodePacked(env, Num(Int32), ns[1..]) == [0x8E, 0x02] + EncodePacked(env, Num(Int32), []);
    assert EncodePacked(env, Num(Int32), ns) == [0x03] + [0x8E, 0x02];
    assert Occurrence(env, 4, Str, ss[0]) == [0x22] + [0x01, 0x61] && Occurrence(env, 4, Str, ss[1]) == [0x22] + [0x00];
    assert EncodeItems(env, 4, Str, ss[1..]) == [0x22, 0x00] + EncodeItems(env, 4, Str, []);
    assert EncodeItems(env, 4, Str, ss) == [0x22, 0x01, 0x61] + [0x22, 0x00];
  }

  lemma KnownMapField(env: Env)
    ensures EncodeField(env, MapOf(7, Str, Num(Int32)), Entries([Entry(Bytes([0x61]), Number(5))]))
      == [0x3A, 0x05, 0x0A, 0x01, 0x61, 0x10, 0x05]
  {
    var kv := Entry(Bytes([0x61]), Number(5));
    assert Occurrence(env, 1, Str, kv.key) == [0x0A] + [0x01, 0x61];
    assert Occurrence(env, 2, Num(Int32), kv.value) == [0x10] + [0x05];
    assert EntryBody(env, Str, Num(Int32), kv) == [0x0A, 0x01, 0x61, 0x10, 0x05];
    assert EncodeEntry(env, 7, Str, Num(Int32), kv) == [0x3A] + ([0x05] + [0x0A, 0x01, 0x61, 0x10, 0x05]);
    assert EncodeEntries(env, 7, Str, Num(Int32), [kv]) == EncodeEntry(env, 7, Str, Num(Int32), kv) + [];
  }
}
