/** Scanning eight bytes at a time: the search for the end of a JSON string on machine words,
  * against a search byte by byte.  Words are loaded in little-endian order. */
module Swar {
  import opened Wrappers

  type octet = bv8

  const QUOTE: octet := 0x22
  const BACKSLASH: octet := 0x5c

  // ----- the word tricks -------------------------------------------------------------------------------

  function HasZero(chunk: bv64): bv64 {
    ((chunk - 0x0101_0101_0101_0101) & !chunk) & 0x8080_8080_8080_8080
  }

  function HasQuote(chunk: bv64): bv64 {
    HasZero(chunk ^ 0x2222_2222_2222_2222)
  }

  function HasEscape(chunk: bv64): bv64 {
    HasZero(chunk ^ 0x5c5c_5c5c_5c5c_5c5c)
  }

  /** The number of zero bits below the lowest set bit. */
  function CountrZero(x: bv64): nat
    requires x != 0
    decreases x
  {
    if x & 1 == 1 then 0 else 1 + CountrZero(x >> 1)
  }

  /** `*reinterpret_cast<const uint64_t *>(&*it)` */
  function Load(b: seq<octet>): bv64
    requires |b| == 8
  {
    (b[0] as bv64) | ((b[1] as bv64) << 8) | ((b[2] as bv64) << 16) | ((b[3] as bv64) << 24)
    | ((b[4] as bv64) << 32) | ((b[5] as bv64) << 40) | ((b[6] as bv64) << 48) | ((b[7] as bv64) << 56)
  }

  function Byte0(x: bv64): bv64 { x & 0xff }

  function Byte1(x: bv64): bv64 { (x >> 8) & 0xff }

  function Byte2(x: bv64): bv64 { (x >> 16) & 0xff }

  function Byte3(x: bv64): bv64 { (x >> 24) & 0xff }

  function Byte4(x: bv64): bv64 { (x >> 32) & 0xff }

  function Byte5(x: bv64): bv64 { (x >> 40) & 0xff }

  function Byte6(x: bv64): bv64 { (x >> 48) & 0xff }

  function Byte7(x: bv64): bv64 { (x >> 56) & 0xff }

  function Lane(x: bv64, k: nat): bv64
    requires k < 8
  {
    match k
    case 0 => Byte0(x)
    case 1 => Byte1(x)
    case 2 => Byte2(x)
    case 3 => Byte3(x)
    case 4 => Byte4(x)
    case 5 => Byte5(x)
    case 6 => Byte6(x)
    case 7 => Byte7(x)
  }

  // ----- what a test word says ---------------------------------------------------------------------------

  /** Up to the first hit the lanes of `test` tell hits from misses; above it they may lie. */
  ghost predicate Marks(test: bv64, hits: seq<bool>)
    requires |hits| == 8
  {
    forall k | 0 <= k < 8 :: (forall j | 0 <= j < k :: !hits[j]) ==> Lane(test, k) == if hits[k] then 0x80 else 0
  }

  /** Below a zero byte nothing is borrowed from it. */
  lemma NoBorrow(x: bv64)
    ensures HasZero(x) & 0xff == if x & 0xff == 0 then 0x80 else 0
    ensures x & 0xff != 0 ==> (HasZero(x) >> 8) & 0xff == if (x >> 8) & 0xff == 0 then 0x80 else 0
    ensures x & 0xff != 0 && (x >> 8) & 0xff != 0 ==>
      (HasZero(x) >> 16) & 0xff == if (x >> 16) & 0xff == 0 then 0x80 else 0
    ensures x & 0xff != 0 && (x >> 8) & 0xff != 0 && (x >> 16) & 0xff != 0 ==>
      (HasZero(x) >> 24) & 0xff == if (x >> 24) & 0xff == 0 then 0x80 else 0
  {
  }

  lemma NoBorrowAbove(x: bv64)
    requires x & 0xff != 0 && (x >> 8) & 0xff != 0 && (x >> 16) & 0xff != 0 && (x >> 24) & 0xff != 0
    ensures (HasZero(x) >> 32) & 0xff == if (x >> 32) & 0xff == 0 then 0x80 else 0
    ensures (x >> 32) & 0xff != 0 ==> (HasZero(x) >> 40) & 0xff == if (x >> 40) & 0xff == 0 then 0x80 else 0
    ensures (x >> 32) & 0xff != 0 && (x >> 40) & 0xff != 0 ==>
      (HasZero(x) >> 48) & 0xff == if (x >> 48) & 0xff == 0 then 0x80 else 0
    ensures (x >> 32) & 0xff != 0 && (x >> 40) & 0xff != 0 && (x >> 48) & 0xff != 0 ==>
      (HasZero(x) >> 56) & 0xff == if (x >> 56) & 0xff == 0 then 0x80 else 0
  {
  }

  lemma ZeroLane(x: bv64, k: nat)
    requires k < 8 && forall j | 0 <= j < k :: Lane(x, j) != 0
    ensures Lane(HasZero(x), k) == if Lane(x, k) == 0 then 0x80 else 0
  {
    hide HasZero;
    NoBorrow(x);
    assert k > 0 ==> Lane(x, 0) != 0;
    assert k > 1 ==> Lane(x, 1) != 0;
    assert k > 2 ==> Lane(x, 2) != 0;
    assert k > 3 ==> Lane(x, 3) != 0;
    if k > 3 {
      NoBorrowAbove(x);
      assert k > 4 ==> Lane(x, 4) != 0;
      assert k > 5 ==> Lane(x, 5) != 0;
      assert k > 6 ==> Lane(x, 6) != 0;
    }
  }

  /** `has_zero` is exact up to the first zero byte. */
  lemma HasZeroMarks(x: bv64, hits: seq<bool>)
    requires |hits| == 8 && forall k | 0 <= k < 8 :: hits[k] == (Lane(x, k) == 0)
    ensures Marks(HasZero(x), hits)
  {
    forall k | 0 <= k < 8 && forall j | 0 <= j < k :: !hits[j]
      ensures Lane(HasZero(x), k) == if hits[k] then 0x80 else 0
    {
      ZeroLane(x, k);
    }
  }

  lemma QuoteBytes(b: seq<octet>)
    requires |b| == 8
    ensures Byte0(Load(b) ^ 0x2222_2222_2222_2222) == 0 <==> b[0] == QUOTE
    ensures Byte1(Load(b) ^ 0x2222_2222_2222_2222) == 0 <==> b[1] == QUOTE
    ensures Byte2(Load(b) ^ 0x2222_2222_2222_2222) == 0 <==> b[2] == QUOTE
    ensures Byte3(Load(b) ^ 0x2222_2222_2222_2222) == 0 <==> b[3] == QUOTE
    ensures Byte4(Load(b) ^ 0x2222_2222_2222_2222) == 0 <==> b[4] == QUOTE
    ensures Byte5(Load(b) ^ 0x2222_2222_2222_2222) == 0 <==> b[5] == QUOTE
    ensures Byte6(Load(b) ^ 0x2222_2222_2222_2222) == 0 <==> b[6] == QUOTE
    ensures Byte7(Load(b) ^ 0x2222_2222_2222_2222) == 0 <==> b[7] == QUOTE
  {
  }

  lemma QuoteLane(b: seq<octet>, k: nat)
    requires |b| == 8 && k < 8
    ensures Lane(Load(b) ^ 0x2222_2222_2222_2222, k) == 0 <==> b[k] == QUOTE
  {
    hide Load;
    hide Byte0;
    hide Byte1;
    hide Byte2;
    hide Byte3;
    hide Byte4;
    hide Byte5;
    hide Byte6;
    hide Byte7;
    QuoteBytes(b);
    if k == 0 {
    } else if k == 1 {
    } else if k == 2 {
    } else if k == 3 {
    } else if k == 4 {
    } else if k == 5 {
    } else if k == 6 {
    } else {
    }
  }

  lemma EscapeBytes(b: seq<octet>)
    requires |b| == 8
    ensures Byte0(Load(b) ^ 0x5c5c_5c5c_5c5c_5c5c) == 0 <==> b[0] == BACKSLASH
    ensures Byte1(Load(b) ^ 0x5c5c_5c5c_5c5c_5c5c) == 0 <==> b[1] == BACKSLASH
    ensures Byte2(Load(b) ^ 0x5c5c_5c5c_5c5c_5c5c) == 0 <==> b[2] == BACKSLASH
    ensures Byte3(Load(b) ^ 0x5c5c_5c5c_5c5c_5c5c) == 0 <==> b[3] == BACKSLASH
    ensures Byte4(Load(b) ^ 0x5c5c_5c5c_5c5c_5c5c) == 0 <==> b[4] == BACKSLASH
    ensures Byte5(Load(b) ^ 0x5c5c_5c5c_5c5c_5c5c) == 0 <==> b[5] == BACKSLASH
    ensures Byte6(Load(b) ^ 0x5c5c_5c5c_5c5c_5c5c) == 0 <==> b[6] == BACKSLASH
    ensures Byte7(Load(b) ^ 0x5c5c_5c5c_5c5c_5c5c) == 0 <==> b[7] == BACKSLASH
  {
  }

  lemma EscapeLane(b: seq<octet>, k: nat)
    requires |b| == 8 && k < 8
    ensures Lane(Load(b) ^ 0x5c5c_5c5c_5c5c_5c5c, k) == 0 <==> b[k] == BACKSLASH
  {
    hide Load;
    hide Byte0;
    hide Byte1;
    hide Byte2;
    hide Byte3;
    hide Byte4;
    hide Byte5;
    hide Byte6;
    hide Byte7;
    EscapeBytes(b);
    if k == 0 {
    } else if k == 1 {
    } else if k == 2 {
    } else if k == 3 {
    } else if k == 4 {
    } else if k == 5 {
    } else if k == 6 {
    } else {
    }
  }

  function Hits(b: seq<octet>, c: octet): (hits: seq<bool>)
    requires |b| == 8
    ensures |hits| == 8 && forall k | 0 <= k < 8 :: hits[k] == (b[k] == c)
  {
    seq(8, k requires 0 <= k < 8 => b[k] == c)
  }

  lemma QuoteMarks(b: seq<octet>)
    requires |b| == 8
    ensures Marks(HasQuote(Load(b)), Hits(b, QUOTE))
  {
    hide Lane;
    hide Load;
    hide HasZero;
    hide Marks;
    var x := Load(b) ^ 0x2222_2222_2222_2222;
    forall k | 0 <= k < 8 ensures (b[k] == QUOTE) == (Lane(x, k) == 0) {
      QuoteLane(b, k);
    }
    HasZeroMarks(x, Hits(b, QUOTE));
  }

  lemma EscapeMarks(b: seq<octet>)
    requires |b| == 8
    ensures Marks(HasEscape(Load(b)), Hits(b, BACKSLASH))
  {
    hide Lane;
    hide Load;
    hide HasZero;
    hide Marks;
    var x := Load(b) ^ 0x5c5c_5c5c_5c5c_5c5c;
    forall k | 0 <= k < 8 ensures (b[k] == BACKSLASH) == (Lane(x, k) == 0) {
      EscapeLane(b, k);
    }
    HasZeroMarks(x, Hits(b, BACKSLASH));
  }

  function Or(x: bv64, y: bv64): bv64 {
    x | y
  }

  lemma OrOfBytes(x: bv64, y: bv64)
    ensures Byte0(x | y) == Byte0(x) | Byte0(y)
    ensures Byte1(x | y) == Byte1(x) | Byte1(y)
    ensures Byte2(x | y) == Byte2(x) | Byte2(y)
    ensures Byte3(x | y) == Byte3(x) | Byte3(y)
    ensures Byte4(x | y) == Byte4(x) | Byte4(y)
    ensures Byte5(x | y) == Byte5(x) | Byte5(y)
    ensures Byte6(x | y) == Byte6(x) | Byte6(y)
    ensures Byte7(x | y) == Byte7(x) | Byte7(y)
  {
  }

  lemma OrBytes(x: bv64, y: bv64)
    ensures Byte0(Or(x, y)) == Or(Byte0(x), Byte0(y))
    ensures Byte1(Or(x, y)) == Or(Byte1(x), Byte1(y))
    ensures Byte2(Or(x, y)) == Or(Byte2(x), Byte2(y))
    ensures Byte3(Or(x, y)) == Or(Byte3(x), Byte3(y))
    ensures Byte4(Or(x, y)) == Or(Byte4(x), Byte4(y))
    ensures Byte5(Or(x, y)) == Or(Byte5(x), Byte5(y))
    ensures Byte6(Or(x, y)) == Or(Byte6(x), Byte6(y))
    ensures Byte7(Or(x, y)) == Or(Byte7(x), Byte7(y))
  {
    hide Byte0;
    hide Byte1;
    hide Byte2;
    hide Byte3;
    hide Byte4;
    hide Byte5;
    hide Byte6;
    hide Byte7;
    OrOfBytes(x, y);
  }

  lemma OrLane(x: bv64, y: bv64, k: nat)
    requires k < 8
    ensures Lane(Or(x, y), k) == Or(Lane(x, k), Lane(y, k))
  {
    hide Or;
    hide Byte0;
    hide Byte1;
    hide Byte2;
    hide Byte3;
    hide Byte4;
    hide Byte5;
    hide Byte6;
    hide Byte7;
    OrBytes(x, y);
    if k == 0 {
    } else if k == 1 {
    } else if k == 2 {
    } else if k == 3 {
    } else if k == 4 {
    } else if k == 5 {
    } else if k == 6 {
    } else {
    }
  }

  lemma OrMarks()
    ensures Or(0, 0) == 0 && Or(0x80, 0) == 0x80 && Or(0, 0x80) == 0x80 && Or(0x80, 0x80) == 0x80
  {
  }

  /** The two tests may be joined: a false positive of one lies above a hit of its own. */
  lemma MarksJoin(x: bv64, y: bv64, h: seq<bool>, i: seq<bool>, either: seq<bool>)
    requires |h| == |i| == |either| == 8 && Marks(x, h) && Marks(y, i)
    requires forall k | 0 <= k < 8 :: either[k] == (h[k] || i[k])
    ensures Marks(Or(x, y), either)
  {
    hide Or;
    hide Lane;
    forall k | 0 <= k < 8 && forall j | 0 <= j < k :: !either[j]
      ensures Lane(Or(x, y), k) == if either[k] then 0x80 else 0
    {
      assert forall j | 0 <= j < k :: !either[j];
      assert (forall j | 0 <= j < k :: !h[j]) && forall j | 0 <= j < k :: !i[j];
      OrLane(x, y, k);
      OrMarks();
    }
  }

  lemma EitherMarks(b: seq<octet>, hits: seq<bool>)
    requires |b| == |hits| == 8 && forall k | 0 <= k < 8 :: hits[k] == (b[k] == BACKSLASH || b[k] == QUOTE)
    ensures Marks(HasQuote(Load(b)) | HasEscape(Load(b)), hits)
  {
    hide Marks;
    hide HasQuote;
    hide HasEscape;
    hide Load;
    QuoteMarks(b);
    EscapeMarks(b);
    MarksJoin(HasQuote(Load(b)), HasEscape(Load(b)), Hits(b, QUOTE), Hits(b, BACKSLASH), hits);
  }

  lemma ZeroBit(x: bv64)
    requires x != 0 && x & 1 == 0
    ensures x >> 1 != 0 && CountrZero(x) == 1 + CountrZero(x >> 1)
  {
  }

  lemma TwoBits(x: bv64)
    requires x != 0 && x & 3 == 0
    ensures x & 1 == 0 && x >> 1 != 0 && (x >> 1) & 1 == 0 && (x >> 1) >> 1 == x >> 2 && x >> 2 != 0
  {
  }

  lemma TwoZeroBits(x: bv64)
    requires x != 0 && x & 3 == 0
    ensures x >> 2 != 0 && CountrZero(x) == 2 + CountrZero(x >> 2)
  {
    hide CountrZero;
    TwoBits(x);
    ZeroBit(x);
    ZeroBit(x >> 1);
  }

  lemma FourBits(x: bv64)
    requires x != 0 && x & 15 == 0
    ensures x & 3 == 0 && x >> 2 != 0 && (x >> 2) & 3 == 0 && (x >> 2) >> 2 == x >> 4 && x >> 4 != 0
  {
  }

  lemma FourZeroBits(x: bv64)
    requires x != 0 && x & 15 == 0
    ensures x >> 4 != 0 && CountrZero(x) == 4 + CountrZero(x >> 4)
  {
    hide CountrZero;
    FourBits(x);
    TwoZeroBits(x);
    TwoZeroBits(x >> 2);
  }

  lemma EightBits(x: bv64)
    requires x != 0 && x & 0xff == 0
    ensures x & 15 == 0 && x >> 4 != 0 && (x >> 4) & 15 == 0 && (x >> 4) >> 4 == x >> 8 && x >> 8 != 0
  {
  }

  lemma ZeroByte(x: bv64)
    requires x != 0 && x & 0xff == 0
    ensures x >> 8 != 0 && CountrZero(x) == 8 + CountrZero(x >> 8)
  {
    hide CountrZero;
    EightBits(x);
    FourZeroBits(x);
    FourZeroBits(x >> 4);
  }

  lemma TopOfByte(x: bv64)
    requires x & 0xff == 0x80
    ensures x != 0 && CountrZero(x) == 7
  {
    hide CountrZero;
    var y := x >> 4;
    var z := y >> 2;
    var t := z >> 1;
    assert x & 15 == 0 && x != 0 && y != 0 && y & 3 == 0 && z != 0 && z & 1 == 0 && t & 1 == 1 && t != 0;
    FourZeroBits(x);
    TwoZeroBits(y);
    ZeroBit(z);
    SetBit(t);
  }

  lemma SetBit(x: bv64)
    requires x != 0 && x & 1 == 1
    ensures CountrZero(x) == 0
  {
  }

  lemma ShiftBytes(x: bv64)
    ensures Byte0(x >> 8) == Byte1(x)
    ensures Byte1(x >> 8) == Byte2(x)
    ensures Byte2(x >> 8) == Byte3(x)
    ensures Byte3(x >> 8) == Byte4(x)
    ensures Byte4(x >> 8) == Byte5(x)
    ensures Byte5(x >> 8) == Byte6(x)
    ensures Byte6(x >> 8) == Byte7(x)
  {
  }

  lemma ShiftLane(x: bv64, k: nat)
    requires k < 7
    ensures Lane(x >> 8, k) == Lane(x, k + 1)
  {
    hide Byte0;
    hide Byte1;
    hide Byte2;
    hide Byte3;
    hide Byte4;
    hide Byte5;
    hide Byte6;
    hide Byte7;
    ShiftBytes(x);
    if k == 0 {
    } else if k == 1 {
    } else if k == 2 {
    } else if k == 3 {
    } else if k == 4 {
    } else if k == 5 {
    } else {
    }
  }

  /** The lowest set bit is the top bit of the first lane that is set. */
  lemma {:induction false} LowestSet(test: bv64, f: nat)
    requires f < 8 && Lane(test, f) == 0x80 && forall j | 0 <= j < f :: Lane(test, j) == 0
    ensures test != 0 && CountrZero(test) == 8 * f + 7
    decreases f
  {
    if f == 0 {
      TopOfByte(test);
    } else {
      assert Lane(test, 0) == 0;
      assert test != 0 by {
        if test == 0 {
          ZeroHasNoLane(f);
        }
      }
      ZeroByte(test);
      var next := test >> 8;
      forall j: nat | j < f ensures Lane(next, j) == if j < f - 1 then 0 else 0x80 {
        ShiftLane(test, j);
      }
      LowestSet(next, f - 1);
    }
  }

  lemma ZeroHasNoLane(f: nat)
    requires f < 8
    ensures Lane(0, f) == 0
  {
  }

  lemma NoLaneSet(test: bv64)
    requires forall k | 0 <= k < 8 :: Lane(test, k) == 0
    ensures test == 0
  {
    assert Lane(test, 0) == 0 && Lane(test, 1) == 0 && Lane(test, 2) == 0 && Lane(test, 3) == 0;
    assert Lane(test, 4) == 0 && Lane(test, 5) == 0 && Lane(test, 6) == 0 && Lane(test, 7) == 0;
  }

  /** A test word is zero exactly if nothing was hit, and otherwise its lowest set bit names the
    * first hit. */
  lemma FirstHit(test: bv64, hits: seq<bool>)
    requires |hits| == 8 && Marks(test, hits)
    ensures test == 0 <==> forall k | 0 <= k < 8 :: !hits[k]
    ensures test != 0 ==>
      var f := CountrZero(test) / 8;
      f < 8 && hits[f] && forall j | 0 <= j < f :: !hits[j]
  {
    if forall k | 0 <= k < 8 :: !hits[k] {
      NoLaneSet(test);
    } else {
      var f := Least(hits, 0);
      LowestSet(test, f);
    }
  }

  function Least(hits: seq<bool>, from: nat): (f: nat)
    requires from <= |hits| && (exists k :: from <= k < |hits| && hits[k])
    ensures from <= f < |hits| && hits[f] && forall j | from <= j < f :: !hits[j]
    decreases |hits| - from
  {
    if hits[from] then from else Least(hits, from + 1)
  }

  // ----- the two scanners ------------------------------------------------------------------------------------

  predicate IsQuote(c: octet) {
    c == QUOTE
  }

  predicate IsEscapeOrQuote(c: octet) {
    c == BACKSLASH || c == QUOTE
  }

  /** The position that a scan byte by byte from `it` stops at; `None` if it runs to the end. */
  function ByteScan(text: seq<octet>, it: nat, stop: octet -> bool): (r: Option<nat>)
    requires it <= |text|
    ensures r.Some? ==> it <= r.value < |text| && stop(text[r.value]) && forall j | it <= j < r.value :: !stop(text[j])
    ensures r.None? ==> forall j | it <= j < |text| :: !stop(text[j])
    decreases |text| - it
  {
    if it == |text| then None else if stop(text[it]) then Some(it) else ByteScan(text, it + 1, stop)
  }

  lemma {:induction false} ScanSkips(text: seq<octet>, it: nat, goal: nat, stop: octet -> bool)
    requires it <= goal <= |text| && forall j: nat | it <= j < goal :: !stop(text[j])
    ensures ByteScan(text, it, stop) == ByteScan(text, goal, stop)
    decreases goal - it
  {
    if it < goal {
      ScanSkips(text, it + 1, goal, stop);
    }
  }

  /** The test word against the chunk at `it`. */
  lemma ChunkScan(text: seq<octet>, it: nat, chunk: seq<octet>, test: bv64, hits: seq<bool>, stop: octet -> bool)
    requires it + 8 <= |text| && chunk == text[it..it + 8] && |hits| == 8 && Marks(test, hits)
    requires forall k | 0 <= k < 8 :: hits[k] == stop(chunk[k])
    ensures ByteScan(text, it, stop)
      == if test == 0 then ByteScan(text, it + 8, stop) else Some(it + CountrZero(test) / 8)
  {
    hide Marks;
    hide CountrZero;
    FirstHit(test, hits);
    assert forall j | it <= j < it + 8 :: text[j] == chunk[j - it];
    if test == 0 {
      ScanSkips(text, it, it + 8, stop);
    } else {
      ScanSkips(text, it, it + CountrZero(test) / 8, stop);
    }
  }

  /** `skip_till_escape_or_qoute`; `None` is the exception. */
  method SkipTillEscapeOrQuote(text: seq<octet>, start: nat) returns (r: Option<nat>)
    requires start <= |text|
    ensures r == ByteScan(text, start, IsEscapeOrQuote)
  {
    hide Marks;
    hide HasQuote;
    hide HasEscape;
    hide Load;
    hide CountrZero;
    var it := start;
    if |text| - it >= 7 {
      var endM7 := |text| - 7;
      while it < endM7
        invariant it <= |text| && ByteScan(text, start, IsEscapeOrQuote) == ByteScan(text, it, IsEscapeOrQuote)
      {
        var bytes := text[it..it + 8];
        var chunk := Load(bytes);
        var test := HasQuote(chunk) | HasEscape(chunk);
        ghost var hits := seq(8, k requires 0 <= k < 8 => bytes[k] == BACKSLASH || bytes[k] == QUOTE);
        EitherMarks(bytes, hits);
        ChunkScan(text, it, bytes, test, hits, IsEscapeOrQuote);
        if test != 0 {
          return Some(it + CountrZero(test) / 8);
        }
        it := it + 8;
      }
    }
    while it < |text|
      invariant it <= |text| && ByteScan(text, start, IsEscapeOrQuote) == ByteScan(text, it, IsEscapeOrQuote)
    {
      if text[it] == BACKSLASH || text[it] == QUOTE {
        return Some(it);
      }
      it := it + 1;
    }
    r := None;
  }

  /** `skip_till_qoute` */
  method SkipTillQuote(text: seq<octet>, start: nat) returns (r: Option<nat>)
    requires start <= |text|
    ensures r == ByteScan(text, start, IsQuote)
  {
    hide Marks;
    hide HasQuote;
    hide Load;
    hide CountrZero;
    var it := start;
    if |text| - it >= 7 {
      var endM7 := |text| - 7;
      while it < endM7
        invariant it <= |text| && ByteScan(text, start, IsQuote) == ByteScan(text, it, IsQuote)
      {
        var bytes := text[it..it + 8];
        var test := HasQuote(Load(bytes));
        QuoteMarks(bytes);
        ChunkScan(text, it, bytes, test, Hits(bytes, QUOTE), IsQuote);
        if test != 0 {
          return Some(it + CountrZero(test) / 8);
        }
        it := it + 8;
      }
    }
    while it < |text|
      invariant it <= |text| && ByteScan(text, start, IsQuote) == ByteScan(text, it, IsQuote)
    {
      if text[it] == QUOTE {
        return Some(it);
      }
      it := it + 1;
    }
    r := None;
  }
}
