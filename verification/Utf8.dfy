/** UTF-8 as the JSON code reads and writes it (RFC 3629).  Bytes are integers below 256, so a
  * shift by six is a division by 64, and joining disjoint bits is an addition. */
module Utf8 {
  import opened Wire
  import opened Wrappers

  predicate IsSurrogate(cp: nat) {
    0xD800 <= cp <= 0xDFFF
  }

  /** A Unicode scalar value. */
  predicate IsScalar(cp: nat) {
    cp <= 0x10_FFFF && !IsSurrogate(cp)
  }

  /** `encode_utf8` */
  function EncodeUtf8(cp: nat): (s: bytes)
    requires cp <= 0x10_FFFF
    ensures |s| == if cp <= 0x7F then 1 else if cp <= 0x7FF then 2 else if cp <= 0xFFFF then 3 else 4
  {
    if cp <= 0x7F then [cp]
    else if cp <= 0x7FF then [0xC0 + cp / 64, 0x80 + cp % 64]
    else if cp <= 0xFFFF then [0xE0 + cp / 4096, 0x80 + cp / 64 % 64, 0x80 + cp % 64]
    else [0xF0 + cp / 0x4_0000, 0x80 + cp / 4096 % 64, 0x80 + cp / 64 % 64, 0x80 + cp % 64]
  }

  // ----- decoding by the grammar of the standard (section 4) ------------------------------------------------

  predicate IsTail(b: byte) {
    0x80 <= b <= 0xBF
  }

  /** How long the well-formed sequence is that the four bytes start with; 0 if there is none. */
  function WellFormedLength(b0: byte, b1: byte, b2: byte, b3: byte): (n: nat)
    ensures n <= 4
  {
    if b0 <= 0x7F then 1
    else if 0xC2 <= b0 <= 0xDF then if IsTail(b1) then 2 else 0
    else if b0 == 0xE0 then if 0xA0 <= b1 <= 0xBF && IsTail(b2) then 3 else 0
    else if b0 == 0xED then if 0x80 <= b1 <= 0x9F && IsTail(b2) then 3 else 0
    else if 0xE1 <= b0 <= 0xEF then if IsTail(b1) && IsTail(b2) then 3 else 0
    else if b0 == 0xF0 then if 0x90 <= b1 <= 0xBF && IsTail(b2) && IsTail(b3) then 4 else 0
    else if b0 == 0xF4 then if 0x80 <= b1 <= 0x8F && IsTail(b2) && IsTail(b3) then 4 else 0
    else if 0xF1 <= b0 <= 0xF3 then if IsTail(b1) && IsTail(b2) && IsTail(b3) then 4 else 0
    else 0
  }

  function CodePoint(n: nat, b0: byte, b1: byte, b2: byte, b3: byte): nat {
    if n == 1 then b0
    else if n == 2 then b0 % 32 * 64 + b1 % 64
    else if n == 3 then b0 % 16 * 4096 + b1 % 64 * 64 + b2 % 64
    else b0 % 8 * 0x4_0000 + b1 % 64 * 4096 + b2 % 64 * 64 + b3 % 64
  }

  /** How many bytes are read for a sequence that begins with `c`, whatever they are. */
  function Wanted(c: byte): (n: nat)
    ensures 1 <= n <= 4
  {
    if 0xC2 <= c <= 0xDF then 2 else if 0xE0 <= c <= 0xEF then 3 else if 0xF0 <= c <= 0xF4 then 4 else 1
  }

  /** The text ends within its first sequence. */
  predicate Incomplete(s: bytes) {
    s != [] && Wanted(s[0]) > |s|
  }

  /** A byte of the sequence; zero for one that its first byte does not ask for. */
  function At(s: bytes, i: nat): byte {
    if i < |s| then s[i] else 0
  }

  /** The code point that `s` starts with, and its length. */
  function Decode(s: bytes): Option<(nat, nat)>
    requires s != [] && !Incomplete(s)
  {
    var n := WellFormedLength(At(s, 0), At(s, 1), At(s, 2), At(s, 3));
    if n == 0 then None else Some((CodePoint(n, At(s, 0), At(s, 1), At(s, 2), At(s, 3)), n))
  }

  lemma LengthIsWanted(b0: byte, b1: byte, b2: byte, b3: byte)
    ensures var n := WellFormedLength(b0, b1, b2, b3); n == 0 || n == Wanted(b0)
  {
  }

  /** Only the bytes that the first one asks for matter. */
  lemma WantedDecide(b0: byte, b1: byte, b2: byte, b3: byte)
    ensures Wanted(b0) < 4 ==> WellFormedLength(b0, b1, b2, b3) == WellFormedLength(b0, b1, b2, 0)
    ensures Wanted(b0) < 3 ==> WellFormedLength(b0, b1, b2, b3) == WellFormedLength(b0, b1, 0, 0)
    ensures Wanted(b0) < 2 ==> WellFormedLength(b0, b1, b2, b3) == WellFormedLength(b0, 0, 0, 0)
  {
  }

  lemma DecodePrefix(s: bytes, t: bytes)
    requires s != [] && !Incomplete(s)
    ensures !Incomplete(s + t) && Decode(s + t) == Decode(s)
  {
    hide WellFormedLength;
    assert (s + t)[0] == s[0];
    WantedDecide(At(s, 0), At(s, 1), At(s, 2), At(s, 3));
    WantedDecide(At(s, 0), At(s + t, 1), At(s + t, 2), At(s + t, 3));
    LengthIsWanted(At(s, 0), At(s, 1), At(s, 2), At(s, 3));
  }

  // ----- decoding as it is done ---------------------------------------------------------------------------------

  /** The class of a byte, the 256-entry table. */
  function GetRange(c: byte): bv8 {
    if c <= 0x7F then 0
    else if c <= 0x8F then 0x10
    else if c <= 0x9F then 0x40
    else if c <= 0xBF then 0x20
    else if c <= 0xC1 then 8
    else if c <= 0xDF then 2
    else if c == 0xE0 then 10
    else if c <= 0xEC then 3
    else if c == 0xED then 4
    else if c <= 0xEF then 3
    else if c == 0xF0 then 11
    else if c <= 0xF3 then 6
    else if c == 0xF4 then 5
    else 8
  }

  predicate InRange(c: byte, mask: bv8) {
    GetRange(c) & mask != 0
  }

  lemma Ranges(c: byte)
    ensures InRange(c, 0x70) <==> 0x80 <= c <= 0xBF
    ensures InRange(c, 0x50) <==> 0x80 <= c <= 0x9F
    ensures InRange(c, 0x10) <==> 0x80 <= c <= 0x8F
    ensures InRange(c, 0x20) <==> 0xA0 <= c <= 0xBF
    ensures InRange(c, 0x60) <==> 0x90 <= c <= 0xBF
  {
  }

  /** The cursor and the code point that `decode_utf8` moves and builds step by step.  It does not
    * know where the text ends: the memory goes on behind it. */
  class Decoder {
    const memory: bytes
    var it: nat
    var codepoint: nat
    var result: bool

    constructor (memory: bytes, start: nat)
      ensures this.memory == memory && it == start && codepoint == 0 && result
    {
      this.memory := memory;
      it, codepoint, result := start, 0, true;
    }

    /** `copy` and `trans`: one more byte, which must be in the range. */
    method Tail(mask: bv8)
      requires it < |memory|
      modifies this
      ensures it == old(it) + 1
      ensures codepoint == old(codepoint) * 64 + memory[old(it)] % 64
      ensures result == (old(result) && InRange(memory[old(it)], mask))
    {
      var c := memory[it];
      it := it + 1;
      codepoint := codepoint * 64 + c % 64;
      result := result && InRange(c, mask);
    }

    method DecodeUtf8() returns (ok: bool)
      requires it < |memory| && !Incomplete(memory[it..]) && result
      modifies this
      ensures it == old(it) + Wanted(memory[old(it)])
      ensures match Decode(memory[old(it)..])
        case Some(r) => ok && codepoint == r.0 && it == old(it) + r.1
        case None => !ok
    {
      hide WellFormedLength;
      hide GetRange;
      hide FirstBits;
      hide InRange;
      ghost var ahead := memory[it..];
      ghost var b0, b1, b2, b3 := At(ahead, 0), At(ahead, 1), At(ahead, 2), At(ahead, 3);
      Kinds(b0, b1, b2, b3);
      KindWants(b0);
      LengthIsWanted(b0, b1, b2, b3);
      Ranges(b1);
      Ranges(b2);
      Ranges(b3);
      var c := memory[it];
      it := it + 1;
      if c < 0x80 {
        codepoint := c;
        return true;
      }
      var kind := GetRange(c);
      codepoint := FirstBits(kind, c);
      if kind == 2 {
        Tail(0x70);
      } else if kind == 3 {
        Tail(0x70);
        Tail(0x70);
      } else if kind == 4 {
        Tail(0x50);
        Tail(0x70);
      } else if kind == 5 {
        Tail(0x10);
        Tail(0x70);
        Tail(0x70);
      } else if kind == 6 {
        Tail(0x70);
        Tail(0x70);
        Tail(0x70);
      } else if kind == 10 {
        Tail(0x20);
        Tail(0x70);
      } else if kind == 11 {
        Tail(0x60);
        Tail(0x70);
        Tail(0x70);
      } else {
        return false;
      }
      ok := result;
    }
  }

  /** The classes of first bytes are the rows of the standard's grammar. */
  lemma Kinds(b0: byte, b1: byte, b2: byte, b3: byte)
    ensures b0 < 0x80 ==> WellFormedLength(b0, b1, b2, b3) == 1
    ensures b0 >= 0x80 ==>
      var n, kind, tails := WellFormedLength(b0, b1, b2, b3), GetRange(b0), IsTail(b2) && IsTail(b3);
      if kind == 2 then n == (if IsTail(b1) then 2 else 0) && FirstBits(kind, b0) == b0 % 32
      else if kind == 3 then n == (if IsTail(b1) && IsTail(b2) then 3 else 0) && FirstBits(kind, b0) == b0 % 16
      else if kind == 4 then n == (if b1 <= 0x9F && IsTail(b1) && IsTail(b2) then 3 else 0)
        && FirstBits(kind, b0) == b0 % 16
      else if kind == 5 then n == (if b1 <= 0x8F && IsTail(b1) && tails then 4 else 0) && FirstBits(kind, b0) == b0 % 8
      else if kind == 6 then n == (if IsTail(b1) && tails then 4 else 0) && FirstBits(kind, b0) == b0 % 8
      else if kind == 10 then n == (if b1 >= 0xA0 && IsTail(b1) && IsTail(b2) then 3 else 0)
        && FirstBits(kind, b0) == b0 % 16
      else if kind == 11 then n == (if b1 >= 0x90 && IsTail(b1) && tails then 4 else 0) && FirstBits(kind, b0) == b0 % 8
      else n == 0
  {
  }

  lemma KindWants(c: byte)
    ensures var kind := GetRange(c);
      Wanted(c) == if kind == 2 then 2 else if kind == 3 || kind == 4 || kind == 10 then 3
        else if kind == 5 || kind == 6 || kind == 11 then 4 else 1
  {
  }

  /** `(0xFF >> type) & c` */
  function FirstBits(kind: bv8, c: byte): nat {
    if kind == 2 then c % 64
    else if kind == 3 then c % 32
    else if kind == 4 then c % 16
    else if kind == 5 then c % 8
    else if kind == 6 then c % 4
    else 0
  }

  // ----- round trips --------------------------------------------------------------------------------------------

  /** A code point from its groups of six bits. */
  lemma Groups(cp: nat)
    requires cp <= 0x10_FFFF
    ensures cp == cp / 64 * 64 + cp % 64
    ensures cp / 64 == cp / 4096 * 64 + cp / 64 % 64
    ensures cp / 4096 == cp / 0x4_0000 * 64 + cp / 4096 % 64
  {
  }

  lemma TwoByteForm(cp: nat, b2: byte, b3: byte)
    requires 0x80 <= cp <= 0x7FF
    ensures WellFormedLength(0xC0 + cp / 64, 0x80 + cp % 64, 0, 0) == 2
    ensures CodePoint(2, 0xC0 + cp / 64, 0x80 + cp % 64, b2, b3) == cp
  {
  }

  lemma ThreeByteForm(cp: nat, b3: byte)
    requires 0x800 <= cp <= 0xFFFF
    ensures WellFormedLength(0xE0 + cp / 4096, 0x80 + cp / 64 % 64, 0x80 + cp % 64, b3) == if IsScalar(cp) then 3 else 0
    ensures CodePoint(3, 0xE0 + cp / 4096, 0x80 + cp / 64 % 64, 0x80 + cp % 64, b3) == cp
  {
    Groups(cp);
    var a, b := cp / 4096, cp / 64 % 64;
    assert cp / 64 == a * 64 + b;
    assert IsSurrogate(cp) <==> a == 13 && b >= 32;
    assert a == 0 ==> b >= 32;
  }

  lemma FourByteForm(cp: nat)
    requires 0x1_0000 <= cp <= 0x10_FFFF
    ensures WellFormedLength(0xF0 + cp / 0x4_0000, 0x80 + cp / 4096 % 64, 0x80 + cp / 64 % 64, 0x80 + cp % 64) == 4
    ensures CodePoint(4, 0xF0 + cp / 0x4_0000, 0x80 + cp / 4096 % 64, 0x80 + cp / 64 % 64, 0x80 + cp % 64) == cp
  {
    Groups(cp);
    var a, b := cp / 0x4_0000, cp / 4096 % 64;
    assert cp / 4096 == a * 64 + b;
    assert (a == 0 ==> b >= 16) && (a == 4 ==> b < 16);
  }

  lemma ShortForms(b0: byte, b1: byte, b2: byte, b3: byte)
    ensures b0 <= 0x7F ==> WellFormedLength(b0, b1, b2, b3) == 1 && CodePoint(1, b0, b1, b2, b3) == b0
    ensures b0 <= 0xDF ==> WellFormedLength(b0, b1, b2, b3) == WellFormedLength(b0, b1, 0, 0)
  {
  }

  lemma EncodedLength(cp: nat)
    requires cp <= 0x10_FFFF
    ensures Wanted(EncodeUtf8(cp)[0]) == |EncodeUtf8(cp)|
  {
  }

  /** Decoding what was encoded gives it back: exactly for the code points that are not surrogates. */
  lemma DecodeInvertsEncode(cp: nat, rest: bytes)
    requires cp <= 0x10_FFFF
    ensures !Incomplete(EncodeUtf8(cp) + rest)
    ensures Decode(EncodeUtf8(cp) + rest) == Some((cp, |EncodeUtf8(cp)|)) <==> IsScalar(cp)
  {
    hide WellFormedLength;
    hide CodePoint;
    EncodedLength(cp);
    var e, s := EncodeUtf8(cp), EncodeUtf8(cp) + rest;
    assert At(s, 0) == e[0] && (|e| > 1 ==> At(s, 1) == e[1]) && (|e| > 2 ==> At(s, 2) == e[2])
      && (|e| > 3 ==> At(s, 3) == e[3]);
    ShortForms(At(s, 0), At(s, 1), At(s, 2), At(s, 3));
    if 0x80 <= cp <= 0x7FF {
      TwoByteForm(cp, At(s, 2), At(s, 3));
    } else if 0x800 <= cp <= 0xFFFF {
      ThreeByteForm(cp, At(s, 3));
    } else if cp > 0xFFFF {
      FourByteForm(cp);
    }
  }

  /** What is accepted is the encoding of a scalar value, and of no other length than that. */
  lemma EncodeInvertsDecode(s: bytes)
    requires s != [] && !Incomplete(s) && Decode(s).Some?
    ensures var r := Decode(s).value; IsScalar(r.0) && r.1 == Wanted(s[0]) && EncodeUtf8(r.0) == s[..r.1]
  {
    var b0, b1, b2, b3 := At(s, 0), At(s, 1), At(s, 2), At(s, 3);
    var n := WellFormedLength(b0, b1, b2, b3);
    EncodedBack(n, b0, b1, b2, b3);
    LengthIsWanted(b0, b1, b2, b3);
    assert (n == 2 ==> s[..n] == [b0, b1]) && (n == 3 ==> s[..n] == [b0, b1, b2])
      && (n == 4 ==> s[..n] == [b0, b1, b2, b3]);
  }

  lemma Regroup(a: nat, b: nat, c: nat, d: nat)
    requires b < 64 && c < 64 && d < 64
    ensures var cp := a * 0x4_0000 + b * 4096 + c * 64 + d;
      cp % 64 == d && cp / 64 % 64 == c && cp / 4096 % 64 == b && cp / 0x4_0000 == a && cp / 64 == a * 4096 + b * 64 + c
      && cp / 4096 == a * 64 + b
  {
    var cp := a * 0x4_0000 + b * 4096 + c * 64 + d;
    assert cp / 64 == a * 4096 + b * 64 + c;
    assert cp / 4096 == a * 64 + b;
  }

  lemma EncodedBack(n: nat, b0: byte, b1: byte, b2: byte, b3: byte)
    requires n == WellFormedLength(b0, b1, b2, b3) > 0
    ensures IsScalar(CodePoint(n, b0, b1, b2, b3))
    ensures EncodeUtf8(CodePoint(n, b0, b1, b2, b3))
      == if n == 1 then [b0] else if n == 2 then [b0, b1] else if n == 3 then [b0, b1, b2] else [b0, b1, b2, b3]
  {
    if n == 2 {
      TwoBytesBack(b0, b1);
      ShortForms(b0, b1, b2, b3);
    } else if n == 3 {
      ThreeBytesBack(b0, b1, b2, b3);
    } else if n == 4 {
      FourBytesBack(b0, b1, b2, b3);
    }
  }

  lemma TwoBytesBack(b0: byte, b1: byte)
    requires WellFormedLength(b0, b1, 0, 0) == 2
    ensures var cp := CodePoint(2, b0, b1, 0, 0); IsScalar(cp) && EncodeUtf8(cp) == [b0, b1]
  {
    Regroup(0, 0, b0 - 0xC0, b1 - 0x80);
  }

  lemma ThreeRanges(b0: byte, b1: byte, b2: byte, b3: byte)
    requires WellFormedLength(b0, b1, b2, b3) == 3
    ensures 0xE0 <= b0 <= 0xEF && IsTail(b1) && IsTail(b2)
    ensures (b0 == 0xE0 ==> b1 >= 0xA0) && (b0 == 0xED ==> b1 < 0xA0)
  {
  }

  lemma ThreeGroups(a: nat, b: nat, c: nat)
    requires a <= 15 && b < 64 && c < 64 && (a == 0 ==> b >= 32) && (a == 13 ==> b < 32)
    ensures var cp := a * 4096 + b * 64 + c;
      0x800 <= cp <= 0xFFFF && IsScalar(cp) && EncodeUtf8(cp) == [0xE0 + a, 0x80 + b, 0x80 + c]
  {
    Regroup(0, a, b, c);
  }

  lemma ThreeBytesBack(b0: byte, b1: byte, b2: byte, b3: byte)
    requires WellFormedLength(b0, b1, b2, b3) == 3
    ensures var cp := CodePoint(3, b0, b1, b2, b3); IsScalar(cp) && EncodeUtf8(cp) == [b0, b1, b2]
  {
    hide WellFormedLength;
    ThreeRanges(b0, b1, b2, b3);
    assert b0 % 16 == b0 - 0xE0 && b1 % 64 == b1 - 0x80 && b2 % 64 == b2 - 0x80;
    ThreeGroups(b0 - 0xE0, b1 - 0x80, b2 - 0x80);
  }

  lemma FourRanges(b0: byte, b1: byte, b2: byte, b3: byte)
    requires WellFormedLength(b0, b1, b2, b3) == 4
    ensures 0xF0 <= b0 <= 0xF4 && IsTail(b1) && IsTail(b2) && IsTail(b3)
    ensures (b0 == 0xF0 ==> b1 >= 0x90) && (b0 == 0xF4 ==> b1 < 0x90)
  {
  }

  lemma FourGroups(a: nat, b: nat, c: nat, d: nat)
    requires a <= 4 && b < 64 && c < 64 && d < 64 && (a == 0 ==> b >= 16) && (a == 4 ==> b < 16)
    ensures var cp := a * 0x4_0000 + b * 4096 + c * 64 + d;
      0x1_0000 <= cp <= 0x10_FFFF && EncodeUtf8(cp) == [0xF0 + a, 0x80 + b, 0x80 + c, 0x80 + d]
  {
    Regroup(a, b, c, d);
  }

  lemma FourBytesBack(b0: byte, b1: byte, b2: byte, b3: byte)
    requires WellFormedLength(b0, b1, b2, b3) == 4
    ensures var cp := CodePoint(4, b0, b1, b2, b3); IsScalar(cp) && EncodeUtf8(cp) == [b0, b1, b2, b3]
  {
    hide EncodeUtf8;
    hide WellFormedLength;
    FourRanges(b0, b1, b2, b3);
    assert b0 % 8 == b0 - 0xF0 && b1 % 64 == b1 - 0x80 && b2 % 64 == b2 - 0x80 && b3 % 64 == b3 - 0x80;
    FourGroups(b0 - 0xF0, b1 - 0x80, b2 - 0x80, b3 - 0x80);
  }

  // ----- order -----------------------------------------------------------------------------------

  /** Byte by byte, `s` comes before `t`, and neither begins the other. */
  ghost predicate Before(s: bytes, t: bytes) {
    exists k :: 0 <= k < |s| && k < |t| && s[k] < t[k] && forall i | 0 <= i < k :: s[i] == t[i]
  }

  lemma DiffersAt(s: bytes, t: bytes, k: nat)
    requires k < |s| && k < |t| && s[k] < t[k] && forall i | 0 <= i < k :: s[i] == t[i]
    ensures Before(s, t)
  {
  }

  lemma DigitOrder(a: nat, x: nat, b: nat, y: nat)
    requires a * 64 + x < b * 64 + y && x < 64 && y < 64
    ensures a < b || (a == b && x < y)
  {
  }

  lemma SameLengthOrder(p: nat, q: nat)
    requires p < q <= 0x10_FFFF && |EncodeUtf8(p)| == |EncodeUtf8(q)|
    ensures Before(EncodeUtf8(p), EncodeUtf8(q))
  {
    Groups(p);
    Groups(q);
    var s, t := EncodeUtf8(p), EncodeUtf8(q);
    DigitOrder(p / 64, p % 64, q / 64, q % 64);
    if p / 64 == q / 64 || |s| == 1 {
      DiffersAt(s, t, |s| - 1);
      return;
    }
    DigitOrder(p / 4096, p / 64 % 64, q / 4096, q / 64 % 64);
    if p / 4096 == q / 4096 {
      DiffersAt(s, t, |s| - 2);
      return;
    }
    DigitOrder(p / 0x4_0000, p / 4096 % 64, q / 0x4_0000, q / 4096 % 64);
    if p / 0x4_0000 == q / 0x4_0000 {
      DiffersAt(s, t, |s| - 3);
    } else {
      DiffersAt(s, t, 0);
    }
  }

  /** Encodings are ordered as the code points are (section 1 of RFC 3629).  There is only one
    * way to map the scalar values to the well-formed sequences in order. */
  lemma OrderIsKept(p: nat, q: nat)
    requires p < q <= 0x10_FFFF
    ensures Before(EncodeUtf8(p), EncodeUtf8(q))
  {
    if |EncodeUtf8(p)| == |EncodeUtf8(q)| {
      SameLengthOrder(p, q);
    } else {
      DiffersAt(EncodeUtf8(p), EncodeUtf8(q), 0);
    }
  }
}
