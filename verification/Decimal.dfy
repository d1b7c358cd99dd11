/** Printing a decimal significand and exponent by fixed-point multiplications, two digits at a
  * time.  Words are integers, so a shift by 32 is a division by `TWO_32` and the cast to 32
  * bits a remainder. */
module Decimal {

  const TWO_16: int := 0x1_0000
  const TWO_25: int := 0x200_0000
  const TWO_32: int := 0x1_0000_0000

  // ----- decimal text -----------------------------------------------------------------------------------

  function Digit(d: nat): char
    requires d < 10
  {
    ('0' as int + d) as char
  }

  /** The last `w` decimal digits of `n`. */
  function Digits(n: nat, w: nat): (s: string)
    ensures |s| == w
  {
    if w == 0 then "" else Digits(n / 10, w - 1) + [Digit(n % 10)]
  }

  /** `n` in decimal, without leading zeros. */
  function Dec(n: nat): (s: string)
    ensures |s| >= 1
  {
    if n < 10 then [Digit(n)] else Dec(n / 10) + [Digit(n % 10)]
  }

  function Trimmed(s: string): (t: string)
    ensures |t| <= |s| && t == s[..|t|]
  {
    if s == "" || s[|s| - 1] != '0' then s else Trimmed(s[..|s| - 1])
  }

  /** The decimal point goes behind the first digit, if there are more. */
  function Pointed(digits: string): string {
    if |digits| <= 1 then digits else digits[..1] + "." + digits[1..]
  }

  function Power10(k: nat): (p: nat)
    ensures p >= 1
  {
    if k == 0 then 1 else 10 * Power10(k - 1)
  }

  /** `n` without its last `w` digits. */
  function High(n: nat, w: nat): nat {
    if w == 0 then n else High(n / 10, w - 1)
  }

  /** The number that the last `w` digits make. */
  function Low(n: nat, w: nat): (r: nat)
    ensures r < Power10(w)
  {
    if w == 0 then 0 else Low(n / 10, w - 1) * 10 + n % 10
  }

  lemma TwoMore(n: nat, w: nat)
    ensures High(n, w + 2) == High(n / 100, w)
    ensures Low(n, w + 2) == Low(n / 100, w) * 100 + n % 100
  {
    assert n / 10 / 10 == n / 100;
    assert High(n, w + 2) == High(n / 10, w + 1);
    assert Low(n, w + 2) == Low(n / 10, w + 1) * 10 + n % 10;
  }

  lemma HighAndLow(n: nat)
    ensures High(n, 2) == n / 100 && Low(n, 2) == n % 100
    ensures High(n, 4) == n / 1_0000 && Low(n, 4) == n % 1_0000
    ensures High(n, 6) == n / 100_0000 && Low(n, 6) == n % 100_0000
    ensures High(n, 8) == n / 1_0000_0000 && Low(n, 8) == n % 1_0000_0000
  {
    hide High;
    hide Low;
    var a, b, c := n / 100, n / 1_0000, n / 100_0000;
    Whole(n);
    Whole(a);
    Whole(b);
    Whole(c);
    TwoMore(n, 0);
    TwoMore(n, 2);
    TwoMore(n, 4);
    TwoMore(n, 6);
    TwoMore(a, 0);
    TwoMore(a, 2);
    TwoMore(a, 4);
    TwoMore(b, 0);
    TwoMore(b, 2);
    TwoMore(c, 0);
    Hundreds(n, a, b, c);
  }

  lemma Hundreds(n: nat, a: nat, b: nat, c: nat)
    requires a == n / 100 && b == n / 1_0000 && c == n / 100_0000
    ensures a / 100 == b && b / 100 == c && c / 100 == n / 1_0000_0000
    ensures n % 1_0000 == a % 100 * 100 + n % 100
    ensures n % 100_0000 == (b % 100 * 100 + a % 100) * 100 + n % 100
    ensures n % 1_0000_0000 == ((c % 100 * 100 + b % 100) * 100 + a % 100) * 100 + n % 100
  {
  }

  lemma Whole(n: nat)
    ensures High(n / 100, 0) == n / 100 && Low(n / 100, 0) == 0
  {
  }

  lemma {:induction false} DigitsConcat(n: nat, v: nat, w: nat)
    ensures Digits(n, v + w) == Digits(High(n, w), v) + Digits(Low(n, w), w)
    decreases w
  {
    if w == 0 {
      assert Digits(n, v) + "" == Digits(n, v);
    } else {
      DigitsConcat(n / 10, v, w - 1);
      assert Low(n, w) / 10 == Low(n / 10, w - 1) && Low(n, w) % 10 == n % 10;
    }
  }

  lemma {:induction false} DecConcat(n: nat, w: nat)
    requires High(n, w) >= 1
    ensures Dec(n) == Dec(High(n, w)) + Digits(Low(n, w), w)
    decreases w
  {
    if w == 0 {
      assert Dec(n) + "" == Dec(n);
    } else {
      DecConcat(n / 10, w - 1);
      HighPositive(n / 10, w - 1);
      assert n >= 10;
      assert Low(n, w) / 10 == Low(n / 10, w - 1) && Low(n, w) % 10 == n % 10;
    }
  }

  lemma {:induction false} HighPositive(n: nat, w: nat)
    ensures High(n, w) <= n
    decreases w
  {
    if w > 0 {
      HighPositive(n / 10, w - 1);
    }
  }

  lemma {:induction false} TrimmedConcat(a: string, b: string)
    ensures Trimmed(a + b) == if Trimmed(b) == "" then Trimmed(a) else a + Trimmed(b)
  {
    if b == "" {
      assert a + b == a;
    } else {
      var n := |b| - 1;
      assert (a + b)[..|a + b| - 1] == a + b[..n];
      TrimmedConcat(a, b[..n]);
    }
  }

  lemma {:induction false} TrimmedZero(r: nat, w: nat)
    requires r < Power10(w)
    ensures Trimmed(Digits(r, w)) == "" <==> r == 0
  {
    if w > 0 {
      TrimmedZero(r / 10, w - 1);
      assert Digits(r, w)[..w - 1] == Digits(r / 10, w - 1);
    }
  }

  // ----- the multiply-and-shift core -----------------------------------------------------------------------

  /** `lo` / 2^32 approximates the fraction `r` / `m` from above, closely enough. */
  ghost predicate Fraction(lo: int, m: int, r: int, e: int) {
    0 <= lo < TWO_32 && 0 <= r < m && 0 <= e < TWO_32 && lo * m == r * TWO_32 + e
  }

  // One step: the next two digits are the high word, and the rest is again such a fraction.

  lemma LastTwo(lo: int, r: int, e: int)
    requires Fraction(lo, 100, r, e)
    ensures var prod := lo * 100;
      prod / TWO_32 == r / 1 && 0 <= r / 1 < 100 && Fraction(prod % TWO_32, 1, r % 1, e)
  {
    var prod := lo * 100;
    var t := r - prod / TWO_32 * 1;
    assert prod % TWO_32 * 1 == t * TWO_32 + e;
  }

  lemma TwoOfFour(lo: int, r: int, e: int)
    requires Fraction(lo, 1_0000, r, e)
    ensures var prod := lo * 100;
      prod / TWO_32 == r / 100 && 0 <= r / 100 < 100 && Fraction(prod % TWO_32, 100, r % 100, e)
  {
    var prod := lo * 100;
    var t := r - prod / TWO_32 * 100;
    assert prod % TWO_32 * 100 == t * TWO_32 + e;
  }

  lemma TwoOfSix(lo: int, r: int, e: int)
    requires Fraction(lo, 100_0000, r, e)
    ensures var prod := lo * 100;
      prod / TWO_32 == r / 1_0000 && 0 <= r / 1_0000 < 100 && Fraction(prod % TWO_32, 1_0000, r % 1_0000, e)
  {
    var prod := lo * 100;
    var t := r - prod / TWO_32 * 1_0000;
    assert prod % TWO_32 * 1_0000 == t * TWO_32 + e;
  }

  lemma TwoOfEight(lo: int, r: int, e: int)
    requires Fraction(lo, 1_0000_0000, r, e)
    ensures var prod := lo * 100;
      prod / TWO_32 == r / 100_0000 && 0 <= r / 100_0000 < 100 && Fraction(prod % TWO_32, 100_0000, r % 100_0000, e)
  {
    var prod := lo * 100;
    var t := r - prod / TWO_32 * 100_0000;
    assert prod % TWO_32 * 100_0000 == t * TWO_32 + e;
  }

  /** The threshold test is exact: the remaining digits are all zero. */
  lemma ZeroTest(lo: int, m: int, r: int, e: int)
    requires m == 100 || m == 1_0000 || m == 100_0000
    requires Fraction(lo, m, r, e)
    ensures lo <= TWO_32 / m <==> r == 0
  {
  }

  /** 9 digits: 1441151882 = ceil(2^57 / 10^8) + 1 */
  lemma NineDigits(n: int)
    requires 1_0000_0000 <= n < 10_0000_0000
    ensures var prod := n * 1441151882 / TWO_25;
      && n * 1441151882 < 0x1_0000_0000_0000_0000
      && prod / TWO_32 == n / 1_0000_0000
      && Fraction(prod % TWO_32, 1_0000_0000, n % 1_0000_0000, prod * 1_0000_0000 - n * TWO_32)
  {
    var prod := n * 1441151882 / TWO_25;
    assert n * TWO_32 <= prod * 1_0000_0000 < (n + 1) * TWO_32;
  }

  /** 7 or 8 digits: 281474978 = ceil(2^48 / 10^6) + 1 */
  lemma EightDigits(n: int)
    requires 100_0000 <= n < 1_0000_0000
    ensures var prod := n * 281474978 / TWO_16;
      && prod / TWO_32 == n / 100_0000
      && Fraction(prod % TWO_32, 100_0000, n % 100_0000, prod * 100_0000 - n * TWO_32)
  {
    var prod := n * 281474978 / TWO_16;
    assert n * TWO_32 <= prod * 100_0000 < (n + 1) * TWO_32;
  }

  /** The second block of 8 digits may have leading zeros: one is added to the product. */
  lemma SecondBlock(n: int)
    requires 0 <= n < 1_0000_0000
    ensures var prod := n * 281474978 / TWO_16 + 1;
      && prod / TWO_32 == n / 100_0000
      && Fraction(prod % TWO_32, 100_0000, n % 100_0000, prod * 100_0000 - n * TWO_32)
  {
    var prod := n * 281474978 / TWO_16 + 1;
    assert n * TWO_32 <= prod * 100_0000 < (n + 1) * TWO_32;
  }

  /** 5 or 6 digits: 429497 = ceil(2^32 / 10^4) */
  lemma SixDigits(n: int)
    requires 0 <= n < 100_0000
    ensures var prod := n * 429497;
      && prod / TWO_32 == n / 1_0000
      && Fraction(prod % TWO_32, 1_0000, n % 1_0000, prod * 1_0000 - n * TWO_32)
  {
  }

  /** 3 or 4 digits: 42949673 = ceil(2^32 / 100) */
  lemma FourDigits(n: int)
    requires 0 <= n < 1_0000
    ensures var prod := n * 42949673;
      && prod / TWO_32 == n / 100
      && Fraction(prod % TWO_32, 100, n % 100, prod * 100 - n * TWO_32)
  {
  }

  /** The three digits of an exponent: 6554 = ceil(2^16 / 10) */
  lemma ThreeDigits(x: int)
    requires 0 <= x < 1000
    ensures x * 6554 / TWO_16 == x / 10
    ensures x * 6554 % TWO_16 * 5 / 0x8000 == x % 10
  {
  }

  // ----- writing digits ------------------------------------------------------------------------------------

  lemma TwoDigits(d: nat)
    requires d < 100
    ensures Digits(d, 2) == [Digit(d / 10), Digit(d % 10)]
    ensures Dec(d) == if d < 10 then [Digit(d)] else [Digit(d / 10), Digit(d % 10)]
    ensures Digit(d % 10) > '0' <==> d % 10 != 0
    ensures d > 0 ==> Trimmed(Digits(d, 2)) == if d % 10 != 0 then Digits(d, 2) else [Digit(d / 10)]
    ensures d > 0 ==> Trimmed(Dec(d)) == if d >= 10 && d % 10 == 0 then [Digit(d / 10)] else Dec(d)
  {
    assert Digits(d / 10, 1) == Digits(0, 0) + [Digit(d / 10)];
    assert [Digit(d / 10), Digit(d % 10)][..1] == [Digit(d / 10)];
    if d >= 10 {
      assert Dec(d / 10) == [Digit(d / 10)];
    }
  }

  /** Two digits from `radix_100_table`. */
  method PutTwo(buffer: array<char>, p: nat, d: nat)
    requires d < 100 && p + 2 <= buffer.Length
    modifies buffer
    ensures buffer[..p + 2] == old(buffer[..p]) + Digits(d, 2)
    ensures buffer[p + 1] == Digit(d % 10)
  {
    TwoDigits(d);
    buffer[p] := Digit(d / 10);
    buffer[p + 1] := Digit(d % 10);
  }

  /** How many of the two digits just written stay: not a final zero. */
  function CutZero(p: nat, second: char): nat {
    p + 1 + if second > '0' then 1 else 0
  }

  lemma CutTwo(s: string, before: string, d: nat)
    requires 0 < d < 100 && s == before + Digits(d, 2)
    ensures var q := CutZero(|before|, Digit(d % 10)); q <= |s| && s[..q] == before + Trimmed(Digits(d, 2))
  {
    TwoDigits(d);
  }

  /** The digits that remain, first two and others. */
  lemma SplitRest(r: nat, w: nat)
    requires w == 2 || w == 4 || w == 6
    requires r < 100 * Power10(w)
    ensures High(r, w) < 100
    ensures Digits(r, w + 2) == Digits(High(r, w), 2) + Digits(Low(r, w), w)
    ensures Trimmed(Digits(r, w + 2))
      == if Low(r, w) == 0 then Trimmed(Digits(High(r, w), 2))
        else Digits(High(r, w), 2) + Trimmed(Digits(Low(r, w), w))
  {
    HighAndLow(r);
    Powers();
    hide Digits;
    hide Low;
    hide High;
    hide Trimmed;
    DigitsConcat(r, 2, w);
    TrimmedConcat(Digits(High(r, w), 2), Digits(Low(r, w), w));
    TrimmedZero(Low(r, w), w);
  }

  lemma Powers()
    ensures Power10(2) == 100 && Power10(4) == 1_0000 && Power10(6) == 100_0000 && Power10(8) == 1_0000_0000
  {
    assert Power10(2) == 100;
    assert Power10(4) == 1_0000;
    assert Power10(6) == 100_0000;
  }

  /** The last two digits, not both zero, without a final zero. */
  method RestTwo(buffer: array<char>, p: nat, lo: int, ghost r: nat, ghost e: int) returns (q: nat)
    requires Fraction(lo, 100, r, e) && r > 0 && p + 2 <= buffer.Length
    modifies buffer
    ensures p <= q <= buffer.Length && buffer[..q] == old(buffer[..p]) + Trimmed(Digits(r, 2))
  {
    ghost var before := buffer[..p];
    LastTwo(lo, r, e);
    var prod := lo * 100;
    PutTwo(buffer, p, prod / TWO_32);
    CutTwo(buffer[..p + 2], before, r);
    q := CutZero(p, buffer[p + 1]);
    assert buffer[..p + 2][..q] == buffer[..q];
  }

  /** The last four digits, not all zero, without final zeros. */
  method RestFour(buffer: array<char>, p: nat, lo: int, ghost r: nat, ghost e: int) returns (q: nat)
    requires Fraction(lo, 1_0000, r, e) && r > 0 && p + 4 <= buffer.Length
    modifies buffer
    ensures p <= q <= buffer.Length && buffer[..q] == old(buffer[..p]) + Trimmed(Digits(r, 4))
  {
    ghost var before := buffer[..p];
    TwoOfFour(lo, r, e);
    HighAndLow(r);
    Powers();
    SplitRest(r, 2);
    var prod := lo * 100;
    var twoDigits := prod / TWO_32;
    PutTwo(buffer, p, twoDigits);
    ZeroTest(prod % TWO_32, 100, r % 100, e);
    if prod % TWO_32 <= TWO_32 / 100 {
      CutTwo(buffer[..p + 2], before, r / 100);
      q := CutZero(p, buffer[p + 1]);
      assert buffer[..p + 2][..q] == buffer[..q];
    } else {
      q := RestTwo(buffer, p + 2, prod % TWO_32, r % 100, e);
      Join(before, Digits(r / 100, 2), Trimmed(Digits(r % 100, 2)));
    }
  }

  lemma Join(a: string, b: string, c: string)
    ensures a + b + c == a + (b + c)
  {
  }

  /** The last six digits, not all zero, without final zeros. */
  method RestSix(buffer: array<char>, p: nat, lo: int, ghost r: nat, ghost e: int) returns (q: nat)
    requires Fraction(lo, 100_0000, r, e) && r > 0 && p + 6 <= buffer.Length
    modifies buffer
    ensures p <= q <= buffer.Length && buffer[..q] == old(buffer[..p]) + Trimmed(Digits(r, 6))
  {
    ghost var before := buffer[..p];
    TwoOfSix(lo, r, e);
    HighAndLow(r);
    Powers();
    SplitRest(r, 4);
    var prod := lo * 100;
    var twoDigits := prod / TWO_32;
    PutTwo(buffer, p, twoDigits);
    ZeroTest(prod % TWO_32, 1_0000, r % 1_0000, e);
    if prod % TWO_32 <= TWO_32 / 1_0000 {
      CutTwo(buffer[..p + 2], before, r / 1_0000);
      q := CutZero(p, buffer[p + 1]);
      assert buffer[..p + 2][..q] == buffer[..q];
    } else {
      q := RestFour(buffer, p + 2, prod % TWO_32, r % 1_0000, e);
      Join(before, Digits(r / 1_0000, 2), Trimmed(Digits(r % 1_0000, 4)));
    }
  }

  // The same digits without cutting zeros.

  method AllTwo(buffer: array<char>, p: nat, lo: int, ghost r: nat, ghost e: int)
    requires Fraction(lo, 100, r, e) && p + 2 <= buffer.Length
    modifies buffer
    ensures buffer[..p + 2] == old(buffer[..p]) + Digits(r, 2)
  {
    LastTwo(lo, r, e);
    PutTwo(buffer, p, lo * 100 / TWO_32);
  }

  method AllFour(buffer: array<char>, p: nat, lo: int, ghost r: nat, ghost e: int)
    requires Fraction(lo, 1_0000, r, e) && p + 4 <= buffer.Length
    modifies buffer
    ensures buffer[..p + 4] == old(buffer[..p]) + Digits(r, 4)
  {
    ghost var before := buffer[..p];
    TwoOfFour(lo, r, e);
    HighAndLow(r);
    Powers();
    SplitRest(r, 2);
    PutTwo(buffer, p, lo * 100 / TWO_32);
    AllTwo(buffer, p + 2, lo * 100 % TWO_32, r % 100, e);
    Join(before, Digits(r / 100, 2), Digits(r % 100, 2));
  }

  method AllSix(buffer: array<char>, p: nat, lo: int, ghost r: nat, ghost e: int)
    requires Fraction(lo, 100_0000, r, e) && p + 6 <= buffer.Length
    modifies buffer
    ensures buffer[..p + 6] == old(buffer[..p]) + Digits(r, 6)
  {
    ghost var before := buffer[..p];
    TwoOfSix(lo, r, e);
    HighAndLow(r);
    Powers();
    SplitRest(r, 4);
    PutTwo(buffer, p, lo * 100 / TWO_32);
    AllFour(buffer, p + 2, lo * 100 % TWO_32, r % 1_0000, e);
    Join(before, Digits(r / 1_0000, 2), Digits(r % 1_0000, 4));
  }

  method AllEight(buffer: array<char>, p: nat, lo: int, ghost r: nat, ghost e: int)
    requires Fraction(lo, 1_0000_0000, r, e) && p + 8 <= buffer.Length
    modifies buffer
    ensures buffer[..p + 8] == old(buffer[..p]) + Digits(r, 8)
  {
    ghost var before := buffer[..p];
    TwoOfEight(lo, r, e);
    HighAndLow(r);
    Powers();
    SplitRest(r, 6);
    PutTwo(buffer, p, lo * 100 / TWO_32);
    AllSix(buffer, p + 2, lo * 100 % TWO_32, r % 100_0000, e);
    Join(before, Digits(r / 100_0000, 2), Digits(r % 100_0000, 6));
  }

  // ----- the significand ---------------------------------------------------------------------------------------

  /** First digit, point, and perhaps the second digit. */
  function HeadText(two: nat): string
    requires 0 < two < 100
  {
    if two < 10 then [Digit(two), '.'] else [Digit(two / 10), '.', Digit(two % 10)]
  }

  /** The first two characters from `radix_100_head_table`, and a third one that may be overwritten. */
  method PutHead(buffer: array<char>, p: nat, two: nat)
    requires 0 < two < 100 && p + 3 <= buffer.Length
    modifies buffer
    ensures buffer[..p + 2 + (if two >= 10 then 1 else 0)] == old(buffer[..p]) + HeadText(two)
    ensures buffer[..p + 1] == old(buffer[..p]) + [Digit(if two < 10 then two else two / 10)]
    ensures buffer[p + 2] == Digit(two % 10)
  {
    buffer[p] := Digit(if two < 10 then two else two / 10);
    buffer[p + 1] := '.';
    buffer[p + 2] := Digit(two % 10);
  }

  /** All remaining digits are zero. */
  method HeadOnly(buffer: array<char>, p: nat, two: nat) returns (q: nat)
    requires 0 < two < 100 && p + 3 <= buffer.Length
    modifies buffer
    ensures p <= q <= buffer.Length && buffer[..q] == old(buffer[..p]) + Pointed(Trimmed(Dec(two)))
  {
    TwoDigits(two);
    PutHead(buffer, p, two);
    q := p + 1 + (if two >= 10 && buffer[p + 2] > '0' then 2 else 0);
  }

  lemma HeadAndRest(two: nat, rest: string)
    requires 0 < two < 100 && rest != ""
    ensures HeadText(two) + rest == Pointed(Dec(two) + rest)
    ensures |Dec(two)| == if two >= 10 then 2 else 1
  {
    hide Dec;
    hide Digits;
    TwoDigits(two);
  }

  /** What `print_9_digits` prints: nine digits as they are, fewer without final zeros. */
  function Mantissa(n: nat): string {
    Pointed(if n >= 1_0000_0000 then Dec(n) else Trimmed(Dec(n)))
  }

  lemma SplitNumber(n: nat, w: nat, two: nat, r: nat)
    requires two == High(n, w) && r == Low(n, w) && 0 < two < 100
    ensures Dec(n) == Dec(two) + Digits(r, w)
    ensures |Dec(n)| == w + if two >= 10 then 2 else 1
    ensures Trimmed(Dec(n)) == if r == 0 then Trimmed(Dec(two)) else Dec(two) + Trimmed(Digits(r, w))
    ensures r != 0 ==> Trimmed(Digits(r, w)) != ""
  {
    hide Trimmed;
    hide Low;
    hide High;
    DecConcat(n, w);
    TwoDigits(two);
    TrimmedConcat(Dec(two), Digits(r, w));
    LowBound(n, w);
    TrimmedZero(r, w);
  }

  lemma LowBound(n: nat, w: nat)
    ensures Low(n, w) < Power10(w)
  {
  }

  /** Seven or eight digits, without final zeros. */
  method PrintSevenOrEight(n: nat, exponent: int, buffer: array<char>, p: nat) returns (exponent': int, q: nat)
    requires 100_0000 <= n < 1_0000_0000 && p + 10 <= buffer.Length
    modifies buffer
    ensures exponent' == exponent + |Dec(n)| - 1
    ensures p <= q <= buffer.Length && buffer[..q] == old(buffer[..p]) + Pointed(Trimmed(Dec(n)))
  {
    hide Trimmed;
    hide Dec;
    hide Digits;
    hide Pointed;
    ghost var before := buffer[..p];
    HighAndLow(n);
    EightDigits(n);
    var prod := n * 281474978 / TWO_16;
    var two := prod / TWO_32;
    ghost var r := n % 100_0000;
    SplitNumber(n, 6, two, r);
    exponent' := exponent + 6 + (if two >= 10 then 1 else 0);
    ZeroTest(prod % TWO_32, 100_0000, r, prod * 100_0000 - n * TWO_32);
    if prod % TWO_32 <= TWO_32 / 100_0000 {
      q := HeadOnly(buffer, p, two);
    } else {
      PutHead(buffer, p, two);
      q := RestSix(buffer, p + 2 + (if two >= 10 then 1 else 0), prod % TWO_32, r, prod * 100_0000 - n * TWO_32);
      HeadAndRest(two, Trimmed(Digits(r, 6)));
      Join(before, HeadText(two), Trimmed(Digits(r, 6)));
    }
  }

  /** Five or six digits, without final zeros. */
  method PrintFiveOrSix(n: nat, exponent: int, buffer: array<char>, p: nat) returns (exponent': int, q: nat)
    requires 1_0000 <= n < 100_0000 && p + 10 <= buffer.Length
    modifies buffer
    ensures exponent' == exponent + |Dec(n)| - 1
    ensures p <= q <= buffer.Length && buffer[..q] == old(buffer[..p]) + Pointed(Trimmed(Dec(n)))
  {
    hide Trimmed;
    hide Dec;
    hide Digits;
    hide Pointed;
    ghost var before := buffer[..p];
    HighAndLow(n);
    SixDigits(n);
    var prod := n * 429497;
    var two := prod / TWO_32;
    ghost var r := n % 1_0000;
    SplitNumber(n, 4, two, r);
    exponent' := exponent + 4 + (if two >= 10 then 1 else 0);
    ZeroTest(prod % TWO_32, 1_0000, r, prod * 1_0000 - n * TWO_32);
    if prod % TWO_32 <= TWO_32 / 1_0000 {
      q := HeadOnly(buffer, p, two);
    } else {
      PutHead(buffer, p, two);
      q := RestFour(buffer, p + 2 + (if two >= 10 then 1 else 0), prod % TWO_32, r, prod * 1_0000 - n * TWO_32);
      HeadAndRest(two, Trimmed(Digits(r, 4)));
      Join(before, HeadText(two), Trimmed(Digits(r, 4)));
    }
  }

  /** Three or four digits, without final zeros. */
  method PrintThreeOrFour(n: nat, exponent: int, buffer: array<char>, p: nat) returns (exponent': int, q: nat)
    requires 100 <= n < 1_0000 && p + 10 <= buffer.Length
    modifies buffer
    ensures exponent' == exponent + |Dec(n)| - 1
    ensures p <= q <= buffer.Length && buffer[..q] == old(buffer[..p]) + Pointed(Trimmed(Dec(n)))
  {
    hide Trimmed;
    hide Dec;
    hide Digits;
    hide Pointed;
    ghost var before := buffer[..p];
    HighAndLow(n);
    FourDigits(n);
    var prod := n * 42949673;
    var two := prod / TWO_32;
    ghost var r := n % 100;
    SplitNumber(n, 2, two, r);
    exponent' := exponent + 2 + (if two >= 10 then 1 else 0);
    ZeroTest(prod % TWO_32, 100, r, prod * 100 - n * TWO_32);
    if prod % TWO_32 <= TWO_32 / 100 {
      q := HeadOnly(buffer, p, two);
    } else {
      PutHead(buffer, p, two);
      q := RestTwo(buffer, p + 2 + (if two >= 10 then 1 else 0), prod % TWO_32, r, prod * 100 - n * TWO_32);
      HeadAndRest(two, Trimmed(Digits(r, 2)));
      Join(before, HeadText(two), Trimmed(Digits(r, 2)));
    }
  }

  /** Nine digits, all of them. */
  method PrintNine(n: nat, exponent: int, buffer: array<char>, p: nat) returns (exponent': int, q: nat)
    requires 1_0000_0000 <= n < 10_0000_0000 && p + 10 <= buffer.Length
    modifies buffer
    ensures exponent' == exponent + |Dec(n)| - 1 && |Dec(n)| == 9
    ensures q == p + 10 && buffer[..q] == old(buffer[..p]) + Pointed(Dec(n))
  {
    hide Trimmed;
    hide Dec;
    hide Digits;
    hide Pointed;
    ghost var before := buffer[..p];
    HighAndLow(n);
    NineDigits(n);
    var prod := n * 1441151882 / TWO_25;
    ghost var two, r := n / 1_0000_0000, n % 1_0000_0000;
    SplitNumber(n, 8, two, r);
    PutHead(buffer, p, prod / TWO_32);
    AllEight(buffer, p + 2, prod % TWO_32, r, prod * 1_0000_0000 - n * TWO_32);
    HeadAndRest(two, Digits(r, 8));
    Join(before, HeadText(two), Digits(r, 8));
    exponent' := exponent + 8;
    q := p + 10;
  }

  /** `print_9_digits` */
  method Print9Digits(n: nat, exponent: int, buffer: array<char>, p: nat) returns (exponent': int, q: nat)
    requires 0 < n < 10_0000_0000 && p + 10 <= buffer.Length
    modifies buffer
    ensures exponent' == exponent + |Dec(n)| - 1
    ensures p <= q <= buffer.Length && buffer[..q] == old(buffer[..p]) + Mantissa(n)
  {
    hide Trimmed;
    hide Dec;
    if n >= 1_0000_0000 {
      exponent', q := PrintNine(n, exponent, buffer, p);
    } else if n >= 100_0000 {
      exponent', q := PrintSevenOrEight(n, exponent, buffer, p);
    } else if n >= 1_0000 {
      exponent', q := PrintFiveOrSix(n, exponent, buffer, p);
    } else if n >= 100 {
      exponent', q := PrintThreeOrFour(n, exponent, buffer, p);
    } else {
      TwoDigits(n);
      exponent' := exponent + (if n >= 10 then 1 else 0);
      q := HeadOnly(buffer, p, n);
    }
  }

  // ----- seventeen digits -----------------------------------------------------------------------------------------

  /** The point is there in any case, since more digits follow. */
  function AlwaysPointed(digits: string): string
    requires digits != ""
  {
    digits[..1] + "." + digits[1..]
  }

  lemma HeadAlways(two: nat, rest: string)
    requires 0 < two < 100
    ensures HeadText(two) + rest == AlwaysPointed(Dec(two) + rest)
    ensures |Dec(two)| == if two >= 10 then 2 else 1
  {
    TwoDigits(two);
  }

  /** Seven or eight digits, all of them. */
  method AllSevenOrEight(n: nat, exponent: int, buffer: array<char>, p: nat) returns (exponent': int, q: nat)
    requires 100_0000 <= n < 1_0000_0000 && p + 10 <= buffer.Length
    modifies buffer
    ensures exponent' == exponent + |Dec(n)| - 1
    ensures q == p + |Dec(n)| + 1 <= buffer.Length && buffer[..q] == old(buffer[..p]) + AlwaysPointed(Dec(n))
  {
    hide Dec;
    hide Digits;
    ghost var before := buffer[..p];
    HighAndLow(n);
    EightDigits(n);
    var prod := n * 281474978 / TWO_16;
    var two := prod / TWO_32;
    ghost var r := n % 100_0000;
    SplitNumber(n, 6, two, r);
    PutHead(buffer, p, two);
    exponent' := exponent + 6 + (if two >= 10 then 1 else 0);
    q := p + (if two >= 10 then 1 else 0);
    AllSix(buffer, q + 2, prod % TWO_32, r, prod * 100_0000 - n * TWO_32);
    q := q + 2 + 6;
    HeadAlways(two, Digits(r, 6));
    Join(before, HeadText(two), Digits(r, 6));
  }

  /** Five or six digits, all of them. */
  method AllFiveOrSix(n: nat, exponent: int, buffer: array<char>, p: nat) returns (exponent': int, q: nat)
    requires 1_0000 <= n < 100_0000 && p + 10 <= buffer.Length
    modifies buffer
    ensures exponent' == exponent + |Dec(n)| - 1
    ensures q == p + |Dec(n)| + 1 <= buffer.Length && buffer[..q] == old(buffer[..p]) + AlwaysPointed(Dec(n))
  {
    hide Dec;
    hide Digits;
    ghost var before := buffer[..p];
    HighAndLow(n);
    SixDigits(n);
    var prod := n * 429497;
    var two := prod / TWO_32;
    ghost var r := n % 1_0000;
    SplitNumber(n, 4, two, r);
    PutHead(buffer, p, two);
    exponent' := exponent + 4 + (if two >= 10 then 1 else 0);
    q := p + (if two >= 10 then 1 else 0);
    AllFour(buffer, q + 2, prod % TWO_32, r, prod * 1_0000 - n * TWO_32);
    q := q + 2 + 4;
    HeadAlways(two, Digits(r, 4));
    Join(before, HeadText(two), Digits(r, 4));
  }

  /** Three or four digits, all of them. */
  method AllThreeOrFour(n: nat, exponent: int, buffer: array<char>, p: nat) returns (exponent': int, q: nat)
    requires 100 <= n < 1_0000 && p + 10 <= buffer.Length
    modifies buffer
    ensures exponent' == exponent + |Dec(n)| - 1
    ensures q == p + |Dec(n)| + 1 <= buffer.Length && buffer[..q] == old(buffer[..p]) + AlwaysPointed(Dec(n))
  {
    hide Dec;
    hide Digits;
    ghost var before := buffer[..p];
    HighAndLow(n);
    FourDigits(n);
    var prod := n * 42949673;
    var two := prod / TWO_32;
    ghost var r := n % 100;
    SplitNumber(n, 2, two, r);
    PutHead(buffer, p, two);
    exponent' := exponent + 2 + (if two >= 10 then 1 else 0);
    q := p + (if two >= 10 then 1 else 0);
    AllTwo(buffer, q + 2, prod % TWO_32, r, prod * 100 - n * TWO_32);
    q := q + 2 + 2;
    HeadAlways(two, Digits(r, 2));
    Join(before, HeadText(two), Digits(r, 2));
  }

  /** A first block of at most eight digits. */
  method FirstBlock(n: nat, exponent: int, buffer: array<char>, p: nat) returns (exponent': int, q: nat)
    requires 0 < n < 1_0000_0000 && p + 10 <= buffer.Length
    modifies buffer
    ensures exponent' == exponent + |Dec(n)| - 1
    ensures q == p + |Dec(n)| + 1 <= buffer.Length && buffer[..q] == old(buffer[..p]) + AlwaysPointed(Dec(n))
    ensures q <= p + 9
  {
    hide Dec;
    EightAtMost(n);
    if n >= 100_0000 {
      exponent', q := AllSevenOrEight(n, exponent, buffer, p);
    } else if n >= 1_0000 {
      exponent', q := AllFiveOrSix(n, exponent, buffer, p);
    } else if n >= 100 {
      exponent', q := AllThreeOrFour(n, exponent, buffer, p);
    } else {
      PutHead(buffer, p, n);
      HeadAlways(n, "");
      assert HeadText(n) + "" == HeadText(n) && Dec(n) + "" == Dec(n);
      exponent' := exponent + (if n >= 10 then 1 else 0);
      q := p + 2 + (if n >= 10 then 1 else 0);
    }
  }

  lemma EightAtMost(n: nat)
    requires n < 1_0000_0000
    ensures |Dec(n)| <= 8
  {
    assert |Dec(n / 1_0000_000)| == 1;
    var m := n / 10;
    assert |Dec(m / 10 / 10 / 10 / 10 / 10 / 10)| == 1;
    assert |Dec(m / 10 / 10 / 10 / 10 / 10)| <= 2;
    assert |Dec(m / 10 / 10 / 10 / 10)| <= 3;
    assert |Dec(m / 10 / 10 / 10)| <= 4;
    assert |Dec(m / 10 / 10)| <= 5;
    assert |Dec(m / 10)| <= 6;
    assert |Dec(m)| <= 7;
  }

  /** The second block without final zeros, behind a first one of at most eight digits. */
  method SecondBlockTrimmed(n: nat, buffer: array<char>, p: nat) returns (q: nat)
    requires 0 < n < 1_0000_0000 && p + 8 <= buffer.Length
    modifies buffer
    ensures p <= q <= buffer.Length && buffer[..q] == old(buffer[..p]) + Trimmed(Digits(n, 8))
  {
    hide Trimmed;
    hide Digits;
    hide High;
    hide Low;
    ghost var before := buffer[..p];
    HighAndLow(n);
    Powers();
    SplitRest(n, 6);
    SecondBlock(n);
    var prod := n * 281474978 / TWO_16 + 1;
    var two := prod / TWO_32;
    PutTwo(buffer, p, two);
    ghost var e := prod * 100_0000 - n * TWO_32;
    ZeroTest(prod % TWO_32, 100_0000, n % 100_0000, e);
    if prod % TWO_32 <= TWO_32 / 100_0000 {
      CutTwo(buffer[..p + 2], before, two);
      q := CutZero(p, buffer[p + 1]);
      assert buffer[..p + 2][..q] == buffer[..q];
    } else {
      q := RestSix(buffer, p + 2, prod % TWO_32, n % 100_0000, e);
      Join(before, Digits(two, 2), Trimmed(Digits(n % 100_0000, 6)));
    }
  }

  method SecondBlockAll(n: nat, buffer: array<char>, p: nat)
    requires 0 < n < 1_0000_0000 && p + 8 <= buffer.Length
    modifies buffer
    ensures buffer[..p + 8] == old(buffer[..p]) + Digits(n, 8)
  {
    hide Digits;
    hide High;
    hide Low;
    ghost var before := buffer[..p];
    HighAndLow(n);
    Powers();
    SplitRest(n, 6);
    SecondBlock(n);
    var prod := n * 281474978 / TWO_16 + 1;
    PutTwo(buffer, p, prod / TWO_32);
    AllSix(buffer, p + 2, prod % TWO_32, n % 100_0000, prod * 100_0000 - n * TWO_32);
    Join(before, Digits(n / 100_0000, 2), Digits(n % 100_0000, 6));
  }

  /** The digits that `to_chars` prints for a significand: 17 as they are, or the first nine if the
    * other eight are zero; fewer without final zeros. */
  function Shown(n: nat): string {
    if n < 1_0000_0000 then Trimmed(Dec(n))
    else
      var first, second := n / 1_0000_0000, n % 1_0000_0000;
      if second == 0 then if first >= 1_0000_0000 then Dec(first) else Trimmed(Dec(first))
      else if first >= 1_0000_0000 then Dec(n)
      else Trimmed(Dec(n))
  }

  lemma TwoBlocks(n: nat, first: nat, second: nat)
    requires first == n / 1_0000_0000 >= 1 && second == n % 1_0000_0000
    ensures Dec(n) == Dec(first) + Digits(second, 8) && |Dec(n)| == |Dec(first)| + 8
    ensures second > 0 ==>
      Trimmed(Dec(n)) == Dec(first) + Trimmed(Digits(second, 8)) && Trimmed(Digits(second, 8)) != ""
  {
    HighAndLow(n);
    Powers();
    hide Digits;
    hide Low;
    hide High;
    DecConcat(n, 8);
    TrimmedConcat(Dec(first), Digits(second, 8));
    TrimmedZero(second, 8);
  }

  lemma PointedTail(a: string, b: string)
    requires a != "" && b != ""
    ensures AlwaysPointed(a) + b == Pointed(a + b)
    ensures |a| > 1 ==> AlwaysPointed(a) == Pointed(a)
  {
  }

  /** The significand of a double. */
  method PutSignificand(n: nat, exponent: int, buffer: array<char>, p: nat) returns (exponent': int, q: nat)
    requires 0 < n < 10_0000_0000_0000_0000 && p + 18 <= buffer.Length
    modifies buffer
    ensures exponent' == exponent + |Dec(n)| - 1
    ensures p <= q <= buffer.Length && buffer[..q] == old(buffer[..p]) + Pointed(Shown(n))
  {
    hide Trimmed;
    hide Dec;
    hide Digits;
    hide Pointed;
    ghost var before := buffer[..p];
    var firstBlock, secondBlock, noSecondBlock := n, 0, true;
    exponent' := exponent;
    if n >= 1_0000_0000 {
      firstBlock := n / 1_0000_0000;
      secondBlock := (n % TWO_32 - firstBlock * 1_0000_0000) % TWO_32;
      exponent' := exponent' + 8;
      noSecondBlock := secondBlock == 0;
      TwoBlocks(n, firstBlock, secondBlock);
    }
    if noSecondBlock {
      exponent', q := Print9Digits(firstBlock, exponent', buffer, p);
    } else if firstBlock >= 1_0000_0000 {
      exponent', q := PrintNine(firstBlock, exponent', buffer, p);
      SecondBlockAll(secondBlock, buffer, q);
      q := q + 8;
      PointedTail(Dec(firstBlock), Digits(secondBlock, 8));
      Join(before, Pointed(Dec(firstBlock)), Digits(secondBlock, 8));
    } else {
      exponent', q := FirstBlock(firstBlock, exponent', buffer, p);
      q := SecondBlockTrimmed(secondBlock, buffer, q);
      PointedTail(Dec(firstBlock), Trimmed(Digits(secondBlock, 8)));
      Join(before, AlwaysPointed(Dec(firstBlock)), Trimmed(Digits(secondBlock, 8)));
    }
  }

  // ----- the exponent ---------------------------------------------------------------------------------------------

  function ExponentText(x: int): string {
    if x < 0 then "E-" + Dec(-x) else "E" + Dec(x)
  }

  method PutSign(x: int, buffer: array<char>, p: nat) returns (x': nat, q: nat)
    requires p + 2 <= buffer.Length
    modifies buffer
    ensures x' == (if x < 0 then -x else x) && p <= q <= p + 2
    ensures buffer[..q] + Dec(x') == old(buffer[..p]) + ExponentText(x)
  {
    hide Dec;
    ghost var before := buffer[..p];
    if x < 0 {
      buffer[p] := 'E';
      buffer[p + 1] := '-';
      x', q := -x, p + 2;
      assert buffer[..q] == before + "E-";
      Join(before, "E-", Dec(x'));
    } else {
      buffer[p] := 'E';
      x', q := x, p + 1;
      assert buffer[..q] == before + "E";
      Join(before, "E", Dec(x'));
    }
  }

  method PutShortExponent(x: nat, buffer: array<char>, p: nat) returns (q: nat)
    requires x < 100 && p + 2 <= buffer.Length
    modifies buffer
    ensures p <= q <= buffer.Length && buffer[..q] == old(buffer[..p]) + Dec(x)
  {
    TwoDigits(x);
    if x >= 10 {
      PutTwo(buffer, p, x);
      q := p + 2;
    } else {
      buffer[p] := Digit(x);
      q := p + 1;
    }
  }

  lemma ThreeDigitText(x: nat)
    requires 100 <= x < 1000
    ensures Dec(x) == Digits(x / 10, 2) + [Digit(x % 10)]
  {
    TwoDigits(x / 10);
  }

  method PutExponent(x: nat, buffer: array<char>, p: nat) returns (q: nat)
    requires x < 1000 && p + 3 <= buffer.Length
    modifies buffer
    ensures p <= q <= buffer.Length && buffer[..q] == old(buffer[..p]) + Dec(x)
  {
    hide Dec;
    hide Digits;
    if x >= 100 {
      ThreeDigits(x);
      ThreeDigitText(x);
      var prod := x * 6554;
      PutTwo(buffer, p, prod / TWO_16);
      buffer[p + 2] := Digit(prod % TWO_16 * 5 / 0x8000);
      q := p + 3;
    } else {
      q := PutShortExponent(x, buffer, p);
    }
  }

  /** The text printed for `n` times ten to the `e`. */
  function FloatText(n: nat, e: int): string {
    Mantissa(n) + ExponentText(e + |Dec(n)| - 1)
  }

  function DoubleText(n: nat, e: int): string {
    Pointed(Shown(n)) + ExponentText(e + |Dec(n)| - 1)
  }

  /** `to_chars` for `float`; the decimal exponent printed has at most two digits. */
  method ToCharsFloat(n: nat, e: int, buffer: array<char>, p: nat) returns (q: nat)
    requires 0 < n < 10_0000_0000 && -100 < e + |Dec(n)| - 1 < 100 && p + 24 <= buffer.Length
    modifies buffer
    ensures p <= q <= buffer.Length && buffer[..q] == old(buffer[..p]) + FloatText(n, e)
  {
    hide Dec;
    ghost var before := buffer[..p];
    var exponent, at := Print9Digits(n, e, buffer, p);
    MantissaLength(n);
    ghost var middle := buffer[..at];
    var x, sign := PutSign(exponent, buffer, at);
    q := PutShortExponent(x, buffer, sign);
    Join(before, Mantissa(n), ExponentText(exponent));
  }

  /** `to_chars` for `double`, whose exponent has at most three digits. */
  method ToCharsDouble(n: nat, e: int, buffer: array<char>, p: nat) returns (q: nat)
    requires 0 < n < 10_0000_0000_0000_0000 && -1000 < e + |Dec(n)| - 1 < 1000 && p + 24 <= buffer.Length
    modifies buffer
    ensures p <= q <= buffer.Length && buffer[..q] == old(buffer[..p]) + DoubleText(n, e)
  {
    hide Dec;
    hide Shown;
    hide Pointed;
    ghost var before := buffer[..p];
    var exponent, at := PutSignificand(n, e, buffer, p);
    ShownLength(n);
    var x, sign := PutSign(exponent, buffer, at);
    q := PutExponent(x, buffer, sign);
    Join(before, Pointed(Shown(n)), ExponentText(exponent));
  }

  lemma MantissaLength(n: nat)
    requires n < 10_0000_0000
    ensures |Mantissa(n)| <= 10
  {
    EightAtMost(n / 10);
  }

  lemma ShownLength(n: nat)
    requires n < 10_0000_0000_0000_0000
    ensures |Pointed(Shown(n))| <= 18
  {
    if n >= 1_0000_0000 {
      var first := n / 1_0000_0000;
      TwoBlocks(n, first, n % 1_0000_0000);
      EightAtMost(first / 10);
    } else {
      EightAtMost(n);
    }
  }

  // ----- what the text denotes ------------------------------------------------------------------------------------

  function DigitValue(c: char): int {
    c as int - '0' as int
  }

  function NumberOf(digits: string): int {
    if digits == "" then 0 else 10 * NumberOf(digits[..|digits| - 1]) + DigitValue(digits[|digits| - 1])
  }

  predicate AllDigits(s: string) {
    forall i | 0 <= i < |s| :: '0' <= s[i] <= '9'
  }

  /** The digits in front of the `E`, the point left out. */
  function ReadDigits(s: string): string {
    if s == "" || s[0] == 'E' then ""
    else if s[0] == '.' then ReadDigits(s[1..])
    else [s[0]] + ReadDigits(s[1..])
  }

  /** How many of them are behind the point. */
  function ReadFraction(s: string, behind: bool): nat {
    if s == "" || s[0] == 'E' then 0
    else if s[0] == '.' then ReadFraction(s[1..], true)
    else (if behind then 1 else 0) + ReadFraction(s[1..], behind)
  }

  /** The signed number behind the `E`. */
  function ReadExponent(s: string): int {
    if s == "" then 0
    else if s[0] == 'E' then if |s| > 1 && s[1] == '-' then -NumberOf(s[2..]) else NumberOf(s[1..])
    else ReadExponent(s[1..])
  }

  /** A text in scientific notation denotes `n` times ten to the `e`. */
  ghost predicate Denotes(s: string, n: nat, e: int) {
    exists z: nat ::
      && NumberOf(ReadDigits(s)) * Power10(z) == n
      && ReadExponent(s) - ReadFraction(s, false) == e + z
  }

  lemma {:induction false} DecIsNumber(n: nat)
    ensures NumberOf(Dec(n)) == n && AllDigits(Dec(n))
  {
    if n >= 10 {
      DecIsNumber(n / 10);
      assert Dec(n)[..|Dec(n)| - 1] == Dec(n / 10);
    }
  }

  /** Cutting final zeros divides by a power of ten. */
  lemma {:induction false} CutValue(s: string, k: nat)
    requires k <= |s| && AllDigits(s) && forall i | k <= i < |s| :: s[i] == '0'
    ensures NumberOf(s[..k]) * Power10(|s| - k) == NumberOf(s)
    decreases |s|
  {
    if k == |s| {
      assert s[..k] == s;
    } else {
      var t := s[..|s| - 1];
      CutValue(t, k);
      assert t[..k] == s[..k];
      TenTimes(NumberOf(s[..k]), Power10(|t| - k));
    }
  }

  lemma TenTimes(a: int, p: nat)
    ensures a * (10 * p) == 10 * (a * p)
  {
  }

  /** A front part of the digits of `n`, nothing but zeros being left out. */
  ghost predicate Cuts(digits: string, n: nat) {
    && 0 < |digits| <= |Dec(n)| && digits == Dec(n)[..|digits|]
    && forall i | |digits| <= i < |Dec(n)| :: Dec(n)[i] == '0'
  }

  lemma {:induction false} TrimmedCuts(s: string)
    ensures forall i | |Trimmed(s)| <= i < |s| :: s[i] == '0'
    ensures Trimmed(s) == "" ==> forall i | 0 <= i < |s| :: s[i] == '0'
  {
    if s != "" && s[|s| - 1] == '0' {
      TrimmedCuts(s[..|s| - 1]);
    }
  }

  lemma {:induction false} FirstDigit(n: nat)
    requires n > 0
    ensures Dec(n)[0] != '0'
  {
    if n >= 10 {
      FirstDigit(n / 10);
      assert Dec(n)[0] == Dec(n / 10)[0];
    }
  }

  lemma TrimmedDecCuts(n: nat)
    requires n > 0
    ensures Cuts(Trimmed(Dec(n)), n)
  {
    hide Dec;
    TrimmedCuts(Dec(n));
    FirstDigit(n);
  }

  lemma DecCuts(n: nat)
    ensures Cuts(Dec(n), n)
  {
  }

  lemma ShownCuts(n: nat)
    requires 0 < n
    ensures Cuts(Shown(n), n)
  {
    hide Dec;
    hide Trimmed;
    TrimmedDecCuts(n);
    DecCuts(n);
    var first, second := n / 1_0000_0000, n % 1_0000_0000;
    if n >= 1_0000_0000 && second == 0 {
      TwoBlocks(n, first, second);
      TrimmedDecCuts(first);
      DecCuts(first);
      ZeroDigits(8);
    }
  }

  lemma {:induction false} ZeroDigits(w: nat)
    ensures forall i | 0 <= i < w :: Digits(0, w)[i] == '0'
  {
    if w > 0 {
      ZeroDigits(w - 1);
    }
  }

  lemma {:induction false} ReadPlain(digits: string, tail: string, behind: bool)
    requires AllDigits(digits) && tail != "" && tail[0] == 'E'
    ensures ReadDigits(digits + tail) == digits
    ensures ReadFraction(digits + tail, behind) == if behind then |digits| else 0
    ensures ReadExponent(digits + tail) == ReadExponent(tail)
  {
    if digits == "" {
      assert digits + tail == tail;
    } else {
      assert (digits + tail)[1..] == digits[1..] + tail;
      ReadPlain(digits[1..], tail, behind);
    }
  }

  lemma FirstIsPlain(digits: string)
    requires digits != "" && AllDigits(digits)
    ensures digits[0] != '.' && digits[0] != 'E' && AllDigits(digits[1..])
  {
  }

  /** Reading one character: the point leaves no digit, a digit stays. */
  lemma ReadOne(c: char, rest: string)
    requires c != 'E'
    ensures ReadDigits([c] + rest) == if c == '.' then ReadDigits(rest) else [c] + ReadDigits(rest)
    ensures ReadFraction([c] + rest, false) == ReadFraction(rest, c == '.')
    ensures ReadExponent([c] + rest) == ReadExponent(rest)
  {
    assert ([c] + rest)[1..] == rest;
  }

  lemma ReadPointed(digits: string, tail: string)
    requires digits != "" && AllDigits(digits) && tail != "" && tail[0] == 'E'
    ensures var s := Pointed(digits) + tail;
      ReadDigits(s) == digits && ReadFraction(s, false) == |digits| - 1 && ReadExponent(s) == ReadExponent(tail)
  {
    hide AllDigits;
    hide ReadDigits;
    hide ReadFraction;
    hide ReadExponent;
    if |digits| == 1 {
      ReadPlain(digits, tail, false);
    } else {
      FirstIsPlain(digits);
      var first, more := digits[0], digits[1..] + tail;
      assert Pointed(digits) + tail == [first] + (['.'] + more);
      ReadOne(first, ['.'] + more);
      ReadOne('.', more);
      ReadPlain(digits[1..], tail, true);
      assert digits == [first] + digits[1..];
    }
  }

  lemma ReadExponentText(x: int)
    ensures ExponentText(x) != "" && ExponentText(x)[0] == 'E' && ReadExponent(ExponentText(x)) == x
  {
    var n: nat := if x < 0 then -x else x;
    DecIsNumber(n);
    assert ExponentText(x)[if x < 0 then 2 else 1..] == Dec(n);
    assert Dec(n)[0] != '-';
  }

  /** Whatever zeros were cut, the text denotes exactly the number it was made from. */
  lemma CutTextDenotes(digits: string, n: nat, e: int)
    requires Cuts(digits, n)
    ensures Denotes(Pointed(digits) + ExponentText(e + |Dec(n)| - 1), n, e)
  {
    hide Dec;
    hide ReadDigits;
    hide ReadFraction;
    hide ReadExponent;
    hide ExponentText;
    hide NumberOf;
    var x := e + |Dec(n)| - 1;
    var z := |Dec(n)| - |digits|;
    DecIsNumber(n);
    CutValue(Dec(n), |digits|);
    ReadExponentText(x);
    assert AllDigits(digits) by {
      assert forall i | 0 <= i < |digits| :: digits[i] == Dec(n)[i];
    }
    ReadPointed(digits, ExponentText(x));
    var s := Pointed(digits) + ExponentText(x);
    assert NumberOf(ReadDigits(s)) * Power10(z) == n;
    assert ReadExponent(s) - ReadFraction(s, false) == e + z;
  }

  /** Every significand of a float is printed as the number it stands for. */
  lemma FloatTextDenotes(n: nat, e: int)
    requires n > 0
    ensures Denotes(FloatText(n, e), n, e)
  {
    hide Dec;
    hide Trimmed;
    TrimmedDecCuts(n);
    DecCuts(n);
    CutTextDenotes(if n >= 1_0000_0000 then Dec(n) else Trimmed(Dec(n)), n, e);
  }

  /** Every significand of a double is printed as the number it stands for. */
  lemma DoubleTextDenotes(n: nat, e: int)
    requires n > 0
    ensures Denotes(DoubleText(n, e), n, e)
  {
    hide Dec;
    hide Trimmed;
    hide Shown;
    ShownCuts(n);
    CutTextDenotes(Shown(n), n, e);
  }

  lemma DecOf(n: nat)
    ensures n < 10 ==> Dec(n) == [Digit(n)]
    ensures 10 <= n < 100 ==> Dec(n) == [Digit(n / 10), Digit(n % 10)]
    ensures 100 <= n < 1000 ==> Dec(n) == [Digit(n / 100), Digit(n / 10 % 10), Digit(n % 10)]
  {
    if 10 <= n {
      assert Dec(n) == Dec(n / 10) + [Digit(n % 10)];
      if 100 <= n < 1000 {
        assert Dec(n / 10) == Dec(n / 100) + [Digit(n / 10 % 10)];
      }
    }
  }

  lemma TrimmedThree(a: char, b: char, c: char)
    ensures Trimmed([a, b, c])
      == if c != '0' then [a, b, c] else if b != '0' then [a, b] else if a != '0' then [a] else ""
    ensures Trimmed([a]) == if a != '0' then [a] else ""
  {
    assert [a, b, c][..2] == [a, b] && [a, b][..1] == [a] && [a][..0] == "";
    assert Trimmed([a, b]) == if b != '0' then [a, b] else Trimmed([a]);
  }

  lemma ShortMantissa(n: nat)
    requires n < 1000
    ensures Mantissa(n) == Pointed(Shown(n)) == Pointed(Trimmed(Dec(n)))
  {
    hide Dec;
    hide Trimmed;
    hide Pointed;
  }

  /** One digit before the point, no final zeros, no plus sign, no padding of the exponent. */
  lemma {:induction false} KnownTexts()
    ensures FloatText(1, 0) == DoubleText(1, 0) == "1E0"
    ensures FloatText(123, -5) == DoubleText(123, -5) == "1.23E-3"
    ensures FloatText(150, 10) == DoubleText(150, 10) == "1.5E12"
  {
    hide FloatText;
    hide DoubleText;
    KnownDigit();
    KnownFraction();
    KnownZero();
  }

  lemma KnownDigit()
    ensures FloatText(1, 0) == DoubleText(1, 0) == "1E0"
  {
    DecOf(1);
    DecOf(0);
    ShortMantissa(1);
    assert Trimmed("1") == "1" && "1" + "E0" == "1E0";
  }

  lemma KnownFraction()
    ensures FloatText(123, -5) == DoubleText(123, -5) == "1.23E-3"
  {
    DecOf(123);
    DecOf(3);
    TrimmedThree('1', '2', '3');
    ShortMantissa(123);
    hide Dec;
    hide Trimmed;
    hide Mantissa;
    hide Shown;
    assert "123"[..1] + "." + "123"[1..] == "1.23" && "1.23" + "E-3" == "1.23E-3";
  }

  lemma KnownZero()
    ensures FloatText(150, 10) == DoubleText(150, 10) == "1.5E12"
  {
    DecOf(150);
    DecOf(12);
    TrimmedThree('1', '5', '0');
    ShortMantissa(150);
    hide Dec;
    hide Trimmed;
    hide Mantissa;
    hide Shown;
    assert "15"[..1] + "." + "15"[1..] == "1.5" && "1.5" + "E12" == "1.5E12";
  }

  lemma {:induction false} TrimmedEnds(s: string)
    requires s != "" && s[0] != '0'
    ensures var t := Trimmed(s); t != "" && t[0] == s[0] && t[|t| - 1] != '0'
  {
    if |s| > 1 && s[|s| - 1] == '0' {
      TrimmedEnds(s[..|s| - 1]);
    }
  }

  lemma {:induction false} FirstIsNotZero(n: nat)
    requires n > 0
    ensures Dec(n)[0] != '0'
  {
    if n >= 10 {
      FirstIsNotZero(n / 10);
      assert Dec(n)[0] == Dec(n / 10)[0];
    }
  }

  lemma {:induction false} DecLength(n: nat, k: nat)
    requires k > 0 && Power10(k - 1) <= n < Power10(k)
    ensures |Dec(n)| == k
  {
    if k > 1 {
      DecLength(n / 10, k - 1);
    }
  }

  predicate EndsInZero(s: string) {
    s != "" && s[|s| - 1] == '0'
  }

  lemma PointedEnds(digits: string)
    ensures EndsInZero(Pointed(digits)) <==> EndsInZero(digits)
  {
  }

  /** Final zeros are cut, except in a float of nine digits and in a double of seventeen, which are
    * printed with nine digits or with all. */
  lemma WhichZerosAreCut(n: nat)
    requires 0 < n < 10_0000_0000_0000_0000
    ensures n < 1_0000_0000 ==> !EndsInZero(Mantissa(n))
    ensures n < 1_0000_0000_0000_0000 ==> !EndsInZero(Pointed(Shown(n)))
    ensures 1_0000_0000 <= n < 10_0000_0000 ==> |Mantissa(n)| == 10
    ensures n >= 1_0000_0000_0000_0000 ==> |Pointed(Shown(n))| == if n % 1_0000_0000 == 0 then 10 else 18
  {
    hide Dec;
    hide Trimmed;
    hide Pointed;
    FirstIsNotZero(n);
    TrimmedEnds(Dec(n));
    PointedEnds(Trimmed(Dec(n)));
    var first := n / 1_0000_0000;
    if first > 0 {
      FirstIsNotZero(first);
      TrimmedEnds(Dec(first));
      PointedEnds(Trimmed(Dec(first)));
    }
    LongTexts(n);
  }

  lemma LongTexts(n: nat)
    requires n < 10_0000_0000_0000_0000
    ensures 1_0000_0000 <= n < 10_0000_0000 ==> |Mantissa(n)| == 10
    ensures n >= 1_0000_0000_0000_0000 ==> |Pointed(Shown(n))| == if n % 1_0000_0000 == 0 then 10 else 18
  {
    hide Dec;
    hide Trimmed;
    TenPowers();
    if 1_0000_0000 <= n < 10_0000_0000 {
      DecLength(n, 9);
    }
    if n >= 1_0000_0000_0000_0000 {
      DecLength(n, 17);
      DecLength(n / 1_0000_0000, 9);
    }
  }

  lemma TenPowers()
    ensures Power10(8) == 1_0000_0000 && Power10(9) == 10_0000_0000
    ensures Power10(16) == 1_0000_0000_0000_0000 && Power10(17) == 10_0000_0000_0000_0000
  {
    assert Power10(4) == 1_0000;
    assert Power10(8) == 1_0000 * Power10(4);
    assert Power10(12) == 1_0000 * Power10(8);
    assert Power10(16) == 1_0000 * Power10(12);
  }
}
