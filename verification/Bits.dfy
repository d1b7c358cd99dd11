/** Rounding up to a power of two by smearing the top bit downwards, on 64-bit words. */
module Bits {
  import opened Powers

  const DIGITS: nat := 64
  const WORD: nat := 0x1_0000_0000_0000_0000

  function Bit(v: nat, j: nat): nat {
    if j == 0 then v % 2 else Bit(v / 2, j - 1)
  }

  /** `a | b` */
  function Or(a: nat, b: nat): nat {
    if a == 0 && b == 0 then 0
    else (if a % 2 == 1 || b % 2 == 1 then 1 else 0) + 2 * Or(a / 2, b / 2)
  }

  /** `v >> i` */
  function ShiftRight(v: nat, i: nat): nat {
    if i == 0 then v else ShiftRight(v / 2, i - 1)
  }

  lemma {:induction false} BitOfOr(a: nat, b: nat, j: nat)
    ensures Bit(Or(a, b), j) == if Bit(a, j) == 1 || Bit(b, j) == 1 then 1 else 0
    decreases j
  {
    if a == 0 && b == 0 {
      BitOfZero(j);
    } else if j > 0 {
      BitOfOr(a / 2, b / 2, j - 1);
    }
  }

  lemma {:induction false} BitOfZero(j: nat)
    ensures Bit(0, j) == 0
  {
    if j > 0 {
      BitOfZero(j - 1);
    }
  }

  lemma {:induction false} BitOfShift(v: nat, i: nat, j: nat)
    ensures Bit(ShiftRight(v, i), j) == Bit(v, j + i)
    decreases i
  {
    if i > 0 {
      BitOfShift(v / 2, i - 1, j);
    }
  }

  /** One of the bits j, ..., j + n - 1 of `v` is set. */
  ghost predicate AnySet(v: nat, j: nat, n: nat) {
    exists p: nat :: j <= p < j + n && Bit(v, p) == 1
  }

  /** `v |= v >> i` after the bits have been smeared over distance `i`. */
  lemma SmearDoubles(v0: nat, v: nat, i: nat)
    requires forall j: nat :: Bit(v, j) == 1 <==> AnySet(v0, j, i)
    ensures forall j: nat :: Bit(Or(v, ShiftRight(v, i)), j) == 1 <==> AnySet(v0, j, 2 * i)
  {
    forall j: nat ensures Bit(Or(v, ShiftRight(v, i)), j) == 1 <==> AnySet(v0, j, 2 * i) {
      BitOfOr(v, ShiftRight(v, i), j);
      BitOfShift(v, i, j);
      if AnySet(v0, j, 2 * i) {
        var p: nat :| j <= p < j + 2 * i && Bit(v0, p) == 1;
        assert if p < j + i then AnySet(v0, j, i) else AnySet(v0, j + i, i);
      }
    }
  }

  /** All bits below `k` set and none above: one less than a power of two. */
  lemma {:induction false} AllOnes(w: nat, k: nat)
    requires forall j: nat :: Bit(w, j) == 1 <==> j < k
    ensures w + 1 == Power(k)
    decreases w
  {
    assert Bit(w, 0) == w % 2;
    if k == 0 {
      if w > 0 {
        HighBit(w);
      }
    } else {
      forall j: nat ensures Bit(w / 2, j) == 1 <==> j < k - 1 {
        assert Bit(w, j + 1) == Bit(w / 2, j);
      }
      AllOnes(w / 2, k - 1);
    }
  }

  lemma {:induction false} HighBit(v: nat)
    requires v > 0
    ensures Bit(v, Log2(v)) == 1
    ensures forall j: nat | j > Log2(v) :: Bit(v, j) == 0
  {
    if v < 2 {
      forall j: nat | j > 0 ensures Bit(v, j) == 0 {
        BitOfZero(j - 1);
      }
    } else {
      HighBit(v / 2);
      forall j: nat | j > Log2(v) ensures Bit(v, j) == 0 {
        assert Bit(v, j) == Bit(v / 2, j - 1);
      }
    }
  }

  /** The least power of two that is at least `v`. */
  function NextPower(v: nat): (p: nat)
    requires v >= 1
    ensures v <= p
  {
    if v == 1 then 1
    else
      Log2Range(v - 1);
      Power(Log2(v - 1) + 1)
  }

  lemma NextPowerIsLeast(v: nat, k: nat)
    requires v >= 1 && Power(k) >= v
    ensures NextPower(v) <= Power(k) && exists e: nat :: NextPower(v) == Power(e)
  {
    assert NextPower(v) == Power(if v == 1 then 0 else Log2(v - 1) + 1);
    if v > 1 {
      Log2Range(v - 1);
    }
    if v > 1 && k < Log2(v - 1) + 1 {
      PowerMonotone(k, Log2(v - 1));
    } else if v > 1 {
      PowerMonotone(Log2(v - 1) + 1, k);
    }
  }

  /** `next_highest_power_of_two` on `size_t`: it wraps to zero for zero, and where no power of two
    * fits. */
  method NextHighestPowerOfTwo(v: nat) returns (r: nat)
    requires v < WORD
    ensures r == if 1 <= v <= WORD / 2 then NextPower(v) else 0
  {
    PowerValues();
    hide NextPower;
    hide Power;
    var w: nat := if v > 0 then v - 1 else WORD - 1;
    ghost var v0: nat := w;
    var i: nat := 1;
    while i < DIGITS
      invariant i == 1 || i == 2 || i == 4 || i == 8 || i == 16 || i == 32 || i == 64
      invariant forall j: nat :: Bit(w, j) == 1 <==> AnySet(v0, j, i)
      decreases DIGITS - i
    {
      SmearDoubles(v0, w, i);
      w := Or(w, ShiftRight(w, i));
      i := 2 * i;
    }
    FullySmeared(v0, w, i);
    WordPower(v0 + 1);
    r := (w + 1) % WORD;
  }

  /** The least power of two is a 64-bit word up to half of their range, and above it is the first
    * number that is none. */
  lemma WordPower(v: nat)
    requires 1 <= v <= WORD
    ensures if v <= WORD / 2 then NextPower(v) < WORD else NextPower(v) == WORD
  {
    PowerValues();
    if v > 1 {
      var k := Log2(v - 1);
      Log2Range(v - 1);
      if v <= WORD / 2 {
        if k >= DIGITS - 1 {
          PowerMonotone(DIGITS - 1, k);
        }
        PowerMonotone(k + 1, DIGITS - 1);
      } else {
        if k < DIGITS - 1 {
          PowerMonotone(k + 1, DIGITS - 1);
        } else if k > DIGITS - 1 {
          PowerMonotone(DIGITS, k);
        }
      }
    } else {
      PowerMonotone(0, DIGITS - 1);
    }
  }

  lemma FullySmeared(v0: nat, w: nat, i: nat)
    requires v0 < WORD && i >= DIGITS
    requires forall j: nat :: Bit(w, j) == 1 <==> AnySet(v0, j, i)
    ensures w + 1 == NextPower(v0 + 1)
  {
    hide Bit;
    PowerValues();
    if v0 == 0 {
      forall p: nat ensures Bit(v0, p) == 0 {
        BitOfZero(p);
      }
      AllOnes(w, 0);
    } else {
      var k := Log2(v0);
      Log2Range(v0);
      HighBit(v0);
      if k >= DIGITS {
        PowerMonotone(DIGITS, k);
      }
      forall j: nat ensures AnySet(v0, j, i) <==> j < k + 1 {
        if j <= k {
          assert j <= k < j + i && Bit(v0, k) == 1;
        }
      }
      AllOnes(w, k + 1);
    }
  }
}
