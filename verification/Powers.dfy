/** Powers of two and the position of the highest set bit. */
module Powers {

  function Power(k: nat): (p: nat)
    ensures p >= 1
  {
    if k == 0 then 1 else 2 * Power(k - 1)
  }

  lemma {:induction false} PowerMonotone(m: nat, n: nat)
    requires m <= n
    ensures Power(m) <= Power(n)
  {
    if m < n {
      PowerMonotone(m, n - 1);
    }
  }

  lemma PowerValues()
    ensures Power(8) == 0x100 && Power(32) == 0x1_0000_0000
    ensures Power(63) == 0x8000_0000_0000_0000 && Power(64) == 0x1_0000_0000_0000_0000
  {
    assert Power(0) == 1 && Power(64) == 2 * Power(63);
    hide Power;
    PowerByte(0);
    assert Power(8) == 0x100;
    PowerByte(8);
    assert Power(16) == 0x1_0000;
    PowerByte(16);
    assert Power(24) == 0x100_0000;
    PowerByte(24);
    assert Power(32) == 0x1_0000_0000;
    PowerByte(32);
    assert Power(40) == 0x100_0000_0000;
    PowerByte(40);
    assert Power(48) == 0x1_0000_0000_0000;
    PowerByte(48);
    assert Power(56) == 0x100_0000_0000_0000;
    PowerByte(56);
    assert Power(64) == 0x1_0000_0000_0000_0000;
  }

  lemma PowerByte(k: nat)
    ensures Power(k + 8) == 256 * Power(k)
  {
    assert Power(k + 2) == 4 * Power(k);
    assert Power(k + 4) == 4 * Power(k + 2);
    assert Power(k + 6) == 4 * Power(k + 4);
  }

  /** The position of the highest set bit. */
  function Log2(v: nat): nat {
    if v < 2 then 0 else 1 + Log2(v / 2)
  }

  lemma {:induction false} Log2Range(v: nat)
    requires v > 0
    ensures Power(Log2(v)) <= v < Power(Log2(v) + 1)
  {
    if v >= 2 {
      Log2Range(v / 2);
    }
  }

  lemma {:induction false} Log2Bound(v: nat, k: nat)
    requires v < Power(k) && k > 0
    ensures Log2(v) < k
  {
    if v >= 2 {
      Log2Bound(v / 2, k - 1);
    }
  }

  lemma {:induction false} Log2Lower(v: nat, k: nat)
    requires v >= Power(k)
    ensures Log2(v) >= k
  {
    if k > 0 {
      Log2Lower(v / 2, k - 1);
    }
  }
}
