/** Bit fields of natural numbers: or-ing values whose ones do not meet is adding them. */
module BitFields {

  function BitOr(a: nat, b: nat): nat {
    if a == 0 && b == 0 then 0 else
      2 * BitOr(a / 2, b / 2) + (if a % 2 == 1 || b % 2 == 1 then 1 else 0)
  }

  function Power2(k: nat): nat {
    if k == 0 then 1 else 2 * Power2(k - 1)
  }

  /** Or-ing in a field whose place is clear adds it. */
  lemma {:induction false} BitOrClearField(high: nat, low: nat, k: nat)
    requires low < Power2(k)
    ensures BitOr(Power2(k) * high, low) == Power2(k) * high + low
  {
    if k == 0 {
      BitOrZero(high);
    } else {
      var half := Power2(k - 1) * high;
      assert Power2(k) * high == 2 * half;
      BitOrClearField(high, low / 2, k - 1);
    }
  }

  /** `x` shifted left by `k` bits. */
  function ShiftLeft(x: nat, k: nat): nat {
    if k == 0 then x else 2 * ShiftLeft(x, k - 1)
  }

  lemma {:induction false} ShiftIsProduct(x: nat, k: nat)
    ensures ShiftLeft(x, k) == Power2(k) * x
  {
    if k > 0 {
      ShiftIsProduct(x, k - 1);
      Doubled(Power2(k - 1), x);
    }
  }

  lemma {:induction false} BitOrShifted(high: nat, low: nat, other: nat, k: nat)
    requires low < Power2(k)
    ensures BitOr(ShiftLeft(high, k) + low, ShiftLeft(other, k)) == ShiftLeft(BitOr(high, other), k) + low
  {
    if k > 0 {
      BitOrShifted(high, low / 2, other, k - 1);
      BitOrDoubled(ShiftLeft(high, k - 1) + low / 2, low % 2, ShiftLeft(other, k - 1));
    }
  }

  /** Or-ing into the high field leaves the low one. */
  lemma BitOrHighField(high: nat, low: nat, other: nat, k: nat)
    requires low < Power2(k)
    ensures BitOr(Power2(k) * high + low, Power2(k) * other) == Power2(k) * BitOr(high, other) + low
  {
    BitOrShifted(high, low, other, k);
    ShiftIsProduct(high, k);
    ShiftIsProduct(other, k);
    ShiftIsProduct(BitOr(high, other), k);
  }

  lemma Doubled(p: nat, x: nat)
    ensures 2 * p * x == 2 * (p * x)
  {
  }

  lemma BitOrDoubled(a: nat, bit: nat, b: nat)
    requires bit < 2
    ensures BitOr(2 * a + bit, 2 * b) == 2 * BitOr(a, b) + bit
  {
    assert (2 * a + bit) / 2 == a && (2 * b) / 2 == b;
  }

  lemma {:induction false} BitOrZero(a: nat)
    ensures BitOr(a, 0) == a
  {
    if a > 0 {
      BitOrZero(a / 2);
    }
  }

  lemma {:induction false} BitOrSymmetric(a: nat, b: nat)
    ensures BitOr(a, b) == BitOr(b, a)
  {
    if a > 0 || b > 0 {
      BitOrSymmetric(a / 2, b / 2);
    }
  }

  lemma {:induction false} BitOrBound(a: nat, b: nat, k: nat)
    requires a < Power2(k) && b < Power2(k)
    ensures BitOr(a, b) < Power2(k)
  {
    if k > 0 {
      BitOrBound(a / 2, b / 2, k - 1);
    }
  }

  /** Trailing ones stay, whatever is or-ed in. */
  lemma {:induction false} OnesStay(high: nat, b: nat, k: nat) returns (rest: nat)
    ensures Power2(k) > 0 && BitOr(Power2(k) * high + (Power2(k) - 1), b) == Power2(k) * rest + (Power2(k) - 1)
  {
    if k == 0 {
      rest := BitOr(high, b);
    } else {
      var p := Power2(k - 1);
      rest := OnesStay(high, b / 2, k - 1);
      Doubled(p, high);
      Doubled(p, rest);
      BitOrOdd(p * high + p - 1, b);
    }
  }

  lemma BitOrOdd(a: nat, b: nat)
    ensures BitOr(2 * a + 1, b) == 2 * BitOr(a, b / 2) + 1
  {
    assert (2 * a + 1) / 2 == a;
  }

  lemma PowersUsed()
    ensures Power2(2) == 4 && Power2(5) == 0x20 && Power2(6) == 0x40 && Power2(9) == 0x200 && Power2(12) == 0x1000
            && Power2(20) == 0x10_0000
    ensures Power2(23) == 0x80_0000 && Power2(24) == 0x100_0000
  {
    assert Power2(4) == 16;
    assert Power2(8) == 0x100;
    assert Power2(12) == 0x1000;
    assert Power2(16) == 0x1_0000;
    assert Power2(20) == 0x10_0000;
    assert Power2(23) == 0x80_0000;
  }
}
