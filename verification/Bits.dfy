/** Unsigned arithmetic as Go's shifts and ors do it. */
module Bits {
  function Pow2(n: nat): (p: nat)
    ensures p > 0
  {
    if n == 0 then 1 else 2 * Pow2(n - 1)
  }

  const TWO_TO_64: nat := 0x1_0000_0000_0000_0000

  /** x << shift on a uint64. */
  function ShiftLeft(x: nat, shift: nat): nat {
    x * Pow2(shift) % TWO_TO_64
  }

  /** a | b. */
  function BitOr(a: nat, b: nat): nat
    decreases a + b
  {
    if a == 0 then b else if b == 0 then a
    else (if a % 2 == 1 || b % 2 == 1 then 1 else 0) + 2 * BitOr(a / 2, b / 2)
  }

  /** Bits that do not overlap are added. */
  lemma {:induction false} OrIsSum(a: nat, high: nat, shift: nat)
    requires a < Pow2(shift)
    ensures BitOr(a, high * Pow2(shift)) == a + high * Pow2(shift)
    decreases shift
  {
    if shift > 0 && a > 0 && high > 0 {
      var half := high * Pow2(shift - 1);
      assert high * Pow2(shift) == 2 * half;
      OrIsSum(a / 2, high, shift - 1);
    }
  }

  lemma {:induction false} Pow2Adds(m: nat, n: nat)
    ensures Pow2(m + n) == Pow2(m) * Pow2(n)
  {
    if m > 0 {
      Pow2Adds(m - 1, n);
    }
  }

  lemma Pow2Values()
    ensures Pow2(7) == 0x80 && Pow2(56) == 0x100_0000_0000_0000 && Pow2(63) == 0x8000_0000_0000_0000
  {
    assert Pow2(7) == 0x80;
    Pow2Adds(7, 7);
    Pow2Adds(14, 14);
    Pow2Adds(28, 28);
    Pow2Adds(56, 7);
  }

  lemma {:induction false} Pow2Grows(m: nat, n: nat)
    requires m <= n
    ensures Pow2(m) <= Pow2(n)
    decreases n - m
  {
    if m < n {
      Pow2Grows(m, n - 1);
    }
  }
}
