/** Bit operations of C on unsigned words, given bit by bit, and what they mean
    for the shifts and masks that the kernel uses. */
module Bits {

  function Pow2(k: nat): (p: nat)
    ensures p >= 1
  {
    if k == 0 then 1 else 2 * Pow2(k - 1)
  }

  /** `a | b` */
  function Or(a: nat, b: nat): nat
  {
    if a == 0 then b
    else 2 * Or(a / 2, b / 2) + (if a % 2 == 1 || b % 2 == 1 then 1 else 0)
  }

  /** `a & b` */
  function And(a: nat, b: nat): nat
  {
    if a == 0 then 0
    else 2 * And(a / 2, b / 2) + (if a % 2 == 1 && b % 2 == 1 then 1 else 0)
  }

  /** Or-ing a value into the `k` low bits leaves the bits above them alone. */
  lemma {:induction false} OrLow(hi: nat, a: nat, b: nat, k: nat)
    requires a < Pow2(k) && b < Pow2(k)
    ensures Or(hi * Pow2(k) + a, b) == hi * Pow2(k) + Or(a, b)
    ensures Or(a, b) < Pow2(k)
  {
    if k == 0 {
      OrZero(hi);
    } else {
      var p := Pow2(k - 1);
      assert hi * Pow2(k) == 2 * (hi * p);
      OrLow(hi, a / 2, b / 2, k - 1);
    }
  }

  lemma {:induction false} OrZero(a: nat)
    ensures Or(a, 0) == a
  {
    if a != 0 {
      OrZero(a / 2);
    }
  }

  lemma {:induction false} AndZero(a: nat)
    ensures And(a, 0) == 0
  {
    if a != 0 {
      AndZero(a / 2);
    }
  }

  /** A mask of the `k` low bits keeps the low part. */
  lemma {:induction false} AndLowMask(hi: nat, lo: nat, k: nat)
    requires lo < Pow2(k)
    ensures And(hi * Pow2(k) + lo, Pow2(k) - 1) == lo
  {
    if k == 0 {
      AndZero(hi);
    } else {
      var p := Pow2(k - 1);
      assert hi * Pow2(k) == 2 * (hi * p);
      AndLowMask(hi, lo / 2, k - 1);
    }
  }

  lemma AndEven(w: nat, mask: nat)
    ensures And(w, 2 * mask) == 2 * And(w / 2, mask)
  {
  }

  /** A mask of the bits from `k` up to `n` keeps the high part. */
  lemma {:induction false} AndHighMask(hi: nat, lo: nat, k: nat, n: nat)
    requires k <= n && lo < Pow2(k) && hi * Pow2(k) + lo < Pow2(n)
    ensures Pow2(n) >= Pow2(k)
    ensures And(hi * Pow2(k) + lo, Pow2(n) - Pow2(k)) == hi * Pow2(k)
  {
    hide And;
    if k == 0 {
      AndLowMask(0, hi, n);
    } else {
      var p, q := Pow2(k - 1), Pow2(n - 1);
      assert Pow2(k) == 2 * p && Pow2(n) == 2 * q;
      var x := hi * p;
      assert hi * Pow2(k) == 2 * x;
      AndHighMask(hi, lo / 2, k - 1, n - 1);
      AndEven(2 * x + lo, q - p);
    }
  }
}
