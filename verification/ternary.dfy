/** Integer powers, base-3 digits and thirds of an interval: the arithmetic
    behind the grid sides `size**iterations` and `3**iterations` and the
    `size // 3` splits of the fractal carvers. */
module Ternary {

  /** `b ** n` on non-negative integers (with `0 ** 0 == 1`, as in Python). */
  function Pow(b: nat, n: nat): nat {
    if n == 0 then 1 else b * Pow(b, n - 1)
  }

  /** Digit `p` of `n` written in base 3 (digit 0 is the least significant). */
  function Digit(n: nat, p: nat): (d: nat)
    ensures d < 3
  {
    if p == 0 then n % 3 else Digit(n / 3, p - 1)
  }

  /** `q * 3 ** m` is three times `q * 3 ** (m - 1)`. */
  lemma MulPow3(q: nat, m: nat)
    requires m > 0
    ensures q * Pow(3, m) == 3 * (q * Pow(3, m - 1))
  {
    assert Pow(3, m) == 3 * Pow(3, m - 1);
  }

  /** Adding `3 * t` shifts the quotient by 3 by `t` and keeps the remainder. */
  lemma DivShift(n: nat, t: nat)
    ensures (n + 3 * t) / 3 == n / 3 + t && (n + 3 * t) % 3 == n % 3
  {
  }

  /** Adding a multiple of `3 ** m` leaves the digits below position `m`
      unchanged. */
  lemma {:induction false} DigitShift(n: nat, q: nat, m: nat, p: nat)
    requires p < m
    ensures Digit(n + q * Pow(3, m), p) == Digit(n, p)
    decreases p
  {
    var t := q * Pow(3, m - 1);
    MulPow3(q, m);
    DivShift(n, t);
    if p > 0 {
      DigitShift(n / 3, q, m - 1, p - 1);
    }
  }

  /** A number whose top digit block `i` is split off agrees with what is
      left in every digit below position `m`. */
  lemma LowDigits(n: nat, n': nat, i: nat, m: nat)
    requires i < 3 && n == n' + Offset(i, Pow(3, m))
    ensures forall p :: 0 <= p < m ==> Digit(n, p) == Digit(n', p)
  {
    OffsetIsProduct(i, Pow(3, m));
    forall p | 0 <= p < m ensures Digit(n, p) == Digit(n', p) {
      DigitShift(n', i, m, p);
    }
  }

  /** `i * sub` for a third `i` in 0..2, written without a product so that
      the recursion over thirds stays in linear arithmetic. */
  function Offset(i: int, sub: int): int {
    if i == 0 then 0 else if i == 1 then sub else 2 * sub
  }

  lemma OffsetIsProduct(i: int, sub: int)
    requires 0 <= i < 3
    ensures Offset(i, sub) == i * sub
  {
  }

  /** Below `3 ** (m + 1)`, the number of whole `3 ** m` blocks is the digit
      at position `m`. */
  lemma {:induction false} TopDigit(n: nat, m: nat, i: nat)
    requires i < 3 && Offset(i, Pow(3, m)) <= n < Offset(i, Pow(3, m)) + Pow(3, m)
    ensures Digit(n, m) == i
  {
    if m > 0 {
      var e := Pow(3, m - 1);
      assert Pow(3, m) == 3 * e;
      assert Offset(i, 3 * e) == 3 * Offset(i, e);
      TopDigit(n / 3, m - 1, i);
    }
  }

  /** Which third of `[x, x + 3 * sub)` holds `r`: 0, 1 or 2. */
  function Third(r: int, x: int, sub: int): (t: int)
    ensures 0 <= t < 3
    ensures x <= r < x + 3 * sub ==> x + Offset(t, sub) <= r < x + Offset(t, sub) + sub
  {
    if r < x + sub then 0 else if r < x + 2 * sub then 1 else 2
  }

  /** A point of the `i`-th third is in third `i`. */
  lemma ThirdOf(r: int, x: int, sub: int, i: int)
    requires 0 <= i < 3 && x + Offset(i, sub) <= r < x + Offset(i, sub) + sub
    ensures Third(r, x, sub) == i
  {
  }
}
