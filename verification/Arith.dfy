/** Powers of two and division by them. */
module Arith {

  function Min(a: int, b: int): int {
    if a < b then a else b
  }

  lemma MulLe(x: int, y: int, d: int)
    requires x <= y && d >= 0
    ensures x * d <= y * d
  {
    assert (y - x) * d >= 0;
    assert (y - x) * d == y * d - x * d;
  }

  lemma MulLt(x: int, y: int, d: int)
    requires x < y && d >= 0
    ensures x * d + d <= y * d
  {
    MulLe(x + 1, y, d);
    assert (x + 1) * d == x * d + d;
  }

  lemma MulCancelLt(x: int, y: int, d: int)
    requires d >= 0 && x * d < y * d
    ensures x < y
  {
    if x >= y {
      MulLe(y, x, d);
    }
  }

  lemma DivMod(a: int, d: int)
    requires d > 0
    ensures a == (a / d) * d + a % d && 0 <= a % d < d
  {
  }

  /** Quotient and remainder are the only pair that fits. */
  lemma QuotientUnique(a: int, d: int, q: int, r: int)
    requires d > 0 && 0 <= r < d && a == q * d + r
    ensures a / d == q && a % d == r
  {
    var (q', r') := (a / d, a % d);
    DivMod(a, d);
    if q' < q {
      MulLt(q', q, d);
    } else if q' > q {
      MulLt(q, q', d);
    }
  }

  lemma DivDiv(a: nat, b: nat, c: nat)
    requires b > 0 && c > 0
    ensures b * c > 0 && a / b / c == a / (b * c)
  {
    var (q0, r0) := (a / b, a % b);
    var (q1, r1) := (q0 / c, q0 % c);
    DivMod(a, b);
    DivMod(q0, c);
    assert q0 * b == (q1 * c) * b + r1 * b;
    assert (q1 * c) * b == q1 * (b * c);
    MulLe(r1, c - 1, b);
    assert (c - 1) * b == b * c - b;
    assert r1 * b >= 0;
    QuotientUnique(a, b * c, q1, r1 * b + r0);
  }

  function Pow2(n: nat): (p: nat)
    ensures p >= 1
  {
    if n == 0 then 1 else 2 * Pow2(n - 1)
  }

  lemma {:induction false} Pow2Add(m: nat, n: nat)
    ensures Pow2(m + n) == Pow2(m) * Pow2(n)
  {
    if m > 0 {
      Pow2Add(m - 1, n);
    }
  }

  lemma {:induction false} Pow2Monotone(m: nat, n: nat)
    requires m <= n
    ensures Pow2(m) <= Pow2(n)
  {
    if m < n {
      Pow2Monotone(m, n - 1);
    }
  }

  lemma ShiftStep(a: nat, i: nat)
    ensures a / Pow2(i) / 2 == a / Pow2(i + 1)
    ensures a / 2 / Pow2(i) == a / Pow2(i + 1)
  {
    var p := Pow2(i);
    DivDiv(a, p, 2);
    DivDiv(a, 2, p);
  }
}
