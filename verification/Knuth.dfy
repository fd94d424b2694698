/** Long division of src/bignum.c: the 64-step restoring division, and Knuth's Algorithm D
    with the machine's 128-bit arithmetic. */
module Knuth {
  import opened Arith
  import opened Limbs

  const HALF: nat := 0x8000_0000_0000_0000

  // ----- divlu64 -----

  /** One step: shift a bit into the remainder register, with the carry out of its top, and
      subtract the divisor, wrapping, if the carry or the comparison says so. */
  function DivOne(r: Limb, bit: nat, v: Limb): (bool, Limb)
    requires bit <= 1
  {
    var carry := r / HALF;
    var shifted := (2 * r + bit) % B;
    if carry == 1 || shifted >= v then (true, (shifted - v) % B) else (false, shifted)
  }

  /** The quotient and remainder registers after `k` of the 64 steps. */
  function DivSteps(u1: Limb, u0: Limb, v: Limb, k: nat): (qr: (nat, Limb))
    requires k <= 64
  {
    if k == 0 then (0, u1) else
    var (q, r) := DivSteps(u1, u0, v, k - 1);
    var (up, r') := DivOne(r, u0 / Pow2(64 - k) % 2, v);
    (if up then q + Pow2(64 - k) else q, r')
  }

  function DivLu(u1: Limb, u0: Limb, v: Limb): (nat, Limb) {
    DivSteps(u1, u0, v, 64)
  }

  lemma DivStep(r: Limb, bit: nat, v: Limb)
    requires r < v && bit <= 1
    ensures var x := 2 * r + bit;
            if x >= v then x - v < v && DivOne(r, bit, v) == (true, x - v) else DivOne(r, bit, v) == (false, x)
  {
  }

  /** The bits from `i` up. */
  function BitsFrom(u0: Limb, i: nat): int {
    u0 / Pow2(i)
  }

  /** The registers after `k` steps hold the division, by `v`, of the bits seen so far: `d` is the
      quotient, not yet shifted into place. */
  predicate Divided(u1: Limb, u0: Limb, v: Limb, k: nat, d: nat)
    requires k <= 64
  {
    var (q, r) := DivSteps(u1, u0, v, k);
    r < v && q == d * Pow2(64 - k) && Pow2(k) * u1 + BitsFrom(u0, 64 - k) == d * v + r
  }

  /** While the remainder stays below the divisor, the registers hold the division of the bits
      seen so far. */
  lemma {:induction false} DivStepsExact(u1: Limb, u0: Limb, v: Limb, k: nat) returns (d: nat)
    requires k <= 64 && u1 < v
    ensures Divided(u1, u0, v, k, d)
  {
    hide *;
    if k == 0 {
      d := 0;
      DivStepsStart(u1, u0, v);
    } else {
      d := DivStepsExact(u1, u0, v, k - 1);
      d := DivStepsNext(u1, u0, v, k, d);
    }
  }

  lemma DivStepsStart(u1: Limb, u0: Limb, v: Limb)
    requires u1 < v
    ensures Divided(u1, u0, v, 0, 0)
  {
    Pow64();
  }

  lemma DivStepsNext(u1: Limb, u0: Limb, v: Limb, k: nat, d0: nat) returns (d: nat)
    requires 0 < k <= 64 && Divided(u1, u0, v, k - 1, d0)
    ensures Divided(u1, u0, v, k, d)
  {
    var (q, r) := DivSteps(u1, u0, v, k - 1);
    var bit := NextBit(u1, u0, v, k);
    hide DivSteps, Pow2, BitsFrom;
    var e := if 2 * r + bit >= v then 1 else 0;
    d := 2 * d0 + e;
    DoubleUp(d0, e, Pow2(64 - k));
    NextRemainder(d0, e, v, Pow2(k - 1), u1, BitsFrom(u0, 65 - k), r, bit);
  }

  lemma NextBit(u1: Limb, u0: Limb, v: Limb, k: nat) returns (bit: nat)
    requires 0 < k <= 64 && DivSteps(u1, u0, v, k - 1).1 < v
    ensures bit <= 1 && Pow2(65 - k) == 2 * Pow2(64 - k) && Pow2(k) == 2 * Pow2(k - 1)
    ensures BitsFrom(u0, 64 - k) == 2 * BitsFrom(u0, 65 - k) + bit
    ensures var (q, r) := DivSteps(u1, u0, v, k - 1);
            var x := 2 * r + bit;
            && DivSteps(u1, u0, v, k) == (if x >= v then (q + Pow2(64 - k), x - v) else (q, x))
            && DivSteps(u1, u0, v, k).1 < v
  {
    bit := u0 / Pow2(64 - k) % 2;
    DivStep(DivSteps(u1, u0, v, k - 1).1, bit, v);
    hide DivOne;
    ShiftStep(u0, 64 - k);
  }

  lemma NextRemainder(d: nat, e: nat, v: nat, w: nat, u1: nat, seen: int, r: nat, bit: nat)
    requires e <= 1 && w * u1 + seen == d * v + r
    ensures (2 * w) * u1 + (2 * seen + bit) == (2 * d + e) * v + (2 * r + bit - (if e == 1 then v else 0))
  {
    DoubleUp(d, e, v);
    DoubleUp(w, 0, u1);
  }

  lemma DoubleUp(d: nat, e: nat, x: nat)
    requires e <= 1
    ensures (2 * d + e) * x == 2 * (d * x) + (if e == 1 then x else 0) == d * (2 * x) + (if e == 1 then x else 0)
  {
    assert (2 * d + e) * x == 2 * (d * x) + e * x;
  }

  lemma Pow16()
    ensures Pow2(4) == 16
  {
  }

  lemma Pow64()
    ensures Pow2(64) == B
  {
    hide Pow2;
    Pow16();
    Pow2Add(4, 4);
    Pow2Add(8, 8);
    Pow2Add(16, 16);
    Pow2Add(32, 32);
  }

  /** `divlu64` divides exactly when the high limb is below the divisor. */
  lemma DivLuExact(u1: Limb, u0: Limb, v: Limb)
    requires u1 < v
    ensures var (q, r) := DivLu(u1, u0, v);
            q < B && q == (u1 * B + u0) / v && r == (u1 * B + u0) % v
  {
    var d := DivStepsExact(u1, u0, v, 64);
    Pow64();
    assert BitsFrom(u0, 0) == u0 && Pow2(0) == 1;
    hide Pow2, BitsFrom;
    QuotientUnique(u1 * B + u0, v, d, DivLu(u1, u0, v).1);
    if d >= B {
      MulLe(B, d, v);
      MulLe(u1 + 1, v, B);
    }
  }

  // ----- Algorithm D -----

  const TWO127: nat := 0x8000_0000_0000_0000_0000_0000_0000_0000
  const TWO128: nat := 0x1_0000_0000_0000_0000_0000_0000_0000_0000

  /** A signed 128-bit value, wrapped. */
  function S128(x: int): (t: int)
    ensures -(TWO127 as int) <= t < TWO127
    ensures -(TWO127 as int) <= x < TWO127 ==> t == x
  {
    (x + TWO127) % TWO128 - TWO127
  }

  function LimbOf(x: int): Limb {
    x % B
  }

  function LimbAt(v: seq<Limb>, i: nat): Limb {
    if i < |v| then v[i] else 0
  }

  /** D3, the refinement loop: lower the estimate until its product with the second limb fits,
      or the remainder outgrows a limb.  Arithmetic is unsigned 128-bit. */
  function Refine(qhat: Limb, rhat: nat, v1: Limb, v2: Limb, u2: Limb): Limb
    decreases qhat
  {
    if rhat >= B || qhat * v2 <= rhat * B + u2 || qhat == 0 then qhat
    else Refine(qhat - 1, rhat + v1, v1, v2, u2)
  }

  /** D4 on the `k` lowest limbs of a window: the limbs, and the signed borrow. */
  function SubMul(u: seq<Limb>, v: seq<Limb>, qhat: Limb, k: nat): (r: (seq<Limb>, int))
    requires k <= |u|
    ensures |r.0| == k
  {
    if k == 0 then ([], 0) else
    var (out, borrow) := SubMul(u, v, qhat, k - 1);
    var t := S128(u[k - 1] - qhat * LimbAt(v, k - 1) + borrow);
    (out + [LimbOf(t)], t / B)
  }

  /** D5 on the `k` lowest limbs: add the divisor back, with an unsigned carry. */
  function AddBack(u: seq<Limb>, v: seq<Limb>, k: nat): (r: (seq<Limb>, nat))
    requires k <= |u|
    ensures |r.0| == k && r.1 <= 1
  {
    if k == 0 then ([], 0) else
    var (out, carry) := AddBack(u, v, k - 1);
    var s := u[k - 1] + LimbAt(v, k - 1) + carry;
    (out + [LimbOf(s)], s / B)
  }

  /** D3: the estimate from the two top limbs, refined with the next one. */
  function Estimate(w: seq<Limb>, v: seq<Limb>): Limb
    requires |w| == |v| + 1 && |v| >= 2
  {
    var n := |v|;
    var est := LimbOf(DivLu(w[n], w[n - 1], v[n - 1]).0);
    var rhat := (w[n] * B + w[n - 1] - est * v[n - 1]) % TWO128;
    Refine(est, rhat, v[n - 1], v[n - 2], w[n - 2])
  }

  /** D4 and D5: subtract the estimated multiple; if that borrows, lower the digit and add the
      divisor back once. */
  function Subtract(w: seq<Limb>, v: seq<Limb>, qhat: Limb): (r: (Limb, seq<Limb>))
    requires |w| == |v| + 1
    ensures |r.1| == |w|
  {
    var n := |v|;
    var (sub, borrow) := SubMul(w, v, qhat, n + 1);
    if borrow < 0 then
      var (low, carry) := AddBack(sub, v, n);
      (LimbOf(qhat - 1), low + [LimbOf(sub[n] + carry)])
    else (qhat, sub)
  }

  /** One quotient digit from a window of one limb more than the divisor: the digit and the
      window it leaves. */
  function DigitStep(w: seq<Limb>, v: seq<Limb>): (r: (Limb, seq<Limb>))
    requires |w| == |v| + 1 && |v| >= 2
    ensures |r.1| == |w|
  {
    Subtract(w, v, Estimate(w, v))
  }

  /** The digits from position `j` down to 0: the quotient limbs and the dividend they leave. */
  function Digits(u: seq<Limb>, v: seq<Limb>, j: nat): (r: (seq<Limb>, seq<Limb>))
    requires |v| >= 2 && j + |v| <= |u|
    ensures |r.0| == j && |r.1| == |u|
    decreases j
  {
    if j == 0 then ([], u) else
    var (d, w) := DigitStep(u[j - 1..j + |v|], v);
    var (q, rest) := Digits(u[..j - 1] + w + u[j + |v|..], v, j - 1);
    (q + [d], rest)
  }

  // ----- Why one window gives the right digit -----

  /** The divisor with the zero limb that D4 reads above it. */
  function Padded(v: seq<Limb>): seq<Limb> {
    v + [0]
  }

  /** With an estimate of at most 2^63 no product leaves the signed 128-bit range, and D4
      subtracts exactly. */
  lemma {:induction false} SubMulExact(u: seq<Limb>, v: seq<Limb>, qhat: Limb, k: nat)
    requires |u| == |v| + 1 && k <= |u| && qhat <= HALF
    ensures var (out, borrow) := SubMul(u, v, qhat, k);
            && -(HALF as int) <= borrow <= 0
            && Val(out) + BPow(k) * borrow == Val(u[..k]) - qhat * Val(Padded(v)[..k])
  {
    if k > 0 {
      SubMulExact(u, v, qhat, k - 1);
      var (out, borrow) := SubMul(u, v, qhat, k - 1);
      var (x, y) := (u[k - 1], LimbAt(v, k - 1));
      SubMulRange(x, y, qhat, borrow);
      var t := x - qhat * y + borrow;
      assert SubMul(u, v, qhat, k) == (out + [LimbOf(t)], t / B);
      hide SubMul, S128;
      PrefixSnoc(u, k);
      PrefixSnoc(Padded(v), k);
      ValSnoc(out, LimbOf(t));
      hide Val;
      SubMulArith(BPow(k - 1), Val(out), borrow, x, y, qhat, LimbOf(t), t / B,
                  Val(u[..k - 1]), Val(Padded(v)[..k - 1]));
    }
  }

  lemma PrefixSnoc(s: seq<Limb>, k: nat)
    requires 1 <= k <= |s|
    ensures Val(s[..k]) == Val(s[..k - 1]) + BPow(k - 1) * s[k - 1]
  {
    assert s[..k] == s[..k - 1] + [s[k - 1]];
    ValSnoc(s[..k - 1], s[k - 1]);
  }

  lemma SubMulRange(x: Limb, y: Limb, qhat: Limb, b: int)
    requires qhat <= HALF && -(HALF as int) <= b <= 0
    ensures var t := x - qhat * y + b;
            S128(t) == t && t == (t / B) * B + LimbOf(t) && -(HALF as int) <= t / B <= 0
  {
    MulLe(y, B - 1, qhat);
    MulLe(qhat, HALF, B - 1);
    SignedRange(x - qhat * y + b);
  }

  lemma SignedRange(t: int)
    requires -(TWO127 as int) <= t < B
    ensures S128(t) == t && t == (t / B) * B + LimbOf(t) && -(HALF as int) <= t / B <= 0
  {
  }

  lemma SubMulArith(w: int, o: int, b: int, x: int, y: int, q: int, lo: int, hi: int, a: int, c: int)
    requires o + w * b == a - q * c && x - q * y + b == hi * B + lo
    ensures (o + w * lo) + (B * w) * hi == (a + w * x) - q * (c + w * y)
  {
    assert w * (hi * B + lo) == (B * w) * hi + w * lo;
    assert w * (x - q * y + b) == w * x - w * (q * y) + w * b;
    assert w * (q * y) == q * (w * y);
    assert q * (c + w * y) == q * c + q * (w * y);
  }

  lemma {:induction false} AddBackExact(u: seq<Limb>, v: seq<Limb>, k: nat)
    requires |v| < |u| && k <= |v|
    ensures var (out, carry) := AddBack(u, v, k);
            Val(out) + BPow(k) * carry == Val(u[..k]) + Val(v[..k])
  {
    if k > 0 {
      AddBackExact(u, v, k - 1);
      var (out, carry) := AddBack(u, v, k - 1);
      var s := u[k - 1] + v[k - 1] + carry;
      assert AddBack(u, v, k) == (out + [LimbOf(s)], s / B);
      hide AddBack;
      DivMod(s, B);
      PrefixSnoc(u, k);
      PrefixSnoc(v, k);
      ValSnoc(out, LimbOf(s));
      hide Val;
      AddBackArith(BPow(k - 1), Val(out), carry, u[k - 1], v[k - 1], LimbOf(s), s / B,
                   Val(u[..k - 1]), Val(v[..k - 1]));
    }
  }

  lemma AddBackArith(w: int, o: int, c: int, x: int, y: int, lo: int, hi: int, a: int, d: int)
    requires o + w * c == a + d && x + y + c == hi * B + lo
    ensures (o + w * lo) + (B * w) * hi == (a + w * x) + (d + w * y)
  {
    assert w * (hi * B + lo) == (B * w) * hi + w * lo;
    assert w * (x + y + c) == w * x + w * y + w * c;
  }

  /** The refinement stops at the smaller of the estimate and the quotient of the three top
      limbs of the window by the two top limbs of the divisor. */
  lemma {:induction false} RefineExact(qhat: Limb, rhat: nat, v1: Limb, v2: Limb, u2: Limb, top: nat)
    requires rhat == top - qhat * v1
    ensures var r := Refine(qhat, rhat, v1, v2, u2);
            && r <= qhat && r * (v1 * B + v2) <= top * B + u2
            && (r < qhat ==> (r + 1) * (v1 * B + v2) > top * B + u2)
    decreases qhat
  {
    RefineTest(qhat, rhat, v1, v2, u2, top);
    if rhat < B && qhat * v2 > rhat * B + u2 && qhat != 0 {
      assert (qhat - 1) * v1 == qhat * v1 - v1;
      RefineExact(qhat - 1, rhat + v1, v1, v2, u2, top);
    }
  }

  lemma RefineTest(qhat: Limb, rhat: nat, v1: Limb, v2: Limb, u2: Limb, top: nat)
    requires rhat == top - qhat * v1
    ensures qhat * (v1 * B + v2) <= top * B + u2 <==> rhat >= B || qhat * v2 <= rhat * B + u2
  {
    var (a, b) := (qhat * v1, qhat * v2);
    assert qhat * (v1 * B + v2) == a * B + b;
    if rhat >= B {
      MulLe(qhat, B - 1, v2);
      MulLe(v2, B - 1, B - 1);
    }
  }

  /** `x` is the quotient of `u` by `p`. */
  predicate Fits(u: nat, x: nat, p: nat) {
    x * p <= u < (x + 1) * p
  }

  /** An estimate whose product with the leading limbs is too big is above the quotient. */
  lemma TooBig(u: nat, v: nat, q: nat, top: nat, lead: nat, w: nat, x: nat)
    requires Fits(u, top, w) && Fits(v, lead, w) && Fits(u, q, v)
    requires x * lead > top
    ensures x > q
  {
    MulLe(top + 1, x * lead, w);
    assert (x * lead) * w == x * (lead * w);
    MulLe(lead * w, v, x);
    if x <= q {
      MulLe(x, q, v);
    }
  }

  /** An estimate below the base whose product with the two leading limbs fits is at most one
      above the quotient. */
  lemma AtMostOneAbove(u: nat, v: nat, q: nat, top: nat, lead: nat, w: nat, x: nat)
    requires Fits(u, top, w) && Fits(v, lead, w) && Fits(u, q, v)
    requires x * lead <= top && x < B && B <= lead
    ensures x <= q + 1
  {
    if x >= q + 2 {
      ProductOver(u, v, q, x);
      ProductLow(u, top, lead, w, x);
      ProductHigh(v, lead, w, x);
      MulLe(B, lead, w);
      MulLt(x, B, w);
    }
  }

  lemma ProductOver(u: nat, v: nat, q: nat, x: nat)
    requires Fits(u, q, v) && x >= q + 2
    ensures u < x * v - v
  {
    MulLe(q + 1, x - 1, v);
    assert (x - 1) * v == x * v - v;
  }

  lemma ProductLow(u: nat, top: nat, lead: nat, w: nat, x: nat)
    requires Fits(u, top, w) && x * lead <= top
    ensures x * (lead * w) <= u
  {
    MulLe(x * lead, top, w);
    assert (x * lead) * w == x * (lead * w);
  }

  lemma ProductHigh(v: nat, lead: nat, w: nat, x: nat)
    requires Fits(v, lead, w)
    ensures x * v <= x * (lead * w) + x * w
  {
    assert (lead + 1) * w == lead * w + w;
    MulLe(v, lead * w + w, x);
    assert x * (lead * w + w) == x * (lead * w) + x * w;
  }

  /** A number fits between its leading limbs and one more, scaled. */
  lemma Between(s: seq<Limb>, k: nat)
    requires k <= |s|
    ensures Fits(Val(s), Val(s[k..]), BPow(k))
  {
    hide Val, BPow;
    ValSplit(s, k);
    var (x, p) := (Val(s[k..]), BPow(k));
    assert (x + 1) * p == x * p + p;
  }

  lemma Val3(s: seq<Limb>)
    requires |s| == 3
    ensures Val(s) == (s[2] * B + s[1]) * B + s[0]
  {
    Val2(s[1..]);
  }

  lemma Val1(s: seq<Limb>)
    requires |s| == 1
    ensures Val(s) == s[0]
  {
    assert s[1..] == [];
  }

  lemma Val2(s: seq<Limb>)
    requires |s| == 2
    ensures Val(s) == s[1] * B + s[0]
  {
    Val1(s[1..]);
  }

  lemma TopArith(u: nat, vv: nat, q: nat, top: nat, v1: nat, p: nat)
    requires Fits(u, top, p) && Fits(vv, v1, p) && Fits(u, q, vv) && q < HALF
    ensures top < HALF * (v1 + 1)
  {
    MulLe(q + 1, HALF, vv);
    assert HALF * ((v1 + 1) * p) == (HALF * (v1 + 1)) * p;
    MulCancelLt(top, HALF * (v1 + 1), p);
  }

  /** A quotient digit below 2^63 keeps the top limb of the window below that of the divisor,
      which is what `divlu64` needs. */
  lemma TopLimbBelow(w: seq<Limb>, v: seq<Limb>, q: nat)
    requires |w| == |v| + 1 && |v| >= 2 && v[|v| - 1] >= 1
    requires Fits(Val(w), q, Val(v)) && q < HALF
    ensures w[|v|] < v[|v| - 1]
  {
    hide Fits, Val, BPow;
    var n := |v|;
    Val2(w[n - 1..]);
    Val1(v[n - 1..]);
    Between(w, n - 1);
    Between(v, n - 1);
    TopArith(Val(w), Val(v), q, Val(w[n - 1..]), Val(v[n - 1..]), BPow(n - 1));
  }

  lemma FirstArith(u: nat, vv: nat, q: nat, top: nat, v1: nat, p: nat, est: nat)
    requires Fits(u, q, vv) && Fits(u, top, p) && Fits(vv, v1, p) && Fits(top, est, v1)
    ensures q <= est && est * v1 <= top
  {
    MulLe(v1 * p, vv, q);
    assert (q * v1) * p == q * (v1 * p);
    MulCancelLt(q * v1, top + 1, p);
    MulCancelLt(q, est + 1, v1);
  }

  lemma DivLuFits(u1: Limb, u0: Limb, v: Limb)
    requires u1 < v
    ensures DivLu(u1, u0, v).0 < B && Fits(u1 * B + u0, DivLu(u1, u0, v).0, v)
  {
    hide DivLu;
    DivLuExact(u1, u0, v);
    DivMod(u1 * B + u0, v);
    var q := DivLu(u1, u0, v).0;
    assert (q + 1) * v == q * v + v;
  }

  lemma LimbOfLimb(x: nat)
    requires x < B
    ensures LimbOf(x) == x
  {
  }

  /** Before refinement the estimate is the quotient of the leading limbs, and not too small. */
  lemma FirstEstimate(w: seq<Limb>, v: seq<Limb>, q: nat, est: Limb)
    requires |w| == |v| + 1 && |v| >= 2 && w[|v|] < v[|v| - 1] && Fits(Val(w), q, Val(v))
    requires est == LimbOf(DivLu(w[|v|], w[|v| - 1], v[|v| - 1]).0)
    ensures q <= est && est * v[|v| - 1] <= w[|v|] * B + w[|v| - 1]
  {
    hide Fits, Val, BPow, DivLu, LimbOf;
    var n := |v|;
    Val2(w[n - 1..]);
    Val1(v[n - 1..]);
    Between(w, n - 1);
    Between(v, n - 1);
    DivLuFits(w[n], w[n - 1], v[n - 1]);
    LimbOfLimb(DivLu(w[n], w[n - 1], v[n - 1]).0);
    FirstArith(Val(w), Val(v), q, w[n] * B + w[n - 1], v[n - 1], BPow(n - 1), est);
  }

  /** The refined estimate, in terms of the leading limbs. */
  lemma EstimateIs(w: seq<Limb>, v: seq<Limb>, est: Limb)
    requires |w| == |v| + 1 && |v| >= 2
    requires est == LimbOf(DivLu(w[|v|], w[|v| - 1], v[|v| - 1]).0)
    requires est * v[|v| - 1] <= w[|v|] * B + w[|v| - 1]
    ensures var n := |v|; var x := Estimate(w, v);
            var (three, lead) := ((w[n] * B + w[n - 1]) * B + w[n - 2], v[n - 1] * B + v[n - 2]);
            x <= est && x * lead <= three && (x < est ==> (x + 1) * lead > three)
  {
    hide DivLu, Refine;
    var n := |v|;
    var top := w[n] * B + w[n - 1];
    var rhat := top - est * v[n - 1];
    assert rhat % TWO128 == rhat;
    RefineExact(est, rhat, v[n - 1], v[n - 2], w[n - 2], top);
  }

  /** Knuth's D3: the refined estimate is the digit or one above it. */
  lemma EstimateBounds(w: seq<Limb>, v: seq<Limb>, q: nat)
    requires |w| == |v| + 1 && |v| >= 2 && w[|v|] < v[|v| - 1]
    requires Fits(Val(w), q, Val(v))
    ensures q <= Estimate(w, v) <= q + 1
  {
    hide Fits, DivLu, LimbOf, Estimate, Val, BPow;
    var n := |v|;
    Val3(w[n - 2..]);
    Val2(v[n - 2..]);
    var est := LimbOf(DivLu(w[n], w[n - 1], v[n - 1]).0);
    FirstEstimate(w, v, q, est);
    EstimateIs(w, v, est);
    Between(w, n - 2);
    Between(v, n - 2);
    RefinedArith(Val(w), Val(v), q, Val(w[n - 2..]), Val(v[n - 2..]), BPow(n - 2), est, Estimate(w, v));
  }

  lemma RefinedArith(u: nat, vv: nat, q: nat, three: nat, lead: nat, p: nat, est: Limb, x: Limb)
    requires Fits(u, three, p) && Fits(vv, lead, p) && Fits(u, q, vv) && B <= lead && q <= est
    requires x <= est && x * lead <= three && (x < est ==> (x + 1) * lead > three)
    ensures q <= x <= q + 1
  {
    hide Fits;
    AtMostOneAbove(u, vv, q, three, lead, p, x);
    if x < est {
      TooBig(u, vv, q, three, lead, p, x + 1);
    }
  }

  /** D4 and D5 turn an estimate that is the digit, or one above it, into the digit and the
      remainder; the one add-back is enough. */
  lemma SubtractExact(w: seq<Limb>, v: seq<Limb>, qhat: Limb, q: nat, r: nat)
    requires |w| == |v| + 1 && Val(w) == q * Val(v) + r && r < Val(v)
    requires q <= qhat <= q + 1 && qhat <= HALF
    ensures var (d, rest) := Subtract(w, v, qhat); d == q && Val(rest) == r
  {
    hide Val, BPow, SubMul, AddBack, LimbOf;
    var n := |v|;
    var (sub, borrow) := SubMul(w, v, qhat, n + 1);
    WindowDifference(w, v, qhat);
    ValBound(sub);
    ValBound(v);
    BPowNext(n);
    BorrowCases(BPow(n + 1), Val(sub), borrow, q, qhat, Val(v), r);
    if qhat != q {
      AddedBack(sub, v, r);
    }
    LimbOfLimb(q);
  }

  lemma BPowNext(n: nat)
    ensures BPow(n + 1) == B * BPow(n) && BPow(n) <= BPow(n + 1)
  {
  }

  lemma WindowDifference(w: seq<Limb>, v: seq<Limb>, qhat: Limb)
    requires |w| == |v| + 1 && qhat <= HALF
    ensures var (sub, borrow) := SubMul(w, v, qhat, |w|);
            Val(sub) + BPow(|w|) * borrow == Val(w) - qhat * Val(v)
  {
    SubMulExact(w, v, qhat, |w|);
    assert w[..|w|] == w && Padded(v)[..|w|] == Padded(v);
    ValSnoc(v, 0);
  }

  /** Adding the divisor back to a window that went below zero by less than the divisor. */
  lemma AddedBack(sub: seq<Limb>, v: seq<Limb>, r: nat)
    requires |sub| == |v| + 1 && r < Val(v)
    requires Val(sub) + Val(v) == r + B * BPow(|v|)
    ensures var (low, carry) := AddBack(sub, v, |v|); Val(low + [LimbOf(sub[|v|] + carry)]) == r
  {
    var n := |v|;
    var (low, carry) := AddBack(sub, v, n);
    AddBackExact(sub, v, n);
    assert v[..n] == v;
    Val1(sub[n..]);
    hide Val, BPow, AddBack;
    ValSplit(sub, n);
    ValBound(low);
    ValBound(v);
    WrapAround(BPow(n), Val(low), carry, sub[n], r, Val(sub[..n]), Val(v));
    ValSnoc(low, LimbOf(sub[n] + carry));
  }

  /** The signed borrow out of the window is 0 or -1, as the estimate is or is not the digit. */
  lemma BorrowCases(p: nat, sub: nat, borrow: int, q: nat, qhat: nat, v: nat, r: nat)
    requires sub < p && r < v <= p && q <= qhat <= q + 1
    requires sub + p * borrow == q * v + r - qhat * v
    ensures qhat == q ==> borrow == 0 && sub == r
    ensures qhat == q + 1 ==> borrow == -1 && sub + v == r + p
  {
    var e := if qhat == q then 0 else -1;
    assert qhat * v == q * v - e * v;
    if borrow > e {
      MulLt(e, borrow, p);
    } else if borrow < e {
      MulLt(borrow, e, p);
    }
  }

  lemma WrapAround(p: nat, low: nat, carry: nat, top: Limb, r: nat, a: nat, v: nat)
    requires low < p && r < p && carry <= 1
    requires low + p * carry == a + v && a + p * top + v == r + B * p
    ensures low == r && carry + top == B
  {
    assert p * (carry + top) == p * carry + p * top;
    if carry + top < B {
      MulLt(carry + top, B, p);
    }
  }

  /** Algorithm D's digit: below 2^63 it is the quotient of the window by the divisor, and the
      window is left holding the remainder. */
  lemma DigitExact(w: seq<Limb>, v: seq<Limb>, q: nat, r: nat)
    requires |w| == |v| + 1 && |v| >= 2 && v[|v| - 1] >= 1
    requires Divides(Val(w), Val(v), q, r) && q < HALF
    ensures var (d, rest) := DigitStep(w, v); d == q && Val(rest) == r
  {
    hide Val;
    assert (q + 1) * Val(v) == q * Val(v) + Val(v);
    TopLimbBelow(w, v, q);
    EstimateBounds(w, v, q);
    SubtractExact(w, v, Estimate(w, v), q, r);
  }

  // ----- All the digits -----

  /** Every base-2^64 digit is below 2^63. */
  predicate SmallDigits(q: nat) {
    q == 0 || (q % B < HALF && SmallDigits(q / B))
  }

  lemma {:induction false} SmallTop(q: nat, d: nat, low: nat, p: nat)
    requires SmallDigits(q) && q == d * BPow(p) + low && low < BPow(p) && d < B
    ensures d < HALF && SmallDigits(low)
    decreases p
  {
    if p > 0 && q > 0 {
      var (w, x, y) := (BPow(p - 1), low / B, low % B);
      DivMod(low, B);
      assert d * (B * w) == (d * w) * B;
      QuotientUnique(q, B, d * w + x, y);
      MulCancelLt(x, w, B);
      SmallTop(q / B, d, x, p - 1);
    } else if p == 0 && d > 0 {
      QuotientUnique(q, B, 0, d);
    } else {
      NoDigit(d, BPow(p), q, low);
    }
  }

  lemma NoDigit(d: nat, p: nat, q: nat, low: nat)
    requires q == d * p + low && p > 0 && (q == 0 || d == 0)
    ensures d == 0 && low == q
  {
    if d > 0 {
      MulLe(1, d, p);
    }
  }

  /** Quotient and remainder. */
  predicate Divides(u: nat, v: nat, q: nat, r: nat) {
    u == q * v + r && r < v
  }

  /** Splitting a division at a power: the high part divides by itself, and what it leaves
      divides on. */
  lemma SplitDivision(u: nat, a: nat, p: nat, x: nat, d: nat, low: nat, v: nat, q: nat, r: nat) returns (e: nat)
    requires Divides(u, v, q, r) && u == a + p * x && a < p && q == d * p + low && low < p
    ensures Divides(x, v, d, e) && Divides(a + p * e, v, low, r)
  {
    var f := SplitArith(a, p, x, d, low, v, r);
    e := f;
  }

  lemma SplitArith(a: nat, p: nat, x: nat, d: nat, low: nat, v: nat, r: nat) returns (f: nat)
    requires a < p && low < p && r < v
    requires a + p * x == (d * p + low) * v + r
    ensures x == d * v + f && f < v && a + p * f == low * v + r
  {
    var (e, lv) := (x - d * v, low * v);
    assert (d * p + low) * v == (d * p) * v + lv;
    assert (d * p) * v == p * (d * v);
    assert p * e == p * x - p * (d * v);
    MulLt(low, p, v);
    if e < 0 {
      MulLe(e, -1, p);
    } else if e >= v {
      MulLe(v, e, p);
    }
    f := e;
  }

  lemma HighLimbsZero(u: seq<Limb>, k: nat)
    requires k <= |u| && Val(u) < BPow(k)
    ensures Val(u[k..]) == 0
  {
    hide Val, BPow;
    ValSplit(u, k);
    var high := Val(u[k..]);
    if high > 0 {
      MulLe(1, high, BPow(k));
    }
  }

  /** The window at position `p` is everything of `u` from there up. */
  lemma WindowIsTop(u: seq<Limb>, p: nat, k: nat)
    requires p + k <= |u| && Val(u) < BPow(p + k)
    ensures Val(u) == Val(u[..p]) + BPow(p) * Val(u[p..p + k]) && Val(u[..p]) < BPow(p)
  {
    hide Val, BPow;
    HighLimbsZero(u, p + k);
    ValSplit(u, p);
    assert u[p..] == u[p..p + k] + u[p + k..];
    ValConcat(u[p..p + k], u[p + k..]);
  }

  lemma Replaced(u: seq<Limb>, p: nat, k: nat, w: seq<Limb>)
    requires p + k <= |u| && |w| == k && Val(u) < BPow(p + k)
    ensures Val(u[..p] + w + u[p + k..]) == Val(u[..p]) + BPow(p) * Val(w)
  {
    hide Val, BPow;
    HighLimbsZero(u, p + k);
    assert u[..p] + w + u[p + k..] == u[..p] + (w + u[p + k..]);
    ValConcat(u[..p], w + u[p + k..]);
    ValConcat(w, u[p + k..]);
  }

  /** Algorithm D: when no quotient digit reaches 2^63 the quotient and the remainder are exact. */
  lemma {:induction false} DigitsExact(u: seq<Limb>, v: seq<Limb>, j: nat, q: nat, r: nat)
    requires |v| >= 2 && j + |v| <= |u| && v[|v| - 1] >= 1
    requires Divides(Val(u), Val(v), q, r) && q < BPow(j) && SmallDigits(q)
    ensures var (qs, rest) := Digits(u, v, j); Val(qs) == q && Val(rest) == r
    decreases j
  {
    if j == 0 {
      assert q == 0;
    } else {
      hide Val, BPow, SmallDigits, DigitStep, Divides;
      var (p, n) := (j - 1, |v|);
      var w := u[p..j + n];
      var d, low, e := Peel(u, v, j, q, r);
      DigitExact(w, v, d, e);
      var (d', w') := DigitStep(w, v);
      var u' := u[..p] + w' + u[j + n..];
      BelowPower(u, v, j, q, r);
      Replaced(u, p, n + 1, w');
      DigitsExact(u', v, p, low, r);
      ValSnoc(Digits(u', v, p).0, d);
      assert Digits(u, v, j) == (Digits(u', v, p).0 + [d'], Digits(u', v, p).1);
    }
  }

  /** The top digit of a quotient comes from the top window; what it leaves is the rest of the
      dividend, with the rest of the quotient. */
  lemma Peel(u: seq<Limb>, v: seq<Limb>, j: nat, q: nat, r: nat) returns (d: nat, low: nat, e: nat)
    requires j >= 1 && j + |v| <= |u|
    requires Divides(Val(u), Val(v), q, r) && q < BPow(j) && SmallDigits(q)
    ensures d < HALF && low < BPow(j - 1) && SmallDigits(low) && q == low + BPow(j - 1) * d
    ensures Divides(Val(u[j - 1..j + |v|]), Val(v), d, e)
    ensures Divides(Val(u[..j - 1]) + BPow(j - 1) * e, Val(v), low, r)
  {
    hide Val, BPow, SmallDigits, Divides;
    var p := j - 1;
    d, low := q / BPow(p), q % BPow(p);
    TopDigit(q, p);
    BelowPower(u, v, j, q, r);
    WindowIsTop(u, p, |v| + 1);
    e := SplitDivision(Val(u), Val(u[..p]), BPow(p), Val(u[p..j + |v|]), d, low, Val(v), q, r);
    SmallTop(q, d, low, p);
  }

  lemma TopDigit(q: nat, p: nat)
    requires q < BPow(p + 1)
    ensures q == (q / BPow(p)) * BPow(p) + q % BPow(p) && q / BPow(p) < B && q % BPow(p) < BPow(p)
  {
    DivMod(q, BPow(p));
    MulCancelLt(q / BPow(p), B, BPow(p));
  }

  lemma BelowPower(u: seq<Limb>, v: seq<Limb>, j: nat, q: nat, r: nat)
    requires Divides(Val(u), Val(v), q, r) && q < BPow(j)
    ensures Val(u) < BPow(j + |v|)
  {
    hide Val, BPow;
    ValBound(v);
    BPowAdd(j, |v|);
    MulLe(q + 1, BPow(j), Val(v));
    assert (q + 1) * Val(v) == q * Val(v) + Val(v);
    MulLe(Val(v), BPow(|v|), BPow(j));
  }
}
