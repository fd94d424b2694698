/** Exactly which windows Algorithm D gets right, with its signed 128-bit products. */
module KnuthExact {
  import opened Arith
  import opened Limbs
  import opened Knuth
  import opened Shifts
  import opened Bignum
  import opened Division

  /** The signed difference D4 forms at limb `k`, before it is cut to 128 bits. */
  function Difference(w: seq<Limb>, v: seq<Limb>, qhat: Limb, k: nat): int
    requires k < |w|
  {
    w[k] - qhat * LimbAt(v, k) + SubMul(w, v, qhat, k).1
  }

  /** The difference at limb `k` is below what a signed 128-bit integer holds. */
  predicate Wraps(w: seq<Limb>, v: seq<Limb>, qhat: Limb, k: nat)
    requires k < |w|
  {
    Difference(w, v, qhat, k) < -(TWO127 as int)
  }

  /** A limb below `k` wraps. */
  predicate WrapsBelow(w: seq<Limb>, v: seq<Limb>, qhat: Limb, k: nat)
    requires k <= |w|
  {
    exists i :: 0 <= i < k && Wraps(w, v, qhat, i)
  }

  /** What the wraps below `k` add to the window: each adds 2^128 at its limb. */
  function Excess(w: seq<Limb>, v: seq<Limb>, qhat: Limb, k: nat): (x: nat)
    requires k <= |w|
  {
    if k == 0 then 0
    else Excess(w, v, qhat, k - 1) + (if Wraps(w, v, qhat, k - 1) then BPow(k + 1) else 0)
  }

  lemma {:induction false} ExcessRange(w: seq<Limb>, v: seq<Limb>, qhat: Limb, k: nat)
    requires k <= |w|
    ensures Excess(w, v, qhat, k) <= 2 * BPow(k + 1)
    ensures Excess(w, v, qhat, k) > 0 <==> WrapsBelow(w, v, qhat, k)
  {
    if k > 0 {
      ExcessRange(w, v, qhat, k - 1);
      assert BPow(k + 1) == B * BPow(k);
    }
  }

  lemma {:induction false} BorrowRange(w: seq<Limb>, v: seq<Limb>, qhat: Limb, k: nat)
    requires k <= |w|
    ensures -(HALF as int) <= SubMul(w, v, qhat, k).1 < HALF
  {
  }

  /** Cutting a difference to 128 bits adds 2^128 when it wraps, and nothing when it does not. */
  lemma CutOnce(x: Limb, y: Limb, qhat: Limb, b: int)
    requires -(HALF as int) <= b < HALF
    ensures var t := x - qhat * y + b;
            S128(t) == (if t < -(TWO127 as int) then t + TWO128 else t)
            && S128(t) == (S128(t) / B) * B + LimbOf(S128(t))
  {
    MulLe(y, B - 1, qhat);
    MulLe(qhat, B - 1, B - 1);
    CutArith(x - qhat * y + b);
  }

  lemma CutArith(t: int)
    requires -(TWO128 as int) <= t < TWO127
    ensures S128(t) == (if t < -(TWO127 as int) then t + TWO128 else t)
    ensures S128(t) == (S128(t) / B) * B + LimbOf(S128(t))
  {
  }

  /** D4 subtracts the multiple and adds the excess. */
  lemma {:induction false} SubMulValue(w: seq<Limb>, v: seq<Limb>, qhat: Limb, k: nat)
    requires |w| == |v| + 1 && k <= |w|
    ensures var (out, borrow) := SubMul(w, v, qhat, k);
            Val(out) + BPow(k) * borrow == Val(w[..k]) - qhat * Val(Padded(v)[..k]) + Excess(w, v, qhat, k)
  {
    hide Val, BPow, SubMul, S128, Excess, Wraps, LimbOf, LimbAt, Difference;
    if k == 0 {
      SubMulNone(w, v, qhat);
    } else {
      SubMulValue(w, v, qhat, k - 1);
      BorrowRange(w, v, qhat, k - 1);
      SubMulNext(w, v, qhat, k - 1);
      hide Padded;
      var (out, borrow) := SubMul(w, v, qhat, k - 1);
      var t := S128(Difference(w, v, qhat, k - 1));
      var c := if Wraps(w, v, qhat, k - 1) then 1 else 0;
      PrefixSnoc(w, k);
      PaddedSnoc(v, k);
      ValSnoc(out, LimbOf(t));
      BPowNext(k);
      BPowNext(k - 1);
      SubMulStep(BPow(k - 1), Val(out), borrow, w[k - 1], LimbAt(v, k - 1), qhat, LimbOf(t), t / B,
                 Val(w[..k - 1]), Val(Padded(v)[..k - 1]), Excess(w, v, qhat, k - 1), c, BPow(k), BPow(k + 1));
    }
  }

  lemma SubMulNone(w: seq<Limb>, v: seq<Limb>, qhat: Limb)
    ensures SubMul(w, v, qhat, 0) == ([], 0) && Excess(w, v, qhat, 0) == 0 && BPow(0) == 1
    ensures Val([]) == Val(w[..0]) == Val(Padded(v)[..0]) == 0
  {
    assert w[..0] == [] && Padded(v)[..0] == [];
  }

  lemma PaddedSnoc(v: seq<Limb>, k: nat)
    requires 1 <= k <= |v| + 1
    ensures |Padded(v)| == |v| + 1 && Val(Padded(v)[..k]) == Val(Padded(v)[..k - 1]) + BPow(k - 1) * LimbAt(v, k - 1)
  {
    PrefixSnoc(Padded(v), k);
    hide Val, BPow;
  }

  /** One limb of D4. */
  lemma SubMulNext(w: seq<Limb>, v: seq<Limb>, qhat: Limb, k: nat)
    requires k < |w| && -(HALF as int) <= SubMul(w, v, qhat, k).1 < HALF
    ensures var t := S128(Difference(w, v, qhat, k)); var c := if Wraps(w, v, qhat, k) then 1 else 0;
            && SubMul(w, v, qhat, k + 1) == (SubMul(w, v, qhat, k).0 + [LimbOf(t)], t / B)
            && w[k] - qhat * LimbAt(v, k) + SubMul(w, v, qhat, k).1 + c * TWO128 == (t / B) * B + LimbOf(t)
            && Excess(w, v, qhat, k + 1) == Excess(w, v, qhat, k) + c * BPow(k + 2)
  {
    CutOnce(w[k], LimbAt(v, k), qhat, SubMul(w, v, qhat, k).1);
    hide S128, BPow, LimbOf, LimbAt;
  }

  lemma SubMulStep(p: int, o: int, b: int, x: int, y: int, q: int, lo: int, hi: int, a: int, s: int,
                   e: int, c: int, p1: int, p2: int)
    requires o + p * b == a - q * s + e && p1 == B * p && p2 == B * p1 && TWO128 == B * B
    requires x - q * y + b + c * TWO128 == hi * B + lo
    ensures (o + p * lo) + p1 * hi == (a + p * x) - q * (s + p * y) + (e + c * p2)
  {
    assert p * (hi * B + lo) == (B * p) * hi + p * lo;
    assert p * (x - q * y + b + c * TWO128) == p * x - p * (q * y) + p * b + c * (p * TWO128);
    assert p * (q * y) == q * (p * y);
    assert q * (s + p * y) == q * s + q * (p * y);
    assert p * (B * B) == B * (B * p);
  }

  /** The whole window: the limb above the divisor never wraps. */
  lemma WindowValue(w: seq<Limb>, v: seq<Limb>, qhat: Limb)
    requires |w| == |v| + 1 && |v| >= 2
    ensures var n := |v|; var (sub, borrow) := SubMul(w, v, qhat, n + 1);
            Val(sub) + BPow(n + 1) * borrow
              == Val(w) - qhat * Val(v) + Excess(w, v, qhat, n - 1) + (if Wraps(w, v, qhat, n - 1) then BPow(n + 1) else 0)
  {
    hide Val, BPow, SubMul, S128;
    var n := |v|;
    SubMulValue(w, v, qhat, n + 1);
    assert w[..n + 1] == w && Padded(v)[..n + 1] == Padded(v);
    ValSnoc(v, 0);
    BorrowRange(w, v, qhat, n);
    assert Excess(w, v, qhat, n + 1) == Excess(w, v, qhat, n);
  }

  /** What D4 and D5 leave when the estimate is the digit. */
  lemma EstimateRight(w: seq<Limb>, v: seq<Limb>, q: Limb, r: nat)
    requires |w| == |v| + 1 && |v| >= 2 && Divides(Val(w), Val(v), q, r)
    ensures var (d, rest) := Subtract(w, v, q); d == q && Val(rest) == r + Excess(w, v, q, |v| - 1)
  {
    hide Val, BPow, SubMul, AddBack, Excess, Wraps, WrapsBelow;
    var n := |v|;
    WindowValue(w, v, q);
    ExcessRange(w, v, q, n - 1);
    var (sub, borrow) := SubMul(w, v, q, n + 1);
    ValBound(sub);
    ValBound(v);
    BPowNext(n);
    BorrowIs(BPow(n + 1), Val(sub), borrow, r + Excess(w, v, q, n - 1), if Wraps(w, v, q, n - 1) then 1 else 0);
  }

  /** A value below the modulus and a multiple of the modulus are determined by their sum. */
  lemma BorrowIs(p: nat, sub: nat, borrow: int, x: int, c: int)
    requires sub < p && 0 <= x < p && sub + p * borrow == x + c * p
    ensures borrow == c && sub == x
  {
    if borrow < c {
      MulLt(borrow, c, p);
    } else if borrow > c {
      MulLt(c, borrow, p);
    }
  }

  /** What they leave when it is one too large. */
  lemma EstimateHigh(w: seq<Limb>, v: seq<Limb>, e: Limb, r: nat)
    requires |w| == |v| + 1 && |v| >= 2 && e >= 1 && Divides(Val(w), Val(v), e - 1, r)
    ensures var (d, rest) := Subtract(w, v, e); var x := Excess(w, v, e, |v| - 1);
            if r + x < Val(v) && !Wraps(w, v, e, |v| - 1) then d == e - 1 && Val(rest) == r + x else d == e
  {
    hide Val, BPow, SubMul, AddBack, Excess, Wraps, WrapsBelow;
    var n := |v|;
    WindowValue(w, v, e);
    ExcessRange(w, v, e, n - 1);
    var (sub, borrow) := SubMul(w, v, e, n + 1);
    ValBound(sub);
    ValBound(v);
    BPowNext(n);
    assert e * Val(v) == (e - 1) * Val(v) + Val(v);
    var c := if Wraps(w, v, e, n - 1) then 1 else 0;
    var x := r + Excess(w, v, e, n - 1) - Val(v);
    if x < 0 {
      assert sub == SubMul(w, v, e, n + 1).0;
      BorrowIs(BPow(n + 1), Val(sub), borrow, x + BPow(n + 1), c - 1);
      LimbOfLimb(e - 1);
      if c == 0 {
        AddedBack(sub, v, r + Excess(w, v, e, n - 1));
      }
    } else {
      BorrowIs(BPow(n + 1), Val(sub), borrow, x, c);
    }
  }

  /** A zero estimate wraps nothing and borrows nothing. */
  lemma {:induction false} ZeroEstimate(w: seq<Limb>, v: seq<Limb>, k: nat)
    requires k <= |w|
    ensures SubMul(w, v, 0, k).1 == 0
  {
    if k > 0 {
      ZeroEstimate(w, v, k - 1);
    }
  }

  /** One digit of Algorithm D is right, window and all, exactly when its estimate is the digit or
      one above it, no signed product below the divisor's top limb wraps, and the one at the top
      limb wraps only under an estimate that needs no correction.  This holds of every window, also
      of those whose top limb has reached the divisor's. */
  lemma DigitExactIff(w: seq<Limb>, v: seq<Limb>, q: nat, r: nat)
    requires |w| == |v| + 1 && |v| >= 2 && Divides(Val(w), Val(v), q, r)
    ensures var (e, n) := (Estimate(w, v), |v|); var (d, rest) := DigitStep(w, v);
            d == q && Val(rest) == r <==>
            q <= e <= q + 1 && !WrapsBelow(w, v, e, n - 1) && (Wraps(w, v, e, n - 1) ==> e * Val(v) <= Val(w))
  {
    hide Val, Estimate, SubMul, AddBack, Excess, Wraps, WrapsBelow;
    var e := Estimate(w, v);
    assert (q + 1) * Val(v) == q * Val(v) + Val(v);
    ExcessRange(w, v, e, |v| - 1);
    if e == q {
      EstimateRight(w, v, q, r);
    } else if e == q + 1 {
      EstimateHigh(w, v, e, r);
    } else {
      ZeroEstimate(w, v, |w|);
      LowerLimb(e);
    }
  }

  lemma LowerLimb(e: Limb)
    ensures e > 0 ==> LimbOf(e - 1) == e - 1
  {
  }

  /** Below the divisor's top limb the estimate is the digit or one above it by itself. */
  lemma BelowTopIff(w: seq<Limb>, v: seq<Limb>, q: nat, r: nat)
    requires |w| == |v| + 1 && |v| >= 2 && w[|v|] < v[|v| - 1] && Divides(Val(w), Val(v), q, r)
    ensures var (e, n) := (Estimate(w, v), |v|); var (d, rest) := DigitStep(w, v);
            d == q && Val(rest) == r <==>
            !WrapsBelow(w, v, e, n - 1) && (Wraps(w, v, e, n - 1) ==> e * Val(v) <= Val(w))
  {
    hide Val, Estimate, DigitStep, Excess, Wraps, WrapsBelow;
    assert (q + 1) * Val(v) == q * Val(v) + Val(v);
    EstimateBounds(w, v, q);
    DigitExactIff(w, v, q, r);
  }

  // ----- The whole division -----

  /** What the next step reads of a window: the digit and the limbs below the top one.  They are
      right exactly when the estimate is the digit and nothing wraps below the divisor's second limb
      from the top, or it is one above the digit and nothing wraps. */
  predicate WindowOk(w: seq<Limb>, v: seq<Limb>)
    requires |w| == |v| + 1 && |v| >= 2 && Val(v) > 0
  {
    var (e, q, n) := (Estimate(w, v), Val(w) / Val(v), |v|);
    (e == q && !WrapsBelow(w, v, e, n - 2)) || (e == q + 1 && !WrapsBelow(w, v, e, n - 1) && !Wraps(w, v, e, n - 1))
  }

  /** The step on a window gives its quotient and leaves its remainder. */
  predicate StepRight(w: seq<Limb>, v: seq<Limb>)
    requires |w| == |v| + 1 && |v| >= 2 && Val(v) > 0
  {
    var (d, rest) := DigitStep(w, v);
    d == Val(w) / Val(v) && Val(rest[..|v|]) == Val(w) % Val(v)
  }

  lemma StepIff(w: seq<Limb>, v: seq<Limb>)
    requires |w| == |v| + 1 && |v| >= 2 && Val(v) > 0
    ensures StepRight(w, v) <==> WindowOk(w, v)
  {
    hide Val, BPow, Estimate, SubMul, AddBack, Wraps, WrapsBelow;
    var (e, q, r, n) := (Estimate(w, v), Val(w) / Val(v), Val(w) % Val(v), |v|);
    DivMod(Val(w), Val(v));
    ValBound(v);
    ExcessRange(w, v, e, n - 1);
    ExcessRange(w, v, e, n - 2);
    BPowNext(n - 1);
    var (d, rest) := DigitStep(w, v);
    LowOf(rest, n);
    var x0 := Excess(w, v, e, n - 2);
    if e == q {
      EstimateRight(w, v, e, r);
      LowSum(r, x0, if Wraps(w, v, e, n - 2) then 1 else 0, BPow(n));
    } else if e == q + 1 {
      EstimateHigh(w, v, e, r);
      if d == q {
        Below(r + Excess(w, v, e, n - 1), BPow(n));
      }
    } else {
      ZeroEstimate(w, v, |w|);
      LowerLimb(e);
    }
  }

  lemma LowOf(s: seq<Limb>, n: nat)
    requires |s| == n + 1
    ensures Val(s[..n]) == Val(s) % BPow(n)
  {
    hide Val, BPow;
    ValSplit(s, n);
    QuotientUnique(Val(s), BPow(n), Val(s[n..]), Val(s[..n]));
  }

  lemma LowSum(r: nat, x: nat, c: nat, p: nat)
    requires r < p && x < p
    ensures (r + x + c * p) % p == r <==> x == 0
  {
    if r + x < p {
      QuotientUnique(r + x + c * p, p, c, r + x);
    } else {
      assert c * p + p == (c + 1) * p;
      QuotientUnique(r + x + c * p, p, c + 1, r + x - p);
    }
  }

  /** The dividend after the step at position `j - 1`. */
  function After(u: seq<Limb>, v: seq<Limb>, j: nat): (u': seq<Limb>)
    requires |v| >= 2 && 0 < j && j + |v| <= |u|
    ensures |u'| == |u|
  {
    u[..j - 1] + DigitStep(u[j - 1..j + |v|], v).1 + u[j + |v|..]
  }

  predicate WindowsOk(u: seq<Limb>, v: seq<Limb>, j: nat)
    requires |v| >= 2 && j + |v| <= |u| && Val(v) > 0
    decreases j
  {
    j == 0 || (WindowOk(u[j - 1..j + |v|], v) && WindowsOk(After(u, v, j), v, j - 1))
  }

  predicate StepsRight(u: seq<Limb>, v: seq<Limb>, j: nat)
    requires |v| >= 2 && j + |v| <= |u| && Val(v) > 0
    decreases j
  {
    j == 0 || (StepRight(u[j - 1..j + |v|], v) && StepsRight(After(u, v, j), v, j - 1))
  }

  /** All the steps of a division are right exactly when all its windows meet the condition. */
  lemma {:induction false} StepsIff(u: seq<Limb>, v: seq<Limb>, j: nat)
    requires |v| >= 2 && j + |v| <= |u| && Val(v) > 0
    ensures StepsRight(u, v, j) <==> WindowsOk(u, v, j)
    decreases j
  {
    hide Val, StepRight, WindowOk, After;
    if j > 0 {
      StepIff(u[j - 1..j + |v|], v);
      StepsIff(After(u, v, j), v, j - 1);
    }
  }

  /** And then the quotient and the remainder are exact, whatever the size of the digits. */
  lemma {:induction false} StepsExact(u: seq<Limb>, v: seq<Limb>, j: nat, q: nat, r: nat)
    requires |v| >= 2 && j + |v| <= |u| && Val(v) > 0 && StepsRight(u, v, j)
    requires Divides(Val(u[..j + |v|]), Val(v), q, r) && q < BPow(j)
    ensures var (qs, rest) := Digits(u, v, j); Val(qs) == q && Val(rest[..|v|]) == r
    decreases j
  {
    hide Val, BPow, DigitStep, Divides, StepRight, After, Digits;
    if j == 0 {
      NoSteps(u, v, q, r);
    } else {
      var d, low, e := SplitTop(u, v, j, q, r);
      StepIs(u[j - 1..j + |v|], v, d, e);
      AfterIs(u, v, j);
      StepsExact(After(u, v, j), v, j - 1, low, r);
      ValSnoc(Digits(After(u, v, j), v, j - 1).0, d);
      DigitsAfter(u, v, j);
    }
  }

  lemma NoSteps(u: seq<Limb>, v: seq<Limb>, q: nat, r: nat)
    requires |v| >= 2 && |v| <= |u| && Divides(Val(u[..|v|]), Val(v), q, r) && q < BPow(0)
    ensures var (qs, rest) := Digits(u, v, 0); Val(qs) == q && Val(rest[..|v|]) == r
  {
    assert q == 0;
  }

  lemma SplitTop(u: seq<Limb>, v: seq<Limb>, j: nat, q: nat, r: nat) returns (d: nat, low: nat, e: nat)
    requires j >= 1 && j + |v| <= |u| && Divides(Val(u[..j + |v|]), Val(v), q, r) && q < BPow(j)
    ensures d < B && low < BPow(j - 1) && q == low + BPow(j - 1) * d
    ensures Divides(Val(u[j - 1..j + |v|]), Val(v), d, e) && Divides(Val(u[..j - 1]) + BPow(j - 1) * e, Val(v), low, r)
  {
    hide Val, BPow, Divides;
    var (t, p) := (u[..j + |v|], j - 1);
    d, low := q / BPow(p), q % BPow(p);
    TopDigit(q, p);
    BelowPower(t, v, j, q, r);
    WindowIsTop(t, p, |v| + 1);
    assert t[..p] == u[..p] && t[p..p + |v| + 1] == u[p..j + |v|];
    e := SplitDivision(Val(t), Val(u[..p]), BPow(p), Val(u[p..j + |v|]), d, low, Val(v), q, r);
  }

  lemma StepIs(w: seq<Limb>, v: seq<Limb>, d: nat, e: nat)
    requires |w| == |v| + 1 && |v| >= 2 && Val(v) > 0 && StepRight(w, v) && Divides(Val(w), Val(v), d, e)
    ensures DigitStep(w, v).0 == d && Val(DigitStep(w, v).1[..|v|]) == e
  {
    hide Val, DigitStep;
    QuotientUnique(Val(w), Val(v), d, e);
  }

  lemma AfterIs(u: seq<Limb>, v: seq<Limb>, j: nat)
    requires |v| >= 2 && 0 < j && j + |v| <= |u|
    ensures var w' := DigitStep(u[j - 1..j + |v|], v).1;
            Val(After(u, v, j)[..j - 1 + |v|]) == Val(u[..j - 1]) + BPow(j - 1) * Val(w'[..|v|])
  {
    hide Val, BPow, DigitStep;
    var w' := DigitStep(u[j - 1..j + |v|], v).1;
    assert After(u, v, j)[..j - 1 + |v|] == u[..j - 1] + w'[..|v|];
    ValConcat(u[..j - 1], w'[..|v|]);
  }

  lemma DigitsAfter(u: seq<Limb>, v: seq<Limb>, j: nat)
    requires |v| >= 2 && 0 < j && j + |v| <= |u|
    ensures var (q, rest) := Digits(After(u, v, j), v, j - 1);
            Digits(u, v, j) == (q + [DigitStep(u[j - 1..j + |v|], v).0], rest)
  {
    hide DigitStep;
  }

  /** The windows of a division of atoms, after normalisation. */
  predicate DivisionOk(a: nat, b: nat)
    requires 2 <= |ToLimbs(b)| <= |ToLimbs(a)|
  {
    var (la, lb) := (ToLimbs(a), ToLimbs(b));
    var k := Clz(lb[|lb| - 1]);
    var (u, v) := (Shl(la, k) + [ShlCarry(la, k)], Shl(lb, k));
    Val(v) > 0 && WindowsOk(u, v, |la| - |lb| + 1)
  }

  /** A division is exact when its windows meet the condition, whatever the size of the quotient's
      digits. */
  lemma DivisionExact(a: nat, b: nat)
    requires 0 < b <= a && 2 <= |ToLimbs(b)| <= |ToLimbs(a)| && DivisionOk(a, b)
    ensures Divmod(a, b) == (a / b, a % b)
  {
    hide BPow, Digits, Clz, Pow2, Shl, Shr, ShlCarry, Divides, Val, WindowsOk, StepsRight, ToLimbs;
    var (la, lb, q, r) := (ToLimbs(a), ToLimbs(b), a / b, a % b);
    var n := |lb|;
    var k := Clz(lb[n - 1]);
    var (u, v) := (Shl(la, k) + [ShlCarry(la, k)], Shl(lb, k));
    Normalised(lb, k);
    Extended(la, k);
    DivMod(a, b);
    Scale(a, b, Pow2(k));
    QuotientBelow(a, b, q);
    StepsIff(u, v, |la| - n + 1);
    assert u[..|la| - n + 1 + n] == u;
    StepsExact(u, v, |la| - n + 1, q, r * Pow2(k));
    var rest := Digits(u, v, |la| - n + 1).1;
    Unshifted(rest[..n], k, r);
  }
}
