/** `bn_divmod_impl`: division of atoms, one-limb or by Algorithm D. */
module Division {
  import opened Nouns
  import opened Arith
  import opened Limbs
  import opened Knuth
  import opened Bignum
  import opened Shifts

  /** Algorithm D on limbs: normalise, produce the digits, un-shift. */
  function DivideLimbs(la: seq<Limb>, lb: seq<Limb>): (nat, nat)
    requires 2 <= |lb| <= |la| && lb[|lb| - 1] > 0
  {
    var n := |lb|;
    var k := Clz(lb[n - 1]);
    var (q, rest) := Digits(Shl(la, k) + [ShlCarry(la, k)], Shl(lb, k), |la| - n + 1);
    (Val(q), Val(Shr(rest[..n], k)))
  }

  lemma FewerOrAsMany(a: nat, b: nat)
    requires b <= a
    ensures |ToLimbs(b)| <= |ToLimbs(a)|
  {
    if |ToLimbs(b)| > |ToLimbs(a)| {
      FewerLimbs(a, b);
    }
  }

  /** The result of `bn_divmod_impl`, as quotient and remainder. */
  function Divmod(a: nat, b: nat): (nat, nat)
    requires b > 0
  {
    if a < b then (0, a)
    else if |ToLimbs(b)| == 1 then (a / b, a % b)
    else FewerOrAsMany(a, b); DivideLimbs(ToLimbs(a), ToLimbs(b))
  }

  /** The limbs the division works on have a top limb to normalise by: `__builtin_clzll` has no
      value at 0, which only the top of a divisor that was cut can be. */
  predicate Normalisable(lb: seq<Limb>) {
    |lb| == 1 || (|lb| > 1 && lb[|lb| - 1] != 0)
  }

  /** The same on at most 64 limbs of each, as the source cuts them. */
  function CutDivmod(a: nat, b: nat): (nat, nat)
    requires var lb := Cut(ToLimbs(b)); Normalisable(lb) && (|lb| == 1 ==> lb[0] != 0)
  {
    var (la, lb) := (Cut(ToLimbs(a)), Cut(ToLimbs(b)));
    if Order(la, lb) < 0 then (0, a)
    else if |lb| == 1 then (Val(la) / lb[0], Val(la) % lb[0])
    else DivideLimbs(la, lb)
  }

  /** For operands of up to 64 limbs nothing is cut. */
  lemma CutNothing(a: nat, b: nat)
    requires 0 < b < BPow(MAX_LIMBS) && a < BPow(MAX_LIMBS)
    ensures var lb := Cut(ToLimbs(b)); Normalisable(lb) && (|lb| == 1 ==> lb[0] != 0)
    ensures CutDivmod(a, b) == Divmod(a, b)
  {
    hide BPow, Val, DivideLimbs;
    NotCut(a);
    NotCut(b);
    OneLimb(b);
    OrderIs(a, b);
  }

  lemma ZeroOrNot(b: nat)
    ensures var lb := Cut(ToLimbs(b)); |lb| == 1 && lb[0] == 0 <==> b == 0
  {
    OneLimb(b);
  }

  /** `bn_divmod_impl`, with its scratch arrays; no answer is the crash on a zero divisor. */
  method BnDivmod(a: nat, b: nat) returns (r: Option<(nat, nat)>)
    requires Normalisable(Cut(ToLimbs(b)))
    ensures b == 0 ==> r == None
    ensures b > 0 ==> (ZeroOrNot(b); r == Some(CutDivmod(a, b)))
    ensures b > 0 && a < BPow(MAX_LIMBS) && b < BPow(MAX_LIMBS) ==> r == Some(Divmod(a, b))
  {
    hide BPow, Val, DivideLimbs, ToLimbs;
    var (la, lb) := (Cut(ToLimbs(a)), Cut(ToLimbs(b)));
    ZeroOrNot(b);
    if |lb| == 1 && lb[0] == 0 {
      return None;
    }
    if a < BPow(MAX_LIMBS) && b < BPow(MAX_LIMBS) {
      CutNothing(a, b);
    }
    var c := BnCmp(a, b);
    if c < 0 {
      return Some((0, a));
    }
    if |lb| == 1 {
      var q := new Limb[MAX_LIMBS];
      var rem := Div1(la, |la|, lb[0], q);
      assert la[..|la|] == la;
      QuotientUnique(Val(la), lb[0], Val(q[..|la|]), rem);
      return Some((Val(q[..|la|]), rem));
    }
    var q, rem := AlgorithmD(la, lb);
    return Some((q, rem));
  }

  /** D1, the digits, and the un-shifted remainder, in buffers of the fixed size. */
  method AlgorithmD(la: seq<Limb>, lb: seq<Limb>) returns (quotient: nat, remainder: nat)
    requires 2 <= |lb| <= |la| <= MAX_LIMBS && lb[|lb| - 1] > 0
    ensures (quotient, remainder) == DivideLimbs(la, lb)
  {
    hide BPow, Val, Digits, Clz, Up, Down, Shl, Shr, ShlCarry;
    var n := |lb|;
    var m := |la| - n;
    var shift := Clz(lb[n - 1]);
    var v := new Limb[MAX_LIMBS];
    ShiftUp(lb, shift, v);
    var u := new Limb[MAX_LIMBS + 1];
    ShiftUp(la, shift, u);
    CarryIs(la, shift);
    u[|la|] := if shift == 0 then 0 else Down(la[|la| - 1], 64 - shift);
    var q := new Limb[MAX_LIMBS + 1];
    ghost var (dividend, tail) := (Shl(la, shift) + [ShlCarry(la, shift)], u[|la| + 1..]);
    assert u[..] == dividend + tail;
    DivmodKnuth(u, m, v, n, q);
    DigitsTail(dividend, tail, Shl(lb, shift), m + 1);
    ghost var rest := Digits(dividend, Shl(lb, shift), m + 1).1;
    assert u[..n] == rest[..n];
    quotient := Val(q[..m + 1]);
    if shift == 0 {
      ShrNothing(u[..n]);
      remainder := Val(u[..n]);
    } else {
      var r := ShiftDown(u, n, shift);
      remainder := Val(r[..]);
    }
  }

  /** Limbs above the ones a division uses stay where they are. */
  lemma {:induction false} DigitsTail(u: seq<Limb>, tail: seq<Limb>, v: seq<Limb>, j: nat)
    requires |v| >= 2 && j + |v| <= |u|
    ensures Digits(u + tail, v, j) == (Digits(u, v, j).0, Digits(u, v, j).1 + tail)
    decreases j
  {
    if j > 0 {
      hide DigitStep;
      var (p, n) := (j - 1, |v|);
      var w := DigitStep(u[p..j + n], v).1;
      TailApart(u, tail, w, p, j + n);
      DigitsTail(u[..p] + w + u[j + n..], tail, v, p);
    }
  }

  lemma TailApart(u: seq<Limb>, tail: seq<Limb>, w: seq<Limb>, i: nat, k: nat)
    requires i <= k <= |u|
    ensures (u + tail)[i..k] == u[i..k] && (u + tail)[..i] + w + (u + tail)[k..] == (u[..i] + w + u[k..]) + tail
  {
  }

  lemma OneLimb(b: nat)
    ensures |ToLimbs(b)| == 1 ==> ToLimbs(b)[0] == b
    ensures b == 0 ==> |ToLimbs(b)| == 1
  {
    Knuth.Val1(ToLimbs(b)[..1]);
  }

  lemma CarryIs(s: seq<Limb>, k: nat)
    requires |s| >= 1 && k <= 63
    ensures ShlCarry(s, k) == if k == 0 then 0 else Down(s[|s| - 1], 64 - k)
  {
    hide Up, Down;
    UnshiftedLimb(0, s[|s| - 1]);
  }

  // ----- When the division is exact -----

  /** Every base-2^64 digit is below `h`. */
  predicate DigitsBelow(q: nat, h: nat) {
    q == 0 || (q % B < h && DigitsBelow(q / B, h))
  }

  lemma {:induction false} BelowHalf(q: nat, h: nat)
    requires DigitsBelow(q, h) && h <= HALF
    ensures SmallDigits(q)
  {
    if q > 0 {
      BelowHalf(q / B, h);
    }
  }

  lemma Scale(a: nat, b: nat, p: nat)
    requires b > 0 && p > 0
    ensures Divides(a * p, b * p, a / b, (a % b) * p)
  {
    var (q, r) := (a / b, a % b);
    DivMod(a, b);
    assert (q * b + r) * p == q * (b * p) + r * p;
    MulLt(r, b, p);
  }

  /** A quotient has at most as many limbs more than one as the operands differ by. */
  lemma QuotientBelow(a: nat, b: nat, q: nat)
    requires |ToLimbs(b)| >= 2 && b <= a && q == a / b
    ensures |ToLimbs(b)| <= |ToLimbs(a)| && q < BPow(|ToLimbs(a)| - |ToLimbs(b)| + 1)
  {
    hide BPow, ToLimbs;
    FewerOrAsMany(a, b);
    LimbCount(a);
    LimbCount(b);
    var (m, n) := (|ToLimbs(a)|, |ToLimbs(b)|);
    BPowAdd(m - n + 1, n - 1);
    QuotientBound(a, b, BPow(n - 1), BPow(m - n + 1), q);
  }

  lemma QuotientBound(a: nat, b: nat, p: nat, w: nat, q: nat)
    requires 0 < p <= b && a < w * p && q == a / b
    ensures q < w
  {
    DivMod(a, b);
    MulLe(p, b, q);
    MulCancelLt(q, w, p);
  }

  /** The division is exact for every one-limb divisor, and for any other whenever no digit of
      the quotient reaches 2^63. */
  lemma DivmodExact(a: nat, b: nat)
    requires b > 0 && (b < B || SmallDigits(a / b))
    ensures Divmod(a, b) == (a / b, a % b)
  {
    hide BPow, SmallDigits, DivideLimbs, ToLimbs;
    var (q, r) := (a / b, a % b);
    if a < b {
      QuotientUnique(a, b, 0, a);
    } else if |ToLimbs(b)| > 1 {
      LimbCount(b);
      AboveOneLimb(|ToLimbs(b)| - 1);
      FewerOrAsMany(a, b);
      LimbsExact(a, b, q, r);
    }
  }

  lemma AboveOneLimb(n: nat)
    requires n >= 1
    ensures BPow(n) >= B
  {
    MulLe(1, BPow(n - 1), B);
  }

  lemma LimbsExact(a: nat, b: nat, q: nat, r: nat)
    requires 2 <= |ToLimbs(b)| <= |ToLimbs(a)| && b <= a && SmallDigits(q) && q == a / b && r == a % b
    ensures DivideLimbs(ToLimbs(a), ToLimbs(b)) == (q, r)
  {
    hide BPow, SmallDigits, Digits, Clz, Pow2, Shl, Shr, ShlCarry, Divides, Val;
    var (la, lb) := (ToLimbs(a), ToLimbs(b));
    var n := |lb|;
    var k := Clz(lb[n - 1]);
    var (u, v) := (Shl(la, k) + [ShlCarry(la, k)], Shl(lb, k));
    Normalised(lb, k);
    Extended(la, k);
    Scale(a, b, Pow2(k));
    QuotientBelow(a, b, q);
    DigitsExact(u, v, |la| - n + 1, q, r * Pow2(k));
    var rest := Digits(u, v, |la| - n + 1).1;
    LowLimbs(rest, v, q, r * Pow2(k), a * Pow2(k));
    Unshifted(rest[..n], k, r);
  }

  /** A remainder lies in the limbs of the divisor. */
  lemma LowLimbs(s: seq<Limb>, v: seq<Limb>, q: nat, r: nat, u: nat)
    requires |v| <= |s| && Divides(u, Val(v), q, r) && Val(s) == r
    ensures Val(s[..|v|]) == r
  {
    ValBound(v);
    HighLimbsZero(s, |v|);
    ValSplit(s, |v|);
  }

  // ----- 2^63 is the largest bound that works -----

  /** A limb sequence without a zero on top is what its number's limbs are. */
  lemma LimbsAre(s: seq<Limb>)
    requires |s| >= 2 && s[|s| - 1] > 0
    ensures ToLimbs(Val(s)) == s
  {
    var (a, n) := (Val(s), |s|);
    hide Val, BPow, ToLimbs;
    LimbCount(a);
    FromThere(s, n - 1);
    ValBound(s);
    MulLe(1, s[n - 1], BPow(n - 1));
    var m := |ToLimbs(a)|;
    if m < n {
      BPowMonotone(m, n - 1);
    } else if m > n {
      BPowMonotone(n, m - 1);
    }
    ValInjective(s, ToLimbs(a));
  }

  /** A divisor and a dividend whose quotient is the single digit 2^63. */
  const DIVISOR: seq<Limb> := [B - 1, 0, HALF]
  const DIVIDEND: seq<Limb> := [HALF - 2, HALF, HALF, HALF / 2]

  /** The first signed product passes -2^127 and wraps, which hides the borrow that should have
      lowered the estimate. */
  lemma WrappedStep()
    ensures DigitStep(DIVIDEND, DIVISOR).0 == HALF + 1
  {
    var (w, v, qhat) := (DIVIDEND, DIVISOR, HALF + 1);
    DivLuExact(HALF / 2, HALF, HALF);
    assert Estimate(w, v) == qhat by {
      hide DivLu;
      assert Refine(qhat, 0, HALF, 0, HALF) == qhat;
    }
    assert S128(HALF - 2 - qhat * (B - 1)) == TWO127 - 1;
    hide Estimate, SubMul;
    FirstLimb(w, v, qhat);
    NextLimb(w, v, qhat, 0, [], 0, TWO127 - 1, B - 1, HALF - 1, [B - 1]);
    NextLimb(w, v, qhat, 1, [B - 1], HALF - 1, B - 1, B - 1, 0, [B - 1, B - 1]);
    NextLimb(w, v, qhat, 2, [B - 1, B - 1], 0, -((HALF * HALF) as int), 0, -((HALF / 2) as int), [B - 1, B - 1, 0]);
    NextLimb(w, v, qhat, 3, [B - 1, B - 1, 0], -((HALF / 2) as int), 0, 0, 0, [B - 1, B - 1, 0, 0]);
  }

  lemma FirstLimb(u: seq<Limb>, v: seq<Limb>, qhat: Limb)
    ensures SubMul(u, v, qhat, 0) == ([], 0)
  {
  }

  lemma NextLimb(u: seq<Limb>, v: seq<Limb>, qhat: Limb, k: nat, out: seq<Limb>, borrow: int, t: int, lo: Limb, hi: int, next: seq<Limb>)
    requires k < |u| && SubMul(u, v, qhat, k) == (out, borrow)
    requires t == S128(u[k] - qhat * LimbAt(v, k) + borrow) == hi * B + lo && next == out + [lo]
    ensures SubMul(u, v, qhat, k + 1) == (next, hi)
  {
    QuotientUnique(t, B, hi, lo);
  }

  /** The dividend is 2^63 times the divisor and a remainder below it. */
  lemma WrappedDivision()
    ensures Divides(Val(DIVIDEND), Val(DIVISOR), HALF, HALF * B * B + (B - 2))
    ensures Val(DIVIDEND[1..]) < Val(DIVISOR)
  {
    Val3(DIVISOR);
    Val3(DIVIDEND[1..]);
    assert Val(DIVIDEND) == DIVIDEND[0] + B * Val(DIVIDEND[1..]);
  }

  /** A window below the divisor gives the digit 0 and is left as it was. */
  lemma ZeroDigit(w: seq<Limb>, v: seq<Limb>)
    requires |w| == |v| + 1 && |v| >= 2 && v[|v| - 1] >= 1 && Val(w) < Val(v)
    ensures DigitStep(w, v) == (0, w)
  {
    hide Val, DigitStep;
    DigitExact(w, v, 0, Val(w));
    ValInjective(w, DigitStep(w, v).1);
  }

  /** Algorithm D gets this quotient wrong by one. */
  lemma WrappedQuotient()
    ensures Digits(DIVIDEND + [0], DIVISOR, 2).0 == [HALF + 1, 0]
  {
    var (u, v) := (DIVIDEND + [0], DIVISOR);
    WrappedDivision();
    var top := DIVIDEND[1..];
    ValSnoc(top, 0);
    hide Val, BPow, DigitStep;
    assert u[1..5] == top + [0];
    ZeroDigit(u[1..5], v);
    assert u[..1] + u[1..5] + u[5..] == u;
    assert u[0..4] == DIVIDEND;
    WrappedStep();
    assert Digits(u, v, 1).0 == [HALF + 1];
  }

  predicate Exact(a: nat, b: nat)
    requires b > 0
  {
    Divmod(a, b) == (a / b, a % b)
  }

  predicate QuotientDigitsBelow(a: nat, b: nat, h: nat)
    requires b > 0
  {
    DigitsBelow(a / b, h)
  }

  /** Every division with all quotient digits below `h` is exact. */
  ghost predicate ExactBelow(h: nat) {
    forall a: nat, b: nat :: 0 < b && a < BPow(MAX_LIMBS) && b < BPow(MAX_LIMBS) && QuotientDigitsBelow(a, b, h) ==>
      Exact(a, b)
  }

  /** The bound 2^63 on the digits is the best there is. */
  lemma HalfIsTheBound(h: nat)
    ensures ExactBelow(h) <==> h <= HALF
  {
    if h <= HALF {
      forall a: nat, b: nat | 0 < b && QuotientDigitsBelow(a, b, h)
        ensures Exact(a, b)
      {
        BelowHalf(a / b, h);
        DivmodExact(a, b);
      }
    } else {
      WrongAbove(h);
    }
  }

  lemma WrongAbove(h: nat)
    requires h > HALF
    ensures !ExactBelow(h)
  {
    hide Val, BPow, ToLimbs, Divmod, Exact, QuotientDigitsBelow;
    var (a, b) := (Val(DIVIDEND), Val(DIVISOR));
    WrappedDivision();
    ValBound(DIVIDEND);
    ValBound(DIVISOR);
    BPowMonotone(|DIVIDEND|, MAX_LIMBS);
    BPowMonotone(|DIVISOR|, MAX_LIMBS);
    NotExact(a, b, h);
  }

  lemma NotExact(a: nat, b: nat, h: nat)
    requires h > HALF && a == Val(DIVIDEND) && b == Val(DIVISOR) && b > 0
    ensures QuotientDigitsBelow(a, b, h) && !Exact(a, b)
  {
    hide Val, ToLimbs, Divmod;
    WrappedDivision();
    QuotientUnique(a, b, HALF, HALF * B * B + (B - 2));
    assert HALF / B == 0 && HALF % B == HALF;
    assert DigitsBelow(HALF, h);
    WrongDivmod();
  }

  /** The smallest quotient digit out of reach, and an answer one too large. */
  lemma WrongDivmod()
    ensures Val(DIVISOR) > 0 && Divmod(Val(DIVIDEND), Val(DIVISOR)).0 == HALF + 1
  {
    hide Val, DivideLimbs, ToLimbs;
    LimbsAre(DIVIDEND);
    LimbsAre(DIVISOR);
    WrappedDivision();
    NotBelow(Val(DIVIDEND), Val(DIVISOR));
    WrongLimbs();
  }

  lemma NotBelow(a: nat, b: nat)
    requires Divides(a, b, HALF, HALF * B * B + (B - 2))
    ensures 0 < b <= a
  {
    MulLe(1, HALF, b);
  }

  lemma WrongLimbs()
    ensures DivideLimbs(DIVIDEND, DIVISOR).0 == HALF + 1
  {
    hide Val, DivideLimbs;
    WrappedQuotient();
    Val2([HALF + 1, 0]);
    Unnormalised(DIVIDEND, DIVISOR);
  }

  /** A divisor whose top bit is set is used as it stands. */
  lemma Unnormalised(la: seq<Limb>, lb: seq<Limb>)
    requires 2 <= |lb| <= |la| && lb[|lb| - 1] == HALF
    ensures DivideLimbs(la, lb).0 == Val(Digits(la + [0], lb, |la| - |lb| + 1).0)
  {
    ShlNothing(la);
    ShlNothing(lb);
    CarryIs(la, 0);
    assert Clz(HALF) == 0;
    hide Val, Shl, ShlCarry, Digits, Shr, Clz;
  }

  /** Normalisation does not keep the top limb of every window below the divisor's: here the
      second window reaches it, so `divlu64` is called outside its precondition. */
  lemma TopLimbReached(u: seq<Limb>, v: seq<Limb>)
    requires u == [0, 0, HALF, 0] && v == [1, HALF]
    ensures DigitStep(u[1..4], v) == (0, u[1..4]) && u[..3][2] == v[1]
  {
    Val2(v);
    assert u[1..4] == [0, HALF, 0];
    Val3(u[1..4]);
    hide Val;
    ZeroDigit(u[1..4], v);
  }
}
