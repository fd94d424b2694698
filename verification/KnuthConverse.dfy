/** An exact division of which two steps are not right: they make up for each other. */
module KnuthConverse {
  import opened Arith
  import opened Limbs
  import opened Knuth
  import opened Shifts
  import opened Division
  import opened KnuthExact

  const QUARTER: nat := 0x4000_0000_0000_0000

  /** The dividend is 2^128 - 1 times the divisor. */
  const V: seq<Limb> := [QUARTER + 1, HALF + 1, 0, B - 1]
  const U: seq<Limb> := [3 * QUARTER - 1, HALF - 2, QUARTER, HALF + 2, B - 1, B - 2]

  /** What the first digit leaves: B^3 more than its remainder. */
  const LEFT: seq<Limb> := [3 * QUARTER - 1, HALF, 1, B - 1, 0]

  lemma FirstEstimated()
    ensures Estimate(U[1..], V) == B - 1
  {
    DivLuExact(B - 2, B - 1, B - 1);
    QuotientUnique((B - 2) * B + (B - 1), B - 1, B - 1, B - 2);
    hide DivLu;
    assert Refine(B - 1, B - 2, B - 1, 0, HALF + 2) == B - 1;
  }

  /** Two signed products wrap here. */
  lemma FirstStep()
    ensures DigitStep(U[1..], V) == (B - 1, LEFT)
  {
    var (w, q) := (U[1..], B - 1);
    FirstEstimated();
    hide Estimate, SubMul;
    FirstLimb(w, V, q);
    var a := -((QUARTER + 1) as int);
    NextLimb(w, V, q, 0, [], 0, a * B + (3 * QUARTER - 1), 3 * QUARTER - 1, a, LEFT[..1]);
    NextLimb(w, V, q, 1, LEFT[..1], a, (HALF - 1) * B + HALF, HALF, HALF - 1, LEFT[..2]);
    NextLimb(w, V, q, 2, LEFT[..2], HALF - 1, B + 1, 1, 1, LEFT[..3]);
    NextLimb(w, V, q, 3, LEFT[..3], 1, 2 * B + (B - 1), B - 1, 2, LEFT[..4]);
    NextLimb(w, V, q, 4, LEFT[..4], 2, B, 0, 1, LEFT);
  }

  /** Called with a top limb equal to the divisor, the registers of `divlu64` stay full. */
  lemma {:induction false} Saturated(k: nat)
    requires k <= 63
    ensures Pow2(64 - k) <= B && DivSteps(B - 1, 1, B - 1, k) == (B - Pow2(64 - k), B - 1)
  {
    if k == 0 {
      Pow64();
    } else {
      Saturated(k - 1);
      Pow2Add(1, 63 - k);
      Pow2Add(1, 64 - k);
      assert Pow2(1) == 2 by { assert Pow2(0) == 1; }
      SaturatedStep(k, Pow2(64 - k));
    }
  }

  lemma SaturatedStep(k: nat, p: nat)
    requires 1 <= k <= 63 && p == Pow2(64 - k) && 2 <= p && 2 * p <= B
    requires DivSteps(B - 1, 1, B - 1, k - 1) == (B - 2 * p, B - 1)
    ensures DivSteps(B - 1, 1, B - 1, k) == (B - p, B - 1)
  {
    hide Pow2;
    QuotientUnique(1, p, 0, 1);
    assert DivOne(B - 1, 0, B - 1) == (true, B - 1);
    hide DivOne;
  }

  lemma SecondEstimated()
    ensures Estimate(U[..1] + LEFT[..4], V) == B - 1
  {
    Saturated(63);
    assert Pow2(0) == 1 && Pow2(1) == 2;
    hide Pow2;
    assert DivLu(B - 1, 1, B - 1) == (B - 1, 0);
    hide DivLu;
    assert Refine(B - 1, B, B - 1, 0, HALF) == B - 1;
  }

  /** Here one wraps, which takes the surplus away again. */
  lemma SecondStep()
    ensures DigitStep(U[..1] + LEFT[..4], V) == (B - 1, [0, 0, 0, 0, 1])
  {
    var (w, q) := (U[..1] + LEFT[..4], B - 1);
    SecondEstimated();
    hide Estimate, SubMul;
    FirstLimb(w, V, q);
    NextLimb(w, V, q, 0, [], 0, -((QUARTER * B) as int), 0, -(QUARTER as int), [0]);
    NextLimb(w, V, q, 1, [0], -(QUARTER as int), -((HALF * B) as int), 0, -(HALF as int), [0, 0]);
    NextLimb(w, V, q, 2, [0, 0], -(HALF as int), 0, 0, 0, [0, 0, 0]);
    NextLimb(w, V, q, 3, [0, 0, 0], 0, 2 * B, 0, 2, [0, 0, 0, 0]);
    NextLimb(w, V, q, 4, [0, 0, 0, 0], 2, B + 1, 1, 1, [0, 0, 0, 0, 1]);
  }

  // ----- The whole division -----

  lemma Val4(s: seq<Limb>)
    requires |s| == 4
    ensures Val(s) == ((s[3] * B + s[2]) * B + s[1]) * B + s[0]
  {
    Val3(s[1..]);
  }

  lemma ValU()
    ensures Val(U) == Val(U[2..]) * (B * B) + (HALF - 2) * B + (3 * QUARTER - 1)
  {
    assert U[1..][1..] == U[2..];
    assert Val(U) == U[0] + B * Val(U[1..]);
    assert Val(U[1..]) == U[1] + B * Val(U[2..]);
  }

  lemma Values()
    ensures Val(V) > 0 && Divides(Val(U), Val(V), B * B - 1, 0)
    ensures Val(U[2..]) < Val(V) <= Val(LEFT[..4])
  {
    ValU();
    Val4(V);
    Val4(U[2..]);
    Val4(LEFT[..4]);
    hide Val;
  }

  lemma FirstIsWrong()
    ensures !StepRight(U[1..], V)
  {
    Values();
    FirstStep();
    hide Val, DigitStep;
  }

  lemma OneStep(u: seq<Limb>, v: seq<Limb>, j: nat, d: Limb, w: seq<Limb>, next: seq<Limb>, q: seq<Limb>, rest: seq<Limb>)
    requires |v| >= 2 && 0 < j && j + |v| <= |u| && |next| == |u|
    requires DigitStep(u[j - 1..j + |v|], v) == (d, w) && next == u[..j - 1] + w + u[j + |v|..]
    requires Digits(next, v, j - 1) == (q, rest)
    ensures After(u, v, j) == next && Digits(u, v, j) == (q + [d], rest)
  {
    hide DigitStep;
  }

  const LAST: seq<Limb> := [0, 0, 0, 0, 1, 0, 0]

  lemma NoDigits(u: seq<Limb>, v: seq<Limb>)
    requires |v| >= 2 && |v| <= |u|
    ensures Digits(u, v, 0) == ([], u)
  {
  }

  lemma LastStep()
    ensures Digits(U[..1] + LEFT + [0], V, 1) == ([B - 1], LAST)
  {
    hide DigitStep, Digits;
    var u := U[..1] + LEFT + [0];
    SecondStep();
    assert u[0..5] == U[..1] + LEFT[..4];
    assert u[..0] + [0, 0, 0, 0, 1] + u[5..] == LAST;
    NoDigits(LAST, V);
    OneStep(u, V, 1, B - 1, [0, 0, 0, 0, 1], LAST, [], LAST);
    assert [] + [B - 1] == [B - 1];
  }

  lemma MiddleStep()
    ensures Digits(U + [0], V, 2) == ([B - 1, B - 1], LAST)
  {
    hide DigitStep, Digits;
    var u := U + [0];
    FirstStep();
    LastStep();
    assert u[1..6] == U[1..];
    assert u[..1] + LEFT + u[6..] == U[..1] + LEFT + [0];
    OneStep(u, V, 2, B - 1, LEFT, U[..1] + LEFT + [0], [B - 1], LAST);
    assert [B - 1] + [B - 1] == [B - 1, B - 1];
  }

  /** The three steps: the topmost digit is 0, the next step leaves too much, and the last one takes
      the surplus away. */
  lemma TopStep()
    ensures After(U + [0], V, 3) == U + [0]
    ensures Digits(U + [0], V, 3) == ([B - 1, B - 1, 0], LAST)
  {
    hide DigitStep, Digits, Val, BPow;
    var u := U + [0];
    Values();
    ValSnoc(U[2..], 0);
    MiddleStep();
    assert u[2..7] == U[2..] + [0];
    ZeroDigit(u[2..7], V);
    assert u[..2] + u[2..7] + u[7..] == u;
    OneStep(u, V, 3, 0, u[2..7], u, [B - 1, B - 1], LAST);
    assert [B - 1, B - 1] + [0] == [B - 1, B - 1, 0];
  }

  lemma NotAllRight(u: seq<Limb>, v: seq<Limb>, j: nat)
    requires |v| >= 2 && j >= 2 && j + |v| <= |u| && Val(v) > 0
    requires After(u, v, j) == u && !StepRight(u[j - 2..j - 1 + |v|], v)
    ensures !StepsRight(u, v, j)
  {
    hide Val, StepRight, After;
  }

  lemma Steps()
    ensures Val(V) > 0 && !StepsRight(U + [0], V, 3)
  {
    hide Val, StepRight, After, StepsRight;
    var u := U + [0];
    Values();
    TopStep();
    FirstIsWrong();
    assert u[1..6] == U[1..];
    NotAllRight(u, V, 3);
  }

  /** Right steps are enough for an exact division, not needed: this one is exact, and its windows do
      not meet the condition. */
  lemma ExactWithWrongSteps() returns (a: nat, b: nat)
    ensures 0 < b <= a && 2 <= |ToLimbs(b)| <= |ToLimbs(a)|
    ensures ToLimbs(a) == U && ToLimbs(b) == V
    ensures Divmod(a, b) == (a / b, a % b) && !DivisionOk(a, b)
  {
    a, b := Val(U), Val(V);
    Values();
    hide Val, DivideLimbs, ToLimbs, DivisionOk, StepsRight, Digits;
    LimbsAre(U);
    LimbsAre(V);
    Steps();
    Shiftless(a, b, U, V);
    Quotient(a, b);
  }

  lemma Quotient(a: nat, b: nat)
    requires Divides(a, b, B * B - 1, 0)
    ensures 0 < b <= a && a / b == B * B - 1 && a % b == 0
  {
    QuotientUnique(a, b, B * B - 1, 0);
    MulLe(1, B * B - 1, b);
  }

  /** The top bit of the divisor is set, so nothing is shifted. */
  lemma Shiftless(a: nat, b: nat, la: seq<Limb>, lb: seq<Limb>)
    requires ToLimbs(a) == la == U && ToLimbs(b) == lb == V && Val(lb) > 0
    ensures DivideLimbs(la, lb) == (B * B - 1, 0) && !DivisionOk(a, b)
  {
    hide Val, Shl, ShlCarry, Digits, Shr, WindowsOk, StepsRight, ToLimbs;
    ShlNothing(la);
    ShlNothing(lb);
    CarryIs(la, 0);
    assert Clz(lb[3]) == 0;
    hide Clz;
    Steps();
    TopStep();
    StepsIff(la + [0], lb, 3);
    assert LAST[..4] == [0, 0, 0, 0];
    LastIs(LAST[..4], [B - 1, B - 1, 0]);
  }

  lemma LastIs(z: seq<Limb>, q: seq<Limb>)
    requires z == [0, 0, 0, 0] && q == [B - 1, B - 1, 0]
    ensures Shr(z, 0) == z && Val(z) == 0 && Val(q) == B * B - 1
  {
    hide Shr;
    ShrNothing(z);
    Val3(q);
    Val4(z);
    hide Val;
  }
}
