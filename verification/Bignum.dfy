/** Division, multiplication and subtraction of src/bignum.c on arrays of limbs. */
module Bignum {
  import opened Arith
  import opened Limbs
  import opened Knuth

  const MAX_LIMBS: nat := 64

  /** The loop of `divlu64`. */
  method DivLuLoop(u1: Limb, u0: Limb, v: Limb) returns (q: nat, rem: Limb)
    ensures (q, rem) == DivLu(u1, u0, v)
  {
    q, rem := 0, u1;
    var k := 0;
    while k < 64
      invariant k <= 64 && (q, rem) == DivSteps(u1, u0, v, k)
    {
      hide DivOne, Pow2;
      k := k + 1;
      var (up, r) := DivOne(rem, u0 / Pow2(64 - k) % 2, v);
      if up {
        q := q + Pow2(64 - k);
      }
      rem := r;
    }
  }

  /** `div1`: one divisor limb, from the top limb of the dividend down. */
  method Div1(u: seq<Limb>, m: nat, v: Limb, q: array<Limb>) returns (rem: Limb)
    requires m <= |u| && m <= q.Length && v > 0
    modifies q
    ensures Divides(Val(u[..m]), v, Val(q[..m]), rem)
  {
    rem := 0;
    var i: nat := m;
    while i > 0
      invariant i <= m
      invariant Divides(Val(u[i..m]), v, Val(q[i..m]), rem)
    {
      i := i - 1;
      ghost var (above, high) := (q[i + 1..m], rem);
      var d, r := DivLuLoop(rem, u[i], v);
      DivLuExact(rem, u[i], v);
      q[i] := d;
      rem := r;
      assert u[i..m] == [u[i]] + u[i + 1..m] && q[i..m] == [q[i]] + above;
      Div1Arith(Val(u[i + 1..m]), v, Val(above), high, u[i], d, r);
    }
    assert u[0..m] == u[..m] && q[0..m] == q[..m];
  }

  lemma Div1Arith(u: nat, v: Limb, q: nat, high: Limb, x: Limb, d: Limb, r: Limb)
    requires Divides(u, v, q, high) && v > 0
    requires d == (high * B + x) / v && r == (high * B + x) % v
    ensures Divides(x + B * u, v, d + B * q, r)
  {
    DivMod(high * B + x, v);
    assert (d + B * q) * v == d * v + B * (q * v);
  }

  // ----- One window of Algorithm D, in place -----

  /** D3: the refinement loop. */
  method RefineLoop(est: Limb, rem: nat, v1: Limb, v2: Limb, u2: Limb) returns (qhat: Limb)
    ensures qhat == Refine(est, rem, v1, v2, u2)
  {
    var rhat: nat := rem;
    qhat := est;
    while rhat < B
      invariant Refine(est, rem, v1, v2, u2) == Refine(qhat, rhat, v1, v2, u2)
      decreases qhat
    {
      var lhs: nat := qhat as nat * v2 as nat;
      var rhs: nat := rhat * B + u2 as nat;
      if lhs <= rhs || qhat == 0 { break; }
      qhat := qhat - 1;
      rhat := rhat + v1;
    }
  }

  /** D4: subtract `qhat` times the divisor from the window at `j`. */
  method SubMulLoop(u: array<Limb>, j: nat, v: array<Limb>, n: nat, qhat: Limb) returns (borrow: int)
    requires n <= v.Length && j + n + 1 <= u.Length && u != v
    modifies u
    ensures (u[j..j + n + 1], borrow) == SubMul(old(u[j..j + n + 1]), v[..n], qhat, n + 1)
    ensures u[..j] == old(u[..j]) && u[j + n + 1..] == old(u[j + n + 1..])
  {
    hide SubMul, S128, LimbOf;
    borrow := 0;
    ghost var (before, w, vs, done) := (u[..], u[j..j + n + 1], v[..n], []);
    SubMulNothing(w, vs, qhat);
    var i := 0;
    while i <= n
      invariant 0 <= i <= n + 1 && |done| == i
      invariant (done, borrow) == SubMul(w, vs, qhat, i)
      invariant u[..] == before[..j] + done + before[j + i..]
    {
      SubMulNextLimb(w, vs, qhat, i);
      assert u[j + i] == u[..][j + i] == w[i];
      var vi := if i < n then v[i] else 0;
      assert vi == LimbAt(vs, i);
      var t := S128(u[j + i] as int - qhat as int * vi as int + borrow);
      Advanced(before, done, j, i, LimbOf(t));
      u[j + i] := LimbOf(t);
      done := done + [LimbOf(t)];
      borrow := t / B;
      i := i + 1;
    }
    Placed(u[..], before, done, j, n + 1);
  }

  lemma SubMulNothing(w: seq<Limb>, v: seq<Limb>, qhat: Limb)
    ensures SubMul(w, v, qhat, 0) == ([], 0)
  {
  }

  /** One more limb of a window done in place. */
  lemma Advanced(before: seq<Limb>, done: seq<Limb>, j: nat, i: nat, x: Limb)
    requires |done| == i && j + i < |before|
    ensures (before[..j] + done + before[j + i..])[j + i := x] == before[..j] + (done + [x]) + before[j + i + 1..]
  {
  }

  lemma Placed(after: seq<Limb>, before: seq<Limb>, done: seq<Limb>, j: nat, n: nat)
    requires |done| == n && j + n <= |before| && after == before[..j] + done + before[j + n..]
    ensures after[j..j + n] == done && after[..j] == before[..j] && after[j + n..] == before[j + n..]
  {
  }

  lemma SubMulNextLimb(w: seq<Limb>, v: seq<Limb>, qhat: Limb, i: nat)
    requires i < |w|
    ensures var (out, borrow) := SubMul(w, v, qhat, i);
            var t := S128(w[i] - qhat * LimbAt(v, i) + borrow);
            SubMul(w, v, qhat, i + 1) == (out + [LimbOf(t)], t / B)
  {
    hide S128, LimbOf;
  }

  /** D5: add the divisor back. */
  method AddBackLoop(u: array<Limb>, j: nat, v: array<Limb>, n: nat)
    requires n <= v.Length && j + n + 1 <= u.Length && u != v
    modifies u
    ensures var w := old(u[j..j + n + 1]); var (low, carry) := AddBack(w, v[..n], n);
            u[j..j + n + 1] == low + [LimbOf(w[n] + carry)]
    ensures u[..j] == old(u[..j]) && u[j + n + 1..] == old(u[j + n + 1..])
  {
    ghost var w := u[j..j + n + 1];
    assert u[j..j] == [];
    var carry: nat := 0;
    var i := 0;
    while i < n
      invariant 0 <= i <= n && carry <= 1
      invariant (u[j..j + i], carry) == AddBack(w, v[..n], i)
      invariant u[j + i..j + n + 1] == w[i..]
      invariant u[..j] == old(u[..j]) && u[j + n + 1..] == old(u[j + n + 1..])
    {
      hide LimbOf;
      assert u[j + i] == u[j + i..j + n + 1][0] == w[i];
      var s: nat := u[j + i] as nat + v[i] as nat + carry;
      ghost var done := u[j..j + i];
      u[j + i] := LimbOf(s);
      assert u[j..j + i + 1] == done + [LimbOf(s)];
      carry := s / B;
      i := i + 1;
    }
    ghost var done := u[j..j + n];
    assert u[j + n] == u[j + n..j + n + 1][0] == w[n];
    u[j + n] := LimbOf(u[j + n] as nat + carry);
    assert u[j..j + n + 1] == done + [u[j + n]];
  }

  /** D3 to D5: one digit. */
  method Window(u: array<Limb>, j: nat, v: array<Limb>, n: nat) returns (qhat: Limb)
    requires 2 <= n <= v.Length && j + n + 1 <= u.Length && u != v
    modifies u
    ensures var (d, w) := DigitStep(old(u[j..j + n + 1]), v[..n]);
            qhat == d && u[..] == old(u[..])[..j] + w + old(u[..])[j + n + 1..]
  {
    hide DivLu, Refine, SubMul, AddBack, S128, LimbOf;
    ghost var w := u[j..j + n + 1];
    assert w[n] == u[j + n] && w[n - 1] == u[j + n - 1] && w[n - 2] == u[j + n - 2];
    var est, _ := DivLuLoop(u[j + n], u[j + n - 1], v[n - 1]);
    var q0 := LimbOf(est);
    var rhat := (u[j + n] as nat * B + u[j + n - 1] as nat - q0 as nat * v[n - 1] as nat) % TWO128;
    qhat := RefineLoop(q0, rhat, v[n - 1], v[n - 2], u[j + n - 2]);
    assert qhat == Estimate(w, v[..n]);
    hide Estimate;
    var borrow := SubMulLoop(u, j, v, n, qhat);
    if borrow < 0 {
      qhat := LimbOf(qhat as int - 1);
      AddBackLoop(u, j, v, n);
    }
    assert u[..] == u[..j] + u[j..j + n + 1] + u[j + n + 1..];
    assert old(u[..])[..j] == old(u[..j]) && old(u[..])[j + n + 1..] == old(u[j + n + 1..]);
  }

  /** `divmod_knuth`: the digits from `m` down to 0. */
  method DivmodKnuth(u: array<Limb>, m: nat, v: array<Limb>, n: nat, q: array<Limb>)
    requires 2 <= n <= v.Length && m + n + 1 <= u.Length && m + 1 <= q.Length
    requires u != v && u != q && v != q
    modifies u, q
    ensures (q[..m + 1], u[..]) == Digits(old(u[..]), v[..n], m + 1)
  {
    hide DigitStep, Digits;
    ghost var (u0, d) := (u[..], v[..n]);
    ContinuedByNothing(Digits(u0, d, m + 1), q[m + 1..m + 1]);
    var j: nat := m + 1;
    while j > 0
      invariant j <= m + 1 && v[..n] == d
      invariant Digits(u0, d, m + 1) == Continued(Digits(u[..], d, j), q[j..m + 1])
    {
      j := j - 1;
      ghost var before := u[..];
      assert before[j..j + n + 1] == u[j..j + n + 1];
      var qhat := Window(u, j, v, n);
      NextDigit(before, d, j, qhat, u[..], q[j + 1..m + 1]);
      q[j] := qhat;
      assert q[j..m + 1] == [qhat] + q[j + 1..m + 1];
    }
    NoDigitsLeft(u[..], d, q[0..m + 1]);
    assert q[0..m + 1] == q[..m + 1];
  }

  ghost function Continued(r: (seq<Limb>, seq<Limb>), above: seq<Limb>): (seq<Limb>, seq<Limb>) {
    (r.0 + above, r.1)
  }

  lemma ContinuedByNothing(r: (seq<Limb>, seq<Limb>), none: seq<Limb>)
    requires none == []
    ensures Continued(r, none) == r
  {
    assert r.0 + [] == r.0;
  }

  lemma NoDigitsLeft(u: seq<Limb>, v: seq<Limb>, q: seq<Limb>)
    requires 2 <= |v| <= |u|
    ensures Continued(Digits(u, v, 0), q) == (q, u)
  {
    assert [] + q == q;
  }

  lemma NextDigit(u: seq<Limb>, v: seq<Limb>, j: nat, d: Limb, u': seq<Limb>, above: seq<Limb>)
    requires |v| >= 2 && j + 1 + |v| <= |u|
    requires var (x, w) := DigitStep(u[j..j + |v| + 1], v); d == x && u' == u[..j] + w + u[j + |v| + 1..]
    ensures Continued(Digits(u, v, j + 1), above) == Continued(Digits(u', v, j), [d] + above)
  {
    hide DigitStep;
    var (q, rest) := Digits(u', v, j);
    assert Digits(u, v, j + 1) == (q + [d], rest);
    assert (q + [d]) + above == q + ([d] + above);
  }

  // ----- bn_cmp -----

  /** `atom_limbs`: at most 64 limbs of an atom. */
  function Cut(s: seq<Limb>): (t: seq<Limb>)
    ensures |t| <= MAX_LIMBS && (|s| > 0 ==> |t| > 0)
  {
    if |s| > MAX_LIMBS then s[..MAX_LIMBS] else s
  }

  /** Cutting is reducing by 2^4096. */
  lemma CutValue(s: seq<Limb>)
    ensures Val(Cut(s)) == Val(s) % BPow(MAX_LIMBS)
  {
    hide Val, BPow;
    if |s| > MAX_LIMBS {
      ValSplit(s, MAX_LIMBS);
      QuotientUnique(Val(s), BPow(MAX_LIMBS), Val(s[MAX_LIMBS..]), Val(s[..MAX_LIMBS]));
    } else {
      ValBound(s);
      BPowMonotone(|s|, MAX_LIMBS);
      Below(Val(s), BPow(MAX_LIMBS));
    }
  }

  lemma Below(n: nat, m: nat)
    requires n < m
    ensures n % m == n
  {
  }

  /** An atom of up to 64 limbs is not cut. */
  lemma NotCut(a: nat)
    requires a < BPow(MAX_LIMBS)
    ensures Cut(ToLimbs(a)) == ToLimbs(a)
  {
    hide BPow, ToLimbs;
    ToLimbsLength(a, MAX_LIMBS);
  }

  /** The order of two limb strings: limb counts first, then values. */
  function Order(s: seq<Limb>, t: seq<Limb>): int {
    if |s| != |t| then (if |s| < |t| then -1 else 1)
    else if Val(s) < Val(t) then -1
    else if Val(s) == Val(t) then 0 else 1
  }

  /** `bn_cmp`: limb counts first, then limbs from the top. */
  method BnCmp(a: nat, b: nat) returns (c: int)
    ensures c == Order(Cut(ToLimbs(a)), Cut(ToLimbs(b)))
    ensures a < BPow(MAX_LIMBS) && b < BPow(MAX_LIMBS) ==> c == if a < b then -1 else if a == b then 0 else 1
  {
    hide ToLimbs, BPow, Val;
    var (la, lb) := (Cut(ToLimbs(a)), Cut(ToLimbs(b)));
    OrderIs(a, b);
    if |la| != |lb| {
      return if |la| < |lb| then -1 else 1;
    }
    var i: nat := |la|;
    while i > 0
      invariant i <= |la| && la[i..] == lb[i..]
    {
      i := i - 1;
      if la[i] != lb[i] {
        TopDifference(la, lb, i);
        return if la[i] < lb[i] then -1 else 1;
      }
    }
    assert la == la[0..] && lb == lb[0..];
    return 0;
  }

  lemma OrderIs(a: nat, b: nat)
    ensures a < BPow(MAX_LIMBS) && b < BPow(MAX_LIMBS) ==>
              Order(Cut(ToLimbs(a)), Cut(ToLimbs(b))) == if a < b then -1 else if a == b then 0 else 1
  {
    hide BPow, Val;
    if a < BPow(MAX_LIMBS) && b < BPow(MAX_LIMBS) {
      NotCut(a);
      NotCut(b);
      if |ToLimbs(a)| != |ToLimbs(b)| {
        MoreLimbs(a, b);
      }
    }
  }

  lemma MoreLimbs(a: nat, b: nat)
    requires |ToLimbs(a)| != |ToLimbs(b)|
    ensures a < b <==> |ToLimbs(a)| < |ToLimbs(b)|
  {
    if |ToLimbs(a)| < |ToLimbs(b)| {
      FewerLimbs(a, b);
    } else {
      FewerLimbs(b, a);
    }
  }

  /** The limb count bounds the number from both sides. */
  lemma LimbCount(a: nat)
    ensures a < BPow(|ToLimbs(a)|)
    ensures |ToLimbs(a)| > 1 ==> BPow(|ToLimbs(a)| - 1) <= a
  {
    var s := ToLimbs(a);
    ValBound(s);
    if |s| > 1 {
      var k := |s| - 1;
      assert s == s[..k] + [s[k]];
      ValSnoc(s[..k], s[k]);
      MulLe(1, s[k], BPow(k));
    }
  }

  lemma FewerLimbs(a: nat, b: nat)
    requires |ToLimbs(a)| < |ToLimbs(b)|
    ensures a < b
  {
    LimbCount(a);
    LimbCount(b);
    BPowMonotone(|ToLimbs(a)|, |ToLimbs(b)| - 1);
  }

  lemma TopDifference(s: seq<Limb>, t: seq<Limb>, i: nat)
    requires |s| == |t| && i < |s| && s[i + 1..] == t[i + 1..] && s[i] != t[i]
    ensures Val(s) < Val(t) <==> s[i] < t[i]
    ensures Val(s) != Val(t)
  {
    hide Val, BPow;
    FromThere(s, i);
    FromThere(t, i);
    var high := BPow(i + 1) * Val(s[i + 1..]);
    if s[i] < t[i] {
      TopDecides(Val(s[..i]), Val(t[..i]), BPow(i), s[i], t[i], high);
    } else {
      TopDecides(Val(t[..i]), Val(s[..i]), BPow(i), t[i], s[i], high);
    }
  }

  lemma TopDecides(a: nat, b: nat, p: nat, x: nat, y: nat, high: nat)
    requires a < p && x < y
    ensures a + p * x + high < b + p * y + high
  {
    MulLt(x, y, p);
    assert p * x == x * p && p * y == y * p;
  }

  lemma FromThere(s: seq<Limb>, i: nat)
    requires i < |s|
    ensures Val(s) == Val(s[..i]) + BPow(i) * s[i] + BPow(i + 1) * Val(s[i + 1..]) && Val(s[..i]) < BPow(i)
  {
    ValSplit(s, i + 1);
    ValBound(s[..i]);
    assert s[..i + 1] == s[..i] + [s[i]];
    ValSnoc(s[..i], s[i]);
  }
}
