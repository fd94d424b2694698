/** Little-endian limb sequences in base 2^64, and the number they stand for. */
module Limbs {
  import opened Arith

  const B: nat := 0x1_0000_0000_0000_0000

  type Limb = x: nat | x < B

  function BPow(n: nat): (p: nat)
    ensures p >= 1
  {
    if n == 0 then 1 else B * BPow(n - 1)
  }

  function Val(s: seq<Limb>): nat {
    if s == [] then 0 else s[0] + B * Val(s[1..])
  }

  lemma {:induction false} BPowAdd(m: nat, n: nat)
    ensures BPow(m + n) == BPow(m) * BPow(n)
  {
    if m > 0 {
      BPowAdd(m - 1, n);
      assert B * (BPow(m - 1) * BPow(n)) == (B * BPow(m - 1)) * BPow(n);
    }
  }

  lemma {:induction false} BPowMonotone(m: nat, n: nat)
    requires m <= n
    ensures BPow(m) <= BPow(n)
  {
    if m < n {
      BPowMonotone(m, n - 1);
    }
  }

  lemma {:induction false} ValConcat(s: seq<Limb>, t: seq<Limb>)
    ensures Val(s + t) == Val(s) + BPow(|s|) * Val(t)
  {
    if s == [] {
      assert s + t == t;
    } else {
      assert (s + t)[0] == s[0] && (s + t)[1..] == s[1..] + t;
      ValConcat(s[1..], t);
      assert B * (BPow(|s| - 1) * Val(t)) == BPow(|s|) * Val(t);
    }
  }

  lemma ValSnoc(s: seq<Limb>, x: Limb)
    ensures Val(s + [x]) == Val(s) + BPow(|s|) * x
  {
    assert [x][1..] == [];
    assert Val([x]) == x;
    ValConcat(s, [x]);
  }

  lemma {:induction false} ValBound(s: seq<Limb>)
    ensures Val(s) < BPow(|s|)
  {
    if s != [] {
      ValBound(s[1..]);
    }
  }

  /** The number splits at any limb into a low part and a high part. */
  lemma ValSplit(s: seq<Limb>, k: nat)
    requires k <= |s|
    ensures Val(s) == Val(s[..k]) + BPow(k) * Val(s[k..])
    ensures Val(s[..k]) < BPow(k)
  {
    assert s == s[..k] + s[k..];
    ValConcat(s[..k], s[k..]);
    ValBound(s[..k]);
  }

  lemma {:induction false} ValZeros(s: seq<Limb>)
    requires forall i :: 0 <= i < |s| ==> s[i] == 0
    ensures Val(s) == 0
  {
    if s != [] {
      ValZeros(s[1..]);
    }
  }

  /** Limb sequences of one length are determined by their value. */
  lemma {:induction false} ValInjective(s: seq<Limb>, t: seq<Limb>)
    requires |s| == |t| && Val(s) == Val(t)
    ensures s == t
  {
    if s != [] {
      QuotientUnique(Val(s), B, Val(s[1..]), s[0]);
      QuotientUnique(Val(t), B, Val(t[1..]), t[0]);
      ValInjective(s[1..], t[1..]);
      assert s == [s[0]] + s[1..] && t == [t[0]] + t[1..];
    }
  }

  /** The limbs of a number, as `atom_limbs` delivers them: at least one, and no zero on top. */
  function ToLimbs(n: nat): (s: seq<Limb>)
    ensures |s| >= 1 && Val(s) == n && (|s| > 1 ==> s[|s| - 1] != 0)
  {
    if n < B then
      assert [n][1..] == [];
      [n]
    else
      var rest := ToLimbs(n / B);
      assert ([n % B] + rest)[1..] == rest;
      DivMod(n, B);
      [n % B] + rest
  }

  lemma {:induction false} ToLimbsLength(n: nat, k: nat)
    requires k >= 1 && n < BPow(k)
    ensures |ToLimbs(n)| <= k
  {
    if n >= B {
      assert k > 1 by { assert BPow(1) == B * BPow(0); }
      DivMod(n, B);
      ToLimbsLength(n / B, k - 1);
    }
  }
}
