/** Multiplication and subtraction of src/bignum.c on arrays of limbs. */
module Products {
  import opened Nouns
  import opened Arith
  import opened Limbs
  import opened Knuth
  import opened Bignum

  // ----- bn_sub -----

  /** `bn_sub`, on at most 64 limbs of each; no answer is the crash on underflow.  Only where an
      operand was cut can the order be wrong, and the difference wrap. */
  method BnSub(a: nat, b: nat) returns (r: Option<nat>)
    ensures var (la, lb) := (Cut(ToLimbs(a)), Cut(ToLimbs(b)));
            r == if Order(la, lb) < 0 then None else Some((Val(la) - Val(lb)) % BPow(|la|))
    ensures a < BPow(MAX_LIMBS) && b < BPow(MAX_LIMBS) ==> r == if a < b then None else Some(a - b)
  {
    hide Val, BPow, ToLimbs;
    var c := BnCmp(a, b);
    Difference(a, b);
    if c < 0 {
      return None;
    }
    var (la, lb) := (Cut(ToLimbs(a)), Cut(ToLimbs(b)));
    var lr := new Limb[MAX_LIMBS];
    var borrow := 0;
    var i := 0;
    NothingTaken(la, lb, lr[..0]);
    while i < |la|
      invariant 0 <= i <= |la| && 0 <= borrow <= 1
      invariant Taken(la, lb, i, lr[..i], borrow)
    {
      var (x, y) := (la[i], LimbAt(lb, i));
      var diff := (x - y - borrow) % B;
      ghost var done := lr[..i];
      TakeOne(la, lb, i, done, borrow, diff);
      borrow := if x < (y + borrow) % B || (borrow == 1 && y == B - 1) then 1 else 0;
      lr[i] := diff;
      i := i + 1;
      assert lr[..i] == done + [diff];
    }
    AllTaken(la, lb, lr[..i], borrow);
    r := Some(Val(lr[..|la|]));
  }

  /** The difference of two numbers that were not cut. */
  lemma Difference(a: nat, b: nat)
    ensures var (la, lb) := (Cut(ToLimbs(a)), Cut(ToLimbs(b)));
            b <= a < BPow(MAX_LIMBS) ==> (Val(la) - Val(lb)) % BPow(|la|) == a - b
  {
    hide Val, BPow;
    if b <= a < BPow(MAX_LIMBS) {
      NotCut(a);
      NotCut(b);
      LimbCount(a);
      Below(a - b, BPow(|ToLimbs(a)|));
    }
  }

  /** The low limbs of `b`, with zeros above its own. */
  function LowVal(s: seq<Limb>, k: nat): nat {
    if k == 0 then 0 else LowVal(s, k - 1) + BPow(k - 1) * LimbAt(s, k - 1)
  }

  lemma {:induction false} LowIsPrefix(s: seq<Limb>, k: nat)
    requires k <= |s|
    ensures LowVal(s, k) == Val(s[..k])
  {
    if k > 0 {
      LowIsPrefix(s, k - 1);
      PrefixSnoc(s, k);
    } else {
      assert s[..0] == [];
    }
  }

  lemma {:induction false} LowIsAll(s: seq<Limb>, k: nat)
    requires k >= |s|
    ensures LowVal(s, k) == Val(s)
  {
    if k > |s| {
      LowIsAll(s, k - 1);
    } else {
      LowIsPrefix(s, k);
      assert s[..k] == s;
    }
  }

  /** The `i` lowest limbs of the difference, and what was borrowed for them. */
  ghost predicate Taken(la: seq<Limb>, lb: seq<Limb>, i: nat, out: seq<Limb>, borrow: int) {
    |out| == i && Val(out) == LowVal(la, i) - LowVal(lb, i) + BPow(i) * borrow
  }

  lemma NothingTaken(la: seq<Limb>, lb: seq<Limb>, none: seq<Limb>)
    requires none == []
    ensures Taken(la, lb, 0, none, 0)
  {
  }

  lemma TakeOne(la: seq<Limb>, lb: seq<Limb>, i: nat, out: seq<Limb>, borrow: int, diff: Limb)
    requires i < |la| && Taken(la, lb, i, out, borrow) && 0 <= borrow <= 1
    requires diff == (la[i] - LimbAt(lb, i) - borrow) % B
    ensures var (x, y) := (la[i], LimbAt(lb, i));
            Taken(la, lb, i + 1, out + [diff], if x < (y + borrow) % B || (borrow == 1 && y == B - 1) then 1 else 0)
  {
    var (x, y) := (la[i], LimbAt(lb, i));
    var next := if x < (y + borrow) % B || (borrow == 1 && y == B - 1) then 1 else 0;
    BorrowIs(x, y, borrow);
    ValSnoc(out, diff);
    var (p, ax, ay) := (BPow(i), LowVal(la, i), LowVal(lb, i));
    assert LowVal(la, i + 1) == ax + p * x && LowVal(lb, i + 1) == ay + p * y;
    assert BPow(i + 1) == B * p;
    hide Val, BPow, LowVal;
    TakeArith(p, x, y, borrow, next, diff);
  }

  lemma BorrowIs(x: Limb, y: Limb, borrow: int)
    requires 0 <= borrow <= 1
    ensures var next := if x < (y + borrow) % B || (borrow == 1 && y == B - 1) then 1 else 0;
            (x - y - borrow) % B == x - y - borrow + B * next
  {
  }

  lemma TakeArith(p: nat, x: int, y: int, borrow: int, next: int, diff: int)
    requires diff == x - y - borrow + B * next
    ensures p * diff == p * x - p * y - p * borrow + (B * p) * next
  {
    assert p * (B * next) == (B * p) * next;
  }

  lemma AllTaken(la: seq<Limb>, lb: seq<Limb>, out: seq<Limb>, borrow: int)
    requires |lb| <= |la| && Taken(la, lb, |la|, out, borrow)
    ensures Val(out) == (Val(la) - Val(lb)) % BPow(|la|)
  {
    hide Val, BPow, LowVal;
    LowIsAll(la, |la|);
    LowIsAll(lb, |la|);
    ValBound(out);
    Remainder(Val(la) - Val(lb), BPow(|la|), borrow, Val(out));
  }

  lemma Remainder(x: int, p: nat, borrow: int, out: nat)
    requires out < p && out == x + p * borrow
    ensures x % p == out
  {
    assert (-borrow) * p == -(p * borrow);
    QuotientUnique(x, p, -borrow, out);
  }

  // ----- bn_mul -----

  /** `bn_mul`: the schoolbook product of at most 64 limbs of each, row by row, in a buffer of twice
      the limb limit. */
  method BnMul(a: nat, b: nat) returns (r: nat)
    ensures r == (a % BPow(MAX_LIMBS)) * (b % BPow(MAX_LIMBS))
    ensures a < BPow(MAX_LIMBS) && b < BPow(MAX_LIMBS) ==> r == a * b
  {
    hide Val, BPow, ToLimbs;
    var (la, lb) := (Cut(ToLimbs(a)), Cut(ToLimbs(b)));
    CutValue(ToLimbs(a));
    CutValue(ToLimbs(b));
    Uncut(a);
    Uncut(b);
    if (|la| == 1 && la[0] == 0) || (|lb| == 1 && lb[0] == 0) {
      ZeroProduct(la, lb);
      return 0;
    }
    var sr := |la| + |lb|;
    var result := new Limb[2 * MAX_LIMBS](_ => 0);
    var i := 0;
    NoRows(la, lb, result[..|lb|]);
    while i < |la|
      invariant 0 <= i <= |la| && sr == |la| + |lb| && result.Length == 2 * MAX_LIMBS
      invariant Val(result[..i + |lb|]) == Val(la[..i]) * Val(lb)
      invariant forall k :: i + |lb| <= k < sr ==> result[k] == 0
    {
      Row(result, la[i], lb, i, sr);
      RowAdded(la, lb, i);
      i := i + 1;
    }
    assert la[..|la|] == la;
    r := Val(result[..sr]);
  }

  lemma Uncut(a: nat)
    ensures a < BPow(MAX_LIMBS) ==> a % BPow(MAX_LIMBS) == a
  {
    hide BPow;
    if a < BPow(MAX_LIMBS) {
      Below(a, BPow(MAX_LIMBS));
    }
  }

  lemma ZeroProduct(la: seq<Limb>, lb: seq<Limb>)
    requires (|la| == 1 && la[0] == 0) || (|lb| == 1 && lb[0] == 0)
    ensures Val(la) * Val(lb) == 0
  {
    if |la| == 1 && la[0] == 0 {
      Val1(la);
    } else {
      Val1(lb);
    }
    hide Val;
  }

  lemma NoRows(la: seq<Limb>, lb: seq<Limb>, zeros: seq<Limb>)
    requires forall k :: 0 <= k < |zeros| ==> zeros[k] == 0
    ensures Val(zeros) == Val(la[..0]) * Val(lb)
  {
    ValZeros(zeros);
    assert la[..0] == [];
  }

  lemma RowAdded(la: seq<Limb>, lb: seq<Limb>, i: nat)
    requires i < |la|
    ensures Val(la[..i + 1]) * Val(lb) == Val(la[..i]) * Val(lb) + BPow(i) * (la[i] * Val(lb))
  {
    hide Val, BPow;
    PrefixSnoc(la, i + 1);
    var (x, y, p, v) := (Val(la[..i]), la[i] as nat, BPow(i), Val(lb));
    assert (x + p * y) * v == x * v + (p * y) * v;
    assert (p * y) * v == p * (y * v);
  }

  /** One row: `x` times `lb` is added at limb `i`, and the carry goes up as far as it must. */
  method Row(result: array<Limb>, x: Limb, lb: seq<Limb>, i: nat, sr: nat)
    requires i + |lb| < sr <= result.Length
    requires forall k :: i + |lb| <= k < sr ==> result[k] == 0
    modifies result
    ensures Val(result[..i + |lb| + 1]) == old(Val(result[..i + |lb|])) + BPow(i) * (x * Val(lb))
    ensures forall k :: i + |lb| < k < sr ==> result[k] == 0
  {
    hide Val, BPow, Added;
    ghost var before := result[..];
    var carry: Limb := 0;
    var j := 0;
    NothingAdded(before, x, lb, i);
    while j < |lb|
      invariant 0 <= j <= |lb| && Added(before, x, lb, i, j, result[..i + j], carry)
      invariant result[i + j..] == before[i + j..]
    {
      assert result[i + j] == result[i + j..][0] == before[i + j];
      ProductFits(x, lb[j], result[i + j], carry);
      var prod: nat := x as nat * lb[j] as nat + result[i + j] as nat + carry as nat;
      ghost var done := result[..i + j];
      AddOne(before, x, lb, i, j, done, carry, prod);
      result[i + j] := prod % B;
      assert result[..i + j + 1] == done + [prod % B];
      carry := prod / B;
      j := j + 1;
    }
    var k := i + |lb|;
    ghost var (row, last) := (result[..k], carry);
    assert result[k..] == before[k..];
    assert forall n :: k <= n < sr ==> result[n] == result[k..][n - k] == before[k..][n - k] == 0;
    while carry != 0
      invariant carry != 0 ==> k == i + |lb| && carry == last && result[k] == 0
      invariant carry == 0 ==> result[i + |lb|] == last
      invariant result[..i + |lb|] == row && forall n :: i + |lb| < n < sr ==> result[n] == 0
      decreases carry
    {
      var sum: nat := result[k] as nat + carry as nat;
      result[k] := sum % B;
      carry := sum / B;
      k := k + 1;
    }
    RowDone(before, x, lb, i, row, last);
    assert result[..i + |lb| + 1] == row + [last];
  }

  lemma ProductFits(x: Limb, y: Limb, r: Limb, carry: Limb)
    ensures (x * y + r + carry) / B < B
  {
    ProductBelow(x, y);
    QuotientBelow(x * y + r + carry);
  }

  lemma ProductBelow(x: nat, y: nat)
    requires x <= B - 1 && y <= B - 1
    ensures x * y <= B * B - 2 * B + 1
  {
    MulLe(x, B - 1, y);
  }

  lemma QuotientBelow(n: nat)
    requires n < B * B
    ensures n / B < B
  {
  }

  /** After `j` limbs of a row. */
  ghost predicate Added(before: seq<Limb>, x: Limb, lb: seq<Limb>, i: nat, j: nat, out: seq<Limb>, carry: Limb)
    requires j <= |lb| && i + j <= |before|
  {
    |out| == i + j && Val(out) + BPow(i + j) * carry == Val(before[..i + j]) + BPow(i) * (x * Val(lb[..j]))
  }

  lemma NothingAdded(before: seq<Limb>, x: Limb, lb: seq<Limb>, i: nat)
    requires i <= |before|
    ensures Added(before, x, lb, i, 0, before[..i], 0)
  {
    assert lb[..0] == [];
  }

  lemma AddOne(before: seq<Limb>, x: Limb, lb: seq<Limb>, i: nat, j: nat, out: seq<Limb>, carry: Limb, prod: nat)
    requires j < |lb| && i + j < |before| && Added(before, x, lb, i, j, out, carry)
    requires prod == x * lb[j] + before[i + j] + carry && prod / B < B
    ensures Added(before, x, lb, i, j + 1, out + [prod % B], prod / B)
  {
    hide Val;
    ValSnoc(out, prod % B);
    PrefixSnoc(before, i + j + 1);
    PrefixSnoc(lb, j + 1);
    BPowAdd(i, j);
    BPowNext(i + j);
    hide BPow;
    AddArith(BPow(i), BPow(j), BPow(i + j), x, lb[j], before[i + j], carry, prod, Val(lb[..j]));
  }

  lemma AddArith(p: nat, q: nat, pq: nat, x: nat, y: nat, r: nat, carry: nat, prod: nat, v: nat)
    requires pq == p * q && prod == x * y + r + carry
    ensures pq * (prod % B) + (B * pq) * (prod / B) == pq * r + pq * carry + p * (x * (v + q * y)) - p * (x * v)
  {
    DivMod(prod, B);
    assert pq * (prod % B) + (B * pq) * (prod / B) == pq * prod by {
      assert (B * pq) * (prod / B) == pq * ((prod / B) * B);
    }
    assert pq * prod == pq * (x * y) + pq * r + pq * carry;
    assert x * (v + q * y) == x * v + q * (x * y);
    assert p * (x * v + q * (x * y)) == p * (x * v) + (p * q) * (x * y);
  }

  lemma RowDone(before: seq<Limb>, x: Limb, lb: seq<Limb>, i: nat, row: seq<Limb>, last: Limb)
    requires i + |lb| <= |before| && Added(before, x, lb, i, |lb|, row, last)
    ensures Val(row + [last]) == Val(before[..i + |lb|]) + BPow(i) * (x * Val(lb))
  {
    ValSnoc(row, last);
    assert lb[..|lb|] == lb;
  }
}
