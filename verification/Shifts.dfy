/** Shifting limb arrays by less than a limb, for the normalisation step of Algorithm D. */
module Shifts {
  import opened Arith
  import opened Limbs
  import Knuth

  /** `__builtin_clzll`: how far the limb must be shifted for its high bit to be set. */
  function Clz(x: Limb): (k: nat)
    requires x > 0
    ensures k <= 63 && Knuth.HALF <= x * Pow2(k) < B
    decreases B - x
  {
    if x >= Knuth.HALF then 0 else
    var k := Clz(2 * x);
    ClzStep(x, k);
    k + 1
  }

  lemma ClzStep(x: Limb, k: nat)
    requires 0 < x < Knuth.HALF && Knuth.HALF <= (2 * x) * Pow2(k) < B
    ensures Knuth.HALF <= x * Pow2(k + 1) < B && k < 63
  {
    assert (2 * x) * Pow2(k) == x * Pow2(k + 1);
    if k >= 63 {
      Knuth.Pow64();
      Pow2Monotone(63, k);
      MulLe(1, x, 2 * Pow2(k));
    }
  }

  /** `x << k` on a limb. */
  function Up(x: nat, k: nat): Limb {
    (x * Pow2(k)) % B
  }

  /** `x >> k` on a limb. */
  function Down(x: Limb, k: nat): Limb {
    Quotient(x, Pow2(k))
  }

  function Quotient(x: Limb, d: nat): Limb
    requires d > 0
  {
    DivSmaller(x, d);
    x / d
  }

  lemma DivSmaller(x: nat, d: nat)
    requires d > 0
    ensures x / d <= x
  {
    DivMod(x, d);
    MulLe(1, d, x / d);
  }

  /** A limb and the one below it, shifted up.  The two halves share no bits, so the `|` of the
      source is a sum. */
  function ShlLimb(x: Limb, below: Limb, k: nat): Limb
    requires k <= 63
  {
    Halves(x, k);
    Halves(below, k);
    Up(x, k) + Down(below, 64 - k)
  }

  /** A limb and the one above it, shifted down. */
  function ShrLimb(x: Limb, above: Limb, k: nat): Limb
    requires k <= 63
  {
    Halves(above, 64 - k);
    Halves(x, 64 - k);
    Down(x, k) + Up(above, 64 - k)
  }

  lemma Complement(k: nat)
    requires k <= 64
    ensures Pow2(k) * Pow2(64 - k) == B
  {
    Pow2Add(k, 64 - k);
    Knuth.Pow64();
  }

  /** The two halves of a shifted limb. */
  lemma Halves(x: Limb, k: nat)
    requires k <= 64
    ensures x * Pow2(k) == Down(x, 64 - k) * B + Up(x, k)
    ensures Up(x, k) == (x % Pow2(64 - k)) * Pow2(k) <= B - Pow2(k) && Down(x, 64 - k) < Pow2(k)
    ensures x == Down(x, 64 - k) * Pow2(64 - k) + x % Pow2(64 - k)
  {
    Complement(k);
    hide Pow2;
    HalvesArith(x, Pow2(k), Pow2(64 - k));
  }

  lemma HalvesArith(x: Limb, p: nat, c: nat)
    requires p * c == B && p > 0 && c > 0
    ensures (x * p) % B == (x % c) * p <= B - p && x * p == (x / c) * B + (x * p) % B
    ensures x / c < p && x == (x / c) * c + x % c
  {
    DivMod(x, c);
    var (hi, lo) := (x / c, x % c);
    SplitProduct(hi, lo, p, c);
    MulLe(lo, c - 1, p);
    assert (c - 1) * p == B - p;
    QuotientUnique(x * p, B, hi, lo * p);
    MulCancelLt(hi, p, c);
  }

  lemma SplitProduct(hi: nat, lo: nat, p: nat, c: nat)
    ensures (hi * c + lo) * p == hi * (p * c) + lo * p
  {
  }

  function Shl(s: seq<Limb>, k: nat): (t: seq<Limb>)
    requires k <= 63
    ensures |t| == |s|
  {
    seq(|s|, i requires 0 <= i < |s| => ShlLimb(s[i], if i == 0 then 0 else s[i - 1], k))
  }

  function Shr(s: seq<Limb>, k: nat): (t: seq<Limb>)
    requires k <= 63
    ensures |t| == |s|
  {
    seq(|s|, i requires 0 <= i < |s| => ShrLimb(s[i], if i + 1 == |s| then 0 else s[i + 1], k))
  }

  /** What is shifted out of the top limb. */
  function ShlCarry(s: seq<Limb>, k: nat): Limb
    requires k <= 63
  {
    if s == [] then 0 else Down(s[|s| - 1], 64 - k)
  }

  /** Shifting up multiplies, counting what leaves at the top. */
  lemma {:induction false} ShlVal(s: seq<Limb>, k: nat, m: nat)
    requires k <= 63 && m <= |s|
    ensures Val(Shl(s, k)[..m]) + BPow(m) * ShlCarry(s[..m], k) == Val(s[..m]) * Pow2(k)
  {
    if m > 0 {
      ShlVal(s, k, m - 1);
      var (x, below) := (s[m - 1], if m == 1 then 0 else s[m - 2]);
      assert Shl(s, k)[m - 1] == ShlLimb(x, below, k);
      CarryOf(s, k, m);
      ShlLimbIs(x, below, k);
      hide Val, BPow, Up, Down, Pow2, ShlLimb, Shl, ShlCarry;
      Knuth.PrefixSnoc(s, m);
      Knuth.PrefixSnoc(Shl(s, k), m);
      BPowStep(m);
      Halves(x, k);
      ShlArith(BPow(m - 1), Val(Shl(s, k)[..m - 1]), Down(below, 64 - k), Val(s[..m - 1]), x, Pow2(k),
               Down(x, 64 - k), Up(x, k));
    }
  }

  lemma ShlLimbIs(x: Limb, below: Limb, k: nat)
    requires k <= 63
    ensures ShlLimb(x, below, k) == Up(x, k) + Down(below, 64 - k)
  {
    hide Up, Down;
  }

  lemma ShrLimbIs(x: Limb, above: Limb, k: nat)
    requires k <= 63
    ensures ShrLimb(x, above, k) == Down(x, k) + Up(above, 64 - k)
  {
    hide Up, Down;
  }

  lemma CarryOf(s: seq<Limb>, k: nat, m: nat)
    requires 1 <= m <= |s| && k <= 63
    ensures ShlCarry(s[..m], k) == Down(s[m - 1], 64 - k)
    ensures ShlCarry(s[..m - 1], k) == if m == 1 then 0 else Down(s[m - 2], 64 - k)
    ensures Down(0, 64 - k) == 0
  {
    hide Down;
    DownZero(64 - k);
  }

  lemma DownZero(k: nat)
    ensures Down(0, k) == 0 && Up(0, k) == 0
  {
  }

  lemma BPowStep(m: nat)
    requires m > 0
    ensures BPow(m) == B * BPow(m - 1)
  {
  }

  lemma ShlArith(w: nat, t: nat, c: nat, a: nat, x: nat, p: nat, hi: nat, lo: nat)
    requires t + w * c == a * p && x * p == hi * B + lo
    ensures (t + w * (lo + c)) + (B * w) * hi == (a + w * x) * p
  {
    assert (a + w * x) * p == a * p + w * (x * p);
    assert w * (hi * B + lo) == (B * w) * hi + w * lo;
    assert w * (lo + c) == w * lo + w * c;
  }

  /** Shifting down divides. */
  lemma {:induction false} ShrVal(s: seq<Limb>, k: nat, m: nat)
    requires k <= 63 && m < |s|
    ensures Val(s[m..]) == Val(Shr(s, k)[m..]) * Pow2(k) + s[m] % Pow2(k)
    decreases |s| - m
  {
    hide Up, Down, Pow2, ShrLimb, Shr, Val;
    var (t, x, above) := (Shr(s, k), s[m], if m + 1 == |s| then 0 else s[m + 1]);
    ShrAt(s, k, m);
    FrontLimb(s, m);
    FrontLimb(t, m);
    Halves(x, 64 - k);
    Halves(above, 64 - k);
    Complement(k);
    if m + 1 < |s| {
      ShrVal(s, k, m + 1);
    } else {
      ValZeros(s[m + 1..]);
      ValZeros(t[m + 1..]);
      ZeroMod(k);
    }
    ShrArith(Val(s[m + 1..]), Val(t[m + 1..]), x, above % Pow2(k), Pow2(k), Pow2(64 - k),
             Down(x, k), x % Pow2(k), Up(above, 64 - k));
  }

  lemma ShrAt(s: seq<Limb>, k: nat, m: nat)
    requires k <= 63 && m < |s|
    ensures Shr(s, k)[m] == Down(s[m], k) + Up(if m + 1 == |s| then 0 else s[m + 1], 64 - k)
  {
    ShrLimbIs(s[m], if m + 1 == |s| then 0 else s[m + 1], k);
    hide ShrLimb;
  }

  lemma ZeroMod(k: nat)
    ensures 0 % Pow2(k) == 0
  {
  }

  lemma FrontLimb(s: seq<Limb>, m: nat)
    requires m < |s|
    ensures Val(s[m..]) == s[m] + B * Val(s[m + 1..])
  {
    assert s[m..][1..] == s[m + 1..];
  }

  lemma ShrArith(a: nat, t: nat, x: nat, low: nat, p: nat, c: nat, hi: nat, lo: nat, up: nat)
    requires p * c == B && a == t * p + low && x == hi * p + lo && up == low * c
    ensures x + B * a == ((hi + up) + B * t) * p + lo
  {
    assert ((hi + up) + B * t) * p == hi * p + up * p + B * (t * p);
    assert up * p == low * (p * c);
    assert B * (t * p + low) == B * (t * p) + B * low;
  }

  /** The divisor shifted so that its high bit is set, with nothing shifted out. */
  lemma Normalised(s: seq<Limb>, k: nat)
    requires |s| > 0 && s[|s| - 1] > 0 && k == Clz(s[|s| - 1])
    ensures Val(Shl(s, k)) == Val(s) * Pow2(k) && Shl(s, k)[|s| - 1] >= Knuth.HALF
  {
    hide Clz, Val, BPow, Up, Down, Pow2, ShlLimb, Shl, ShlCarry;
    var n := |s|;
    ShlVal(s, k, n);
    assert s[..n] == s && Shl(s, k)[..n] == Shl(s, k);
    NormalisedTop(s, k);
    Dropped(BPow(n), ShlCarry(s, k));
  }

  lemma Dropped(w: nat, c: nat)
    requires c == 0
    ensures w * c == 0
  {
  }

  lemma NormalisedTop(s: seq<Limb>, k: nat)
    requires |s| > 0 && s[|s| - 1] > 0 && k == Clz(s[|s| - 1])
    ensures ShlCarry(s, k) == 0 && Shl(s, k)[|s| - 1] >= Knuth.HALF
  {
    var (n, x) := (|s|, s[|s| - 1]);
    var below := if n == 1 then 0 else s[n - 2];
    assert Shl(s, k)[n - 1] == ShlLimb(x, below, k);
    ShlLimbIs(x, below, k);
    Halves(x, k);
    NothingOut(Down(x, 64 - k), Up(x, k), x * Pow2(k));
  }

  lemma NothingOut(hi: nat, lo: nat, product: nat)
    requires product == hi * B + lo && product < B
    ensures hi == 0 && lo == product
  {
    if hi > 0 {
      MulLe(1, hi, B);
    }
  }

  /** The dividend shifted, with the extra limb that takes what is shifted out. */
  lemma Extended(s: seq<Limb>, k: nat)
    requires k <= 63
    ensures Val(Shl(s, k) + [ShlCarry(s, k)]) == Val(s) * Pow2(k)
  {
    ShlVal(s, k, |s|);
    assert s[..|s|] == s && Shl(s, k)[..|s|] == Shl(s, k);
    ValSnoc(Shl(s, k), ShlCarry(s, k));
  }

  /** Shifting a multiple back down. */
  lemma Unshifted(s: seq<Limb>, k: nat, r: nat)
    requires |s| > 0 && k <= 63 && Val(s) == r * Pow2(k)
    ensures Val(Shr(s, k)) == r
  {
    hide Val;
    ShrVal(s, k, 0);
    assert s[0..] == s && Shr(s, k)[0..] == Shr(s, k);
    DivMod(s[0], Pow2(k));
    QuotientUnique(Val(s), Pow2(k), Val(Shr(s, k)), s[0] % Pow2(k));
    QuotientUnique(Val(s), Pow2(k), r, 0);
  }

  /** The normalising loops. */
  method ShiftUp(s: seq<Limb>, k: nat, out: array<Limb>)
    requires 1 <= |s| <= out.Length && k <= 63
    modifies out
    ensures out[..|s|] == Shl(s, k) && out[|s|..] == old(out[|s|..])
  {
    hide ShlLimb, Shl, Up;
    ghost var (up, above) := (Shl(s, k), out[|s|..]);
    var i := 0;
    if k == 0 {
      ShlNothing(s);
      while i < |s|
        invariant 0 <= i <= |s| && forall l :: 0 <= l < i ==> out[l] == up[l]
        invariant out[|s|..] == above
      {
        out[i] := s[i];
        i := i + 1;
      }
    } else {
      FirstUp(s[0], k);
      ShlAt(s, k, 0);
      out[0] := Up(s[0], k);
      i := 1;
      while i < |s|
        invariant 1 <= i <= |s| && forall l :: 0 <= l < i ==> out[l] == up[l]
        invariant out[|s|..] == above
      {
        ShlAt(s, k, i);
        out[i] := ShlLimb(s[i], s[i - 1], k);
        i := i + 1;
      }
    }
  }

  lemma ShlAt(s: seq<Limb>, k: nat, i: nat)
    requires i < |s| && k <= 63
    ensures Shl(s, k)[i] == ShlLimb(s[i], if i == 0 then 0 else s[i - 1], k)
  {
    hide ShlLimb;
  }

  lemma FirstUp(x: Limb, k: nat)
    requires k <= 63
    ensures ShlLimb(x, 0, k) == Up(x, k)
  {
    ShlLimbIs(x, 0, k);
    DownZero(64 - k);
  }

  lemma UnshiftedLimb(x: Limb, y: Limb)
    ensures Up(x, 0) == x == Down(x, 0) && Down(y, 64) == 0 == Up(y, 64)
  {
    Knuth.Pow64();
    assert Pow2(0) == 1;
  }

  lemma ShlNothing(s: seq<Limb>)
    ensures Shl(s, 0) == s
  {
    forall i | 0 <= i < |s|
      ensures Shl(s, 0)[i] == s[i]
    {
      hide Up, Down;
      var below := if i == 0 then 0 else s[i - 1];
      UnshiftedLimb(s[i], below);
      ShlLimbIs(s[i], below, 0);
    }
  }

  lemma ShrNothing(s: seq<Limb>)
    ensures Shr(s, 0) == s
  {
    forall i | 0 <= i < |s|
      ensures Shr(s, 0)[i] == s[i]
    {
      hide Up, Down;
      var above := if i + 1 == |s| then 0 else s[i + 1];
      UnshiftedLimb(s[i], above);
      ShrLimbIs(s[i], above, 0);
    }
  }

  /** The un-shifting loop of the remainder. */
  method ShiftDown(u: array<Limb>, n: nat, k: nat) returns (r: array<Limb>)
    requires 1 <= n <= u.Length && 1 <= k <= 63
    ensures fresh(r) && r.Length == n && r[..] == Shr(u[..n], k)
  {
    hide ShrLimb;
    r := new Limb[n];
    ghost var s := u[..n];
    var i := 0;
    while i < n - 1
      invariant 0 <= i <= n - 1
      invariant forall l :: 0 <= l < i ==> r[l] == Shr(s, k)[l]
    {
      r[i] := ShrLimb(u[i], u[i + 1], k);
      i := i + 1;
    }
    TopDown(u[n - 1], k);
    r[n - 1] := Down(u[n - 1], k);
  }

  lemma TopDown(x: Limb, k: nat)
    requires k <= 63
    ensures ShrLimb(x, 0, k) == Down(x, k)
  {
    ShrLimbIs(x, 0, k);
    DownZero(64 - k);
  }
}
