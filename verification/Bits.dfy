/** Bit strings, least significant bit first, and the self-delimiting integers of the noun
    serialisation. */
module Bits {
  import opened Nouns
  import opened Arith

  function FromBits(s: seq<bool>): nat {
    if s == [] then 0 else (if s[0] then 1 else 0) + 2 * FromBits(s[1..])
  }

  /** `atom_bit_at`: bits past the top read as zero. */
  predicate BitAt(a: nat, i: nat) {
    a / Pow2(i) % 2 == 1
  }

  /** The low `n` bits of a number. */
  function LowBits(k: nat, n: nat): (s: seq<bool>)
    ensures |s| == n
  {
    if n == 0 then [] else [k % 2 == 1] + LowBits(k / 2, n - 1)
  }

  /** The `n` bits of `a` from `cur` up, as a number. */
  function ReadBits(a: nat, cur: nat, n: nat): nat
    decreases n
  {
    if n == 0 then 0 else (if BitAt(a, cur) then 1 else 0) + 2 * ReadBits(a, cur + 1, n - 1)
  }

  /** Bit length. */
  function Met(k: nat): nat {
    if k == 0 then 0 else 1 + Met(k / 2)
  }

  // ----- Bits and numbers -----

  lemma {:induction false} BitOf(s: seq<bool>, i: nat)
    ensures BitAt(FromBits(s), i) == (i < |s| && s[i])
    decreases i
  {
    var x := FromBits(s);
    if s == [] {
      ZeroBit(i);
    } else if i == 0 {
      assert Pow2(0) == 1;
    } else {
      BitOf(s[1..], i - 1);
      ShiftStep(x, i - 1);
      assert x / 2 == FromBits(s[1..]);
    }
  }

  lemma ZeroBit(i: nat)
    ensures !BitAt(0, i)
  {
    QuotientUnique(0, Pow2(i), 0, 0);
  }

  lemma {:induction false} MetBounds(k: nat)
    ensures k < Pow2(Met(k)) && (k > 0 ==> Met(k) > 0 && Pow2(Met(k) - 1) <= k)
  {
    if k > 0 {
      MetBounds(k / 2);
    }
  }

  /** The low bits of a number below a power are the number. */
  lemma {:induction false} LowBitsValue(k: nat, n: nat)
    requires k < Pow2(n)
    ensures FromBits(LowBits(k, n)) == k
  {
    if n > 0 {
      LowBitsValue(k / 2, n - 1);
      assert LowBits(k, n)[1..] == LowBits(k / 2, n - 1);
    }
  }

  /** The low bits of a number with a top bit below position `n` are those of what is left. */
  lemma {:induction false} LowBitsDropTop(x: nat, n: nat)
    ensures LowBits(x + Pow2(n), n) == LowBits(x, n)
  {
    if n > 0 {
      HalfSum(x, Pow2(n - 1));
      LowBitsDropTop(x / 2, n - 1);
    }
  }

  lemma HalfSum(x: nat, p: nat)
    ensures (x + 2 * p) / 2 == x / 2 + p && (x + 2 * p) % 2 == x % 2
  {
  }

  // ----- A number that holds bits -----

  /** From `cur` on, the number's bits start with these. */
  ghost predicate Holds(a: nat, cur: nat, s: seq<bool>) {
    forall i :: 0 <= i < |s| ==> BitAt(a, cur + i) == s[i]
  }

  lemma HoldsSplit(a: nat, cur: nat, s: seq<bool>, t: seq<bool>)
    requires Holds(a, cur, s + t)
    ensures Holds(a, cur, s) && Holds(a, cur + |s|, t)
  {
    forall i | 0 <= i < |s|
      ensures BitAt(a, cur + i) == s[i]
    {
      assert (s + t)[i] == s[i];
    }
    forall i | 0 <= i < |t|
      ensures BitAt(a, cur + |s| + i) == t[i]
    {
      assert BitAt(a, cur + (|s| + i)) == (s + t)[|s| + i];
    }
  }

  lemma HoldsNext(a: nat, cur: nat, b: bool, s: seq<bool>)
    requires Holds(a, cur, [b] + s)
    ensures BitAt(a, cur) == b && Holds(a, cur + 1, s)
  {
    HoldsSplit(a, cur, [b], s);
    assert BitAt(a, cur + 0) == [b][0];
  }

  lemma HoldsAll(s: seq<bool>)
    ensures Holds(FromBits(s), 0, s)
  {
    forall i | 0 <= i < |s|
      ensures BitAt(FromBits(s), 0 + i) == s[i]
    {
      BitOf(s, i);
    }
  }

  lemma {:induction false} ReadHeld(a: nat, cur: nat, s: seq<bool>)
    requires Holds(a, cur, s)
    ensures ReadBits(a, cur, |s|) == FromBits(s)
    decreases |s|
  {
    if s != [] {
      assert s == [s[0]] + s[1..];
      HoldsNext(a, cur, s[0], s[1..]);
      ReadHeld(a, cur + 1, s[1..]);
    }
  }

  // ----- mat and rub -----

  function Falses(n: nat): (s: seq<bool>)
    ensures |s| == n
  {
    seq(n, _ => false)
  }

  /** `do_mat`: the length of the length in unary, the length without its top bit, the number. */
  function Mat(k: nat): (s: seq<bool>)
    ensures |s| >= 1
  {
    var a := Met(k);
    if a == 0 then [true] else
    var b := Met(a);
    Falses(b) + [true] + LowBits(a, b - 1) + LowBits(k, a)
  }

  /** `mat_len`. */
  function MatLen(k: nat): nat {
    var a := Met(k);
    if a == 0 then 1 else 2 * Met(a) + a
  }

  lemma MatLenIs(k: nat)
    ensures |Mat(k)| == MatLen(k)
  {
  }

  /** The largest atom of any decoder, in limbs. */
  const MAX_LIMBS: nat := 32768

  /** The unary part of `do_rub`: the zeros, unless there are more than 64. */
  function CountZeros(a: nat, cur: nat, z: nat): (r: Option<(nat, nat)>)
    requires z <= 64
    ensures r.Some? ==> r.value.0 <= 64 && r.value.1 >= cur
    decreases 65 - z
  {
    if BitAt(a, cur) then Some((z, cur))
    else if z + 1 > 64 then None
    else CountZeros(a, cur + 1, z + 1)
  }

  const WORD: nat := 0x1_0000_0000_0000_0000

  /** The limbs of so many bits, as a 64-bit sum has it or as it is. */
  function LimbsFor(wraps: bool, len: nat): nat {
    (if wraps then (len + 63) % WORD else len + 63) / 64
  }

  /** `do_rub`: the number and the cursor behind it; no answer is the crash, on a malformed length
      or on more limbs than the decoder takes.  Where the sum of `len` and 63 wraps there are no
      limbs, and the answer is 0. */
  function Rub(limbs: nat, wraps: bool, a: nat, cur: nat): (r: Option<(nat, nat)>)
    ensures r.Some? ==> r.value.1 > cur
  {
    var zeros := CountZeros(a, cur, 0);
    if zeros.None? then None else
    var (z, at) := zeros.value;
    if z == 0 then Some((0, at + 1)) else
    var len := Pow2(z - 1) + ReadBits(a, at + 1, z - 1);
    if LimbsFor(wraps, len) == 0 then Some((0, at + z))
    else if LimbsFor(wraps, len) > limbs then None
    else Some((ReadBits(a, at + z, len), at + z + len))
  }

  lemma {:induction false} ZerosHeld(a: nat, cur: nat, n: nat, z: nat)
    requires Holds(a, cur, Falses(n)) && BitAt(a, cur + n) && z + n <= 64
    ensures CountZeros(a, cur, z) == Some((z + n, cur + n))
    decreases n
  {
    if n > 0 {
      assert Falses(n) == [false] + Falses(n - 1);
      HoldsNext(a, cur, false, Falses(n - 1));
      ZerosHeld(a, cur + 1, n - 1, z + 1);
    }
  }

  lemma {:induction false} MetMonotone(k: nat, n: nat)
    requires k < Pow2(n)
    ensures Met(k) <= n
  {
    if k > 0 {
      assert n > 0 by { assert Pow2(0) == 1; }
      MetMonotone(k / 2, n - 1);
    }
  }

  lemma Pow2At20()
    ensures Pow2(1) == 2 && Pow2(20) == 1048576 && Pow2(21) == 2097152
  {
    assert Pow2(10) == 1024;
    Pow2Add(10, 10);
    Pow2Add(1, 20);
    assert Pow2(1) == 2;
  }

  lemma MatIs(k: nat, m: nat, b: nat)
    requires m == Met(k) > 0 && b == Met(m)
    ensures b > 0 && Mat(k) == Falses(b) + ([true] + (LowBits(m, b - 1) + LowBits(k, m)))
  {
    MetBounds(m);
    hide LowBits, Falses, Met, Pow2;
    Regroup(Falses(b), [true], LowBits(m, b - 1), LowBits(k, m));
  }

  lemma Regroup(w: seq<bool>, x: seq<bool>, y: seq<bool>, z: seq<bool>)
    ensures w + x + y + z == w + (x + (y + z))
  {
  }

  /** The three parts of an encoded number, where they lie. */
  lemma MatParts(a: nat, cur: nat, k: nat, m: nat, b: nat)
    requires Holds(a, cur, Mat(k)) && m == Met(k) > 0 && b == Met(m)
    ensures b > 0 && Holds(a, cur, Falses(b)) && BitAt(a, cur + b)
    ensures Holds(a, cur + b + 1, LowBits(m, b - 1)) && Holds(a, cur + 2 * b, LowBits(k, m))
  {
    hide Holds, Pow2, LowBits, BitAt, Falses, Mat, Met;
    MatIs(k, m, b);
    var (zeros, low, num) := (Falses(b), LowBits(m, b - 1), LowBits(k, m));
    HoldsSplit(a, cur, zeros, [true] + (low + num));
    HoldsNext(a, cur + b, true, low + num);
    HoldsSplit(a, cur + b + 1, low, num);
  }

  lemma RubReads(limbs: nat, wraps: bool, a: nat, cur: nat, z: nat, len: nat)
    requires 0 < z <= 64 && CountZeros(a, cur, 0) == Some((z, cur + z))
    requires len == Pow2(z - 1) + ReadBits(a, cur + z + 1, z - 1) && 0 < len <= 64 * limbs && limbs <= MAX_LIMBS
    ensures Rub(limbs, wraps, a, cur) == Some((ReadBits(a, cur + 2 * z, len), cur + 2 * z + len))
  {
    hide CountZeros, ReadBits, Pow2;
  }

  /** `rub` undoes `mat`: it reads the number and stops right behind it. */
  lemma RubOfMat(limbs: nat, wraps: bool, a: nat, cur: nat, k: nat)
    requires Holds(a, cur, Mat(k)) && Met(k) <= 64 * limbs && limbs <= MAX_LIMBS
    ensures Rub(limbs, wraps, a, cur) == Some((k, cur + |Mat(k)|))
  {
    hide Mat, Holds, LowBits, FromBits, ReadBits, BitAt, Falses, Rub, CountZeros, Met, Pow2;
    var m := Met(k);
    if m == 0 {
      RubOfZero(limbs, wraps, a, cur, k);
    } else {
      var b := Met(m);
      MatParts(a, cur, k, m, b);
      MatLength(k, m, b);
      LengthFits(m);
      MetBounds(m);
      MetBounds(k);
      ZerosHeld(a, cur, b, 0);
      ReadHeld(a, cur + b + 1, LowBits(m, b - 1));
      ReadHeld(a, cur + 2 * b, LowBits(k, m));
      LowPart(m, b);
      LowBitsValue(k, m);
      RubReads(limbs, wraps, a, cur, b, m);
    }
  }

  lemma RubOfZero(limbs: nat, wraps: bool, a: nat, cur: nat, k: nat)
    requires Holds(a, cur, Mat(k)) && Met(k) == 0
    ensures Rub(limbs, wraps, a, cur) == Some((k, cur + |Mat(k)|))
  {
    HoldsNext(a, cur, true, []);
    hide BitAt;
  }

  lemma MatLength(k: nat, m: nat, b: nat)
    requires m == Met(k) > 0 && b == Met(m)
    ensures |Mat(k)| == 2 * b + m
  {
    MatIs(k, m, b);
    hide Mat, Met;
  }

  lemma LengthFits(m: nat)
    requires m <= 64 * MAX_LIMBS
    ensures Met(m) <= 22
  {
    Pow2At20();
    Pow2Add(1, 21);
    MetMonotone(m, 22);
    hide Met, Pow2;
  }

  /** The low bits of a number without its top bit. */
  lemma LowPart(m: nat, b: nat)
    requires b > 0 && Pow2(b - 1) <= m < Pow2(b)
    ensures Pow2(b - 1) + FromBits(LowBits(m, b - 1)) == m
  {
    var x := m - Pow2(b - 1);
    LowBitsDropTop(x, b - 1);
    LowBitsValue(x, b - 1);
  }
}
