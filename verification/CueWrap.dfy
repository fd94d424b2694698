/** Where the 64-bit sum of `do_rub` wraps, and what that does to the decoder. */
module CueWrap {
  import opened Nouns
  import opened Arith
  import opened Bits
  import opened Cues
  import Knuth

  /** The length that `do_rub` reads; 0 where it reads none. */
  function Len(a: nat, cur: nat): nat {
    var zeros := CountZeros(a, cur, 0);
    if zeros.None? || zeros.value.0 == 0 then 0 else
    var (z, at) := zeros.value;
    Pow2(z - 1) + ReadBits(a, at + 1, z - 1)
  }

  /** Adding 63 to the length wraps. */
  predicate Wraps(a: nat, cur: nat) {
    Len(a, cur) >= WORD - 63
  }

  lemma {:induction false} ReadBelow(a: nat, cur: nat, n: nat)
    ensures ReadBits(a, cur, n) < Pow2(n)
    decreases n
  {
    hide BitAt;
    if n > 0 {
      ReadBelow(a, cur + 1, n - 1);
    }
  }

  /** A length has at most 64 bits. */
  lemma LenFits(a: nat, cur: nat)
    ensures Len(a, cur) < WORD
  {
    hide CountZeros, ReadBits, Pow2;
    Knuth.Pow64();
    var zeros := CountZeros(a, cur, 0);
    if zeros.Some? && zeros.value.0 > 0 {
      var (z, at) := zeros.value;
      ReadBelow(a, at + 1, z - 1);
      Pow2Add(1, z - 1);
      Pow2One();
      Pow2Monotone(z, 64);
    }
  }

  lemma Pow2One()
    ensures Pow2(1) == 2
  {
    assert Pow2(0) == 1;
  }

  /** Of so long a length the wrapped sum makes no limbs, the full sum too many. */
  lemma LimbsWrap(len: nat)
    requires len < WORD
    ensures len < WORD - 63 ==> LimbsFor(true, len) == LimbsFor(false, len)
    ensures len >= WORD - 63 ==> LimbsFor(true, len) == 0 && LimbsFor(false, len) > MAX_LIMBS
  {
    if len >= WORD - 63 {
      assert (len + 63) % WORD == len + 63 - WORD;
    }
  }

  /** The wrapped sum changes what is read exactly at a length of 2^64 - 63 or more: it reads 0
      where there is no number. */
  lemma WrapIff(limbs: nat, a: nat, cur: nat)
    requires limbs <= MAX_LIMBS
    ensures Rub(limbs, true, a, cur) == Rub(limbs, false, a, cur) <==> Len(a, cur) < WORD - 63
    ensures Wraps(a, cur) ==> Rub(limbs, false, a, cur).None?
    ensures Wraps(a, cur) ==> Rub(limbs, true, a, cur).Some? && Rub(limbs, true, a, cur).value.0 == 0
  {
    LenFits(a, cur);
    LimbsWrap(Len(a, cur));
    hide CountZeros, ReadBits, Pow2, LimbsFor;
  }

  /** Decoding from here meets such a length. */
  predicate MeetsWrap(d: Dims, a: nat, cur: nat, cache: map<nat, Noun>)
    decreases if BitAt(a, cur) then Met(a) - cur else 0
  {
    if !BitAt(a, cur) then Wraps(a, cur + 1)
    else if BitAt(a, cur + 1) then Wraps(a, cur + 2)
    else
      BitBelowMet(a, cur);
      var head := Cue(d, a, cur + 2, cache);
      MeetsWrap(d, a, cur + 2, cache) || (head.Some? && MeetsWrap(d, a, head.value.cur, head.value.cache))
  }

  /** The leaves. */
  lemma LeafUnwrapped(d: Dims, a: nat, cur: nat, cache: map<nat, Noun>)
    requires d.limbs <= MAX_LIMBS && d.wraps && (!BitAt(a, cur) || BitAt(a, cur + 1))
    ensures CueNode(d.(wraps := false), a, cur, cache) == if MeetsWrap(d, a, cur, cache) then None else CueNode(d, a, cur, cache)
  {
    hide BitAt, Rub, Met, Wraps, Cue;
    var at := if BitAt(a, cur) then cur + 2 else cur + 1;
    WrapIff(d.limbs, a, at);
    WrapsIs(a, at);
  }

  /** A cell, its halves given. */
  lemma CellUnwrapped(d: Dims, a: nat, cur: nat, cache: map<nat, Noun>)
    requires d.wraps && BitAt(a, cur) && !BitAt(a, cur + 1)
    requires Cue(d.(wraps := false), a, cur + 2, cache) == if MeetsWrap(d, a, cur + 2, cache) then None else Cue(d, a, cur + 2, cache)
    requires Cue(d, a, cur + 2, cache).Some? ==>
               var head := Cue(d, a, cur + 2, cache).value;
               Cue(d.(wraps := false), a, head.cur, head.cache) == if MeetsWrap(d, a, head.cur, head.cache) then None else Cue(d, a, head.cur, head.cache)
    ensures CueNode(d.(wraps := false), a, cur, cache) == if MeetsWrap(d, a, cur, cache) then None else CueNode(d, a, cur, cache)
  {
    hide BitAt, Rub, Met, Wraps, Cue;
  }

  /** A decoder whose sum does not wrap gives no answer where such a length is met, and the same
      answer everywhere else. */
  lemma {:induction false} CueUnwrapped(d: Dims, a: nat, cur: nat, cache: map<nat, Noun>)
    requires d.limbs <= MAX_LIMBS && d.wraps
    ensures Cue(d.(wraps := false), a, cur, cache) == if MeetsWrap(d, a, cur, cache) then None else Cue(d, a, cur, cache)
    decreases if BitAt(a, cur) then Met(a) - cur else 0
  {
    hide BitAt, Rub, Met, CueNode, MeetsWrap, Keep;
    if BitAt(a, cur) && !BitAt(a, cur + 1) {
      BitBelowMet(a, cur);
      CueUnwrapped(d, a, cur + 2, cache);
      var head := Cue(d, a, cur + 2, cache);
      if head.Some? {
        CueUnwrapped(d, a, head.value.cur, head.value.cache);
      }
      CellUnwrapped(d, a, cur, cache);
    } else {
      LeafUnwrapped(d, a, cur, cache);
    }
    KeepUnwrapped(d, a, cur, cache);
  }

  lemma KeepUnwrapped(d: Dims, a: nat, cur: nat, cache: map<nat, Noun>)
    requires CueNode(d.(wraps := false), a, cur, cache) == if MeetsWrap(d, a, cur, cache) then None else CueNode(d, a, cur, cache)
    ensures Cue(d.(wraps := false), a, cur, cache) == if MeetsWrap(d, a, cur, cache) then None else Cue(d, a, cur, cache)
  {
    hide BitAt, CueNode, MeetsWrap;
  }

  lemma WrapsIs(a: nat, cur: nat)
    ensures Wraps(a, cur) <==> Len(a, cur) >= WORD - 63
  {
    hide Len;
  }

  /** `cue` answers differently from a decoder whose sum does not wrap exactly where it meets such a
      length and answers all the same. */
  lemma WrapMatters(a: nat)
    ensures Cue(CUE, a, 0, map[]) != Cue(CUE.(wraps := false), a, 0, map[])
            <==> MeetsWrap(CUE, a, 0, map[]) && CueAtom(a).Some?
  {
    CueUnwrapped(CUE, a, 0, map[]);
    hide Cue, MeetsWrap;
  }

  // ----- It happens -----

  function Ones(n: nat): (s: seq<bool>)
    ensures |s| == n
  {
    seq(n, _ => true)
  }

  lemma {:induction false} OnesValue(n: nat)
    ensures FromBits(Ones(n)) + 1 == Pow2(n)
  {
    if n > 0 {
      assert Ones(n)[1..] == Ones(n - 1);
      OnesValue(n - 1);
    }
  }

  /** An atom whose length is written as 2^64 - 1. */
  function WrappedMat(): seq<bool> {
    Falses(64) + ([true] + Ones(63))
  }

  lemma WrappedLen(a: nat, cur: nat)
    requires Holds(a, cur, WrappedMat())
    ensures Len(a, cur) == WORD - 1
  {
    hide Holds, BitAt, ReadBits, CountZeros, Pow2, FromBits, Falses, Ones;
    HoldsSplit(a, cur, Falses(64), [true] + Ones(63));
    HoldsNext(a, cur + 64, true, Ones(63));
    ZerosHeld(a, cur, 64, 0);
    ReadHeld(a, cur + 65, Ones(63));
    OnesValue(63);
    Knuth.Pow64();
    Pow2Add(1, 63);
    Pow2One();
  }

  /** The decoder on a single atom. */
  lemma AtomWhole(d: Dims, a: nat, v: nat, end: nat)
    requires d.entries > 0 && !BitAt(a, 0) && Rub(d.limbs, d.wraps, a, 1) == Some((v, end))
    ensures Cue(d, a, 0, map[]) == Some(Cued(Atom(v), end, map[0 := Atom(v)]))
  {
    hide Rub, BitAt, CueNode;
    AtomNode(d, a, 0, map[], v, end);
  }

  /** An atom of 129 bits that `cue` takes for 0, and that encodes nothing. */
  lemma WrapReached()
    ensures var a := FromBits([false] + WrappedMat());
            CueAtom(a) == Some(Atom(0)) && Cue(CUE.(wraps := false), a, 0, map[]).None?
  {
    hide Holds, BitAt, FromBits, Len, WrappedMat, Rub, Cue;
    var a := FromBits([false] + WrappedMat());
    HoldsAll([false] + WrappedMat());
    HoldsNext(a, 0, false, WrappedMat());
    WrappedLen(a, 1);
    WrapsIs(a, 1);
    WrapIff(CUE.limbs, a, 1);
    AtomWhole(CUE, a, 0, Rub(CUE.limbs, true, a, 1).value.1);
    CueUnwrapped(CUE, a, 0, map[]);
  }
}
