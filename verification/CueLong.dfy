/** Where the plain decoder stops and the bounded one goes on. */
module CueLong {
  import opened Nouns
  import opened Arith
  import opened Bits
  import opened Jams
  import opened Cues
  import opened CueWrap
  import opened BoundedCues
  import opened BoundedCueSound

  /** A narrower decoder in place of a wider one. */
  predicate Narrower(d: Dims, e: Dims) {
    d.limbs <= e.limbs <= MAX_LIMBS && d.entries == e.entries && !e.wraps
  }

  /** Decoding from here meets a number of more than so many limbs. */
  predicate MeetsLong(limbs: nat, e: Dims, a: nat, cur: nat, cache: map<nat, Noun>)
    decreases if BitAt(a, cur) then Met(a) - cur else 0
  {
    if !BitAt(a, cur) then Len(a, cur + 1) > 64 * limbs
    else if BitAt(a, cur + 1) then Len(a, cur + 2) > 64 * limbs
    else
      BitBelowMet(a, cur);
      var head := Cue(e, a, cur + 2, cache);
      MeetsLong(limbs, e, a, cur + 2, cache) || (head.Some? && MeetsLong(limbs, e, a, head.value.cur, head.value.cache))
  }

  lemma RubLong(d: Dims, e: Dims, a: nat, cur: nat)
    requires Narrower(d, e) && Rub(e.limbs, e.wraps, a, cur).Some?
    ensures Rub(d.limbs, d.wraps, a, cur) == if Len(a, cur) > 64 * d.limbs then None else Rub(e.limbs, e.wraps, a, cur)
  {
    hide CountZeros, ReadBits, Pow2, LimbsFor;
    if LimbsFor(false, Len(a, cur)) <= e.limbs {
      LimbsLong(d.wraps, d.limbs, e.limbs, Len(a, cur));
    }
  }

  lemma LimbsLong(wraps: bool, limbs: nat, wide: nat, len: nat)
    requires limbs <= wide <= MAX_LIMBS && LimbsFor(false, len) <= wide
    ensures LimbsFor(wraps, len) == LimbsFor(false, len)
    ensures LimbsFor(false, len) > limbs <==> len > 64 * limbs
    ensures LimbsFor(false, len) == 0 <==> len == 0
  {
    assert len + 63 < WORD;
  }

  lemma LeafLong(d: Dims, e: Dims, a: nat, cur: nat, cache: map<nat, Noun>)
    requires Narrower(d, e) && (!BitAt(a, cur) || BitAt(a, cur + 1)) && CueNode(e, a, cur, cache).Some?
    ensures CueNode(d, a, cur, cache) == if MeetsLong(d.limbs, e, a, cur, cache) then None else CueNode(e, a, cur, cache)
  {
    hide BitAt, Rub, Met, Len, Cue;
    RubLong(d, e, a, if BitAt(a, cur) then cur + 2 else cur + 1);
  }

  lemma CellLong(d: Dims, e: Dims, a: nat, cur: nat, cache: map<nat, Noun>)
    requires BitAt(a, cur) && !BitAt(a, cur + 1) && Cue(e, a, cur + 2, cache).Some?
    requires var head := Cue(e, a, cur + 2, cache);
             && Cue(d, a, cur + 2, cache) == (if MeetsLong(d.limbs, e, a, cur + 2, cache) then None else head)
             && Cue(d, a, head.value.cur, head.value.cache)
                == if MeetsLong(d.limbs, e, a, head.value.cur, head.value.cache) then None else Cue(e, a, head.value.cur, head.value.cache)
    ensures CueNode(d, a, cur, cache) == if MeetsLong(d.limbs, e, a, cur, cache) then None else CueNode(e, a, cur, cache)
  {
    hide BitAt, Rub, Met, Len, Cue;
  }

  lemma KeepLong(d: Dims, e: Dims, a: nat, cur: nat, cache: map<nat, Noun>)
    requires d.entries == e.entries
    requires CueNode(d, a, cur, cache) == if MeetsLong(d.limbs, e, a, cur, cache) then None else CueNode(e, a, cur, cache)
    ensures Cue(d, a, cur, cache) == if MeetsLong(d.limbs, e, a, cur, cache) then None else Cue(e, a, cur, cache)
  {
    hide BitAt, CueNode, MeetsLong;
  }

  /** Where the wider decoder answers, the narrower one gives the same answer, or none exactly if a
      number is too long for it. */
  lemma {:induction false} CueNarrower(d: Dims, e: Dims, a: nat, cur: nat, cache: map<nat, Noun>)
    requires Narrower(d, e) && Cue(e, a, cur, cache).Some?
    ensures Cue(d, a, cur, cache) == if MeetsLong(d.limbs, e, a, cur, cache) then None else Cue(e, a, cur, cache)
    decreases if BitAt(a, cur) then Met(a) - cur else 0
  {
    CueOfNode(e, a, cur, cache);
    hide BitAt, Rub, Met, MeetsLong, Cue, CueNode;
    if BitAt(a, cur) && !BitAt(a, cur + 1) {
      BitBelowMet(a, cur);
      HalvesAnswer(e, a, cur, cache);
      CueNarrower(d, e, a, cur + 2, cache);
      var head := Cue(e, a, cur + 2, cache).value;
      CueNarrower(d, e, a, head.cur, head.cache);
      CellLong(d, e, a, cur, cache);
    } else {
      LeafLong(d, e, a, cur, cache);
    }
    KeepLong(d, e, a, cur, cache);
  }

  lemma CueOfNode(e: Dims, a: nat, cur: nat, cache: map<nat, Noun>)
    requires Cue(e, a, cur, cache).Some?
    ensures CueNode(e, a, cur, cache).Some?
  {
    hide CueNode;
  }

  lemma HalvesAnswer(e: Dims, a: nat, cur: nat, cache: map<nat, Noun>)
    requires CueNode(e, a, cur, cache).Some? && BitAt(a, cur) && !BitAt(a, cur + 1)
    ensures var head := Cue(e, a, cur + 2, cache);
            head.Some? && head.value.cur > cur + 2 && Cue(e, a, head.value.cur, head.value.cache).Some?
  {
    hide BitAt, Cue;
  }

  /** On what the bounded decoder accepts, `cue` gives the same noun, or crashes exactly if a number in
      it has more than 16384 limbs. */
  lemma PlainOnAccepted(j: Job)
    requires Bounded(j).0.status.Fine?
    ensures CueAtom(j.a) == if MeetsLong(CUE.limbs, WIDE, j.a, 0, map[]) then None else Some(Bounded(j).1)
  {
    hide Cue, MeetsLong, Bounded;
    AcceptedIsPlain(j);
    CueNarrower(CUE, WIDE, j.a, 0, map[]);
  }

  /** The encoding of a single atom of such a length, which the limits of the format allow. */
  lemma LongAtom(k: nat)
    requires 64 * CUE.limbs < Met(k) <= 64 * MAX_LIMBS
    ensures var a := FromBits(AtomBits(k));
            CueAtom(a).None? && Cue(WIDE, a, 0, map[]).Some? && Cue(WIDE, a, 0, map[]).value.noun == Atom(k)
  {
    hide Holds, BitAt, FromBits, Len, Rub, Cue, Met, Mat;
    var a := FromBits(AtomBits(k));
    HoldsAll(AtomBits(k));
    HoldsNext(a, 0, false, Mat(k));
    RubOfMat(WIDE.limbs, false, a, 1, k);
    AtomWhole(WIDE, a, k, 1 + |Mat(k)|);
    LenOfMat(a, 1, k);
    CueNarrower(CUE, WIDE, a, 0, map[]);
  }

  lemma LenOfMat(a: nat, cur: nat, k: nat)
    requires Holds(a, cur, Mat(k)) && 0 < Met(k) <= 64 * MAX_LIMBS
    ensures Len(a, cur) == Met(k)
  {
    hide Mat, Holds, LowBits, FromBits, ReadBits, BitAt, Falses, CountZeros, Met, Pow2;
    var m := Met(k);
    var b := Met(m);
    MatParts(a, cur, k, m, b);
    LengthFits(m);
    MetBounds(m);
    ZerosHeld(a, cur, b, 0);
    ReadHeld(a, cur + b + 1, LowBits(m, b - 1));
    LowPart(m, b);
  }
}
