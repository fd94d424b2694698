/** What an accepted decode consumed, and the plain decoder's own limit. */
module BoundedCueLimits {
  import opened Nouns
  import opened Arith
  import opened Bits
  import opened Cues
  import opened Probe
  import opened BoundedCues
  import opened BoundedCueSound

  /** Every counter is within its limit. */
  predicate Within(lim: Limits, r: Rd) {
    r.work <= lim.maxWork && r.atomBytes <= lim.maxTotalAtomBytes && r.nodes <= lim.maxNodes && r.cells <= lim.maxCells
    && r.backrefs <= lim.maxBackrefs && r.entries <= lim.maxEntries && r.depth <= lim.maxDepth
  }

  /** A step that succeeds from within the limits stays within them. */
  predicate Keeps(lim: Limits, r: Rd, r': Rd) {
    r.status.Fine? && Within(lim, r) && r'.status.Fine? ==> Within(lim, r')
  }

  lemma {:induction false} ReadNKeeps(j: Job, r: Rd, n: nat)
    ensures Keeps(j.lim, r, ReadN(j, r, n).0) && (ReadN(j, r, n).0.status.Fine? && n > 0 ==> r.status.Fine?)
    decreases n
  {
    hide BitAt;
    if n > 0 {
      ReadNKeeps(j, ReadBit(j, r).0, n - 1);
    }
  }

  lemma {:induction false} ZerosKeep(j: Job, r: Rd, z: nat)
    requires z <= 63
    ensures Keeps(j.lim, r, MatZeros(j, r, z).0) && (MatZeros(j, r, z).0.status.Fine? ==> r.status.Fine?)
    decreases 64 - z
  {
    hide BitAt;
    var (r1, bit) := ReadBit(j, r);
    if r1.status.Fine? && !bit && z + 1 <= 63 {
      ZerosKeep(j, r1, z + 1);
    }
  }

  lemma MatKeeps(j: Job, r: Rd)
    ensures Keeps(j.lim, r, DecodeMat(j, r).0)
  {
    hide MatZeros, ReadN;
    ZerosKeep(j, r, 0);
    var (r1, z) := MatZeros(j, r, 0);
    if z > 0 {
      ReadNKeeps(j, r1, z - 1);
    }
    var (r2, bits) := MatHead(j, r);
    ReadNKeeps(j, Admit(j, r2, (bits + 7) / 8), bits);
  }

  lemma {:induction false} PutKeeps(j: Job, r: Rd, pos: nat, val: Noun, i: nat)
    requires JobOk(j) && RdOk(r)
    ensures Keeps(j.lim, r, CachePut(j, r, pos, val, i))
    decreases j.lim.maxEntries - i
  {
    hide At;
    if i < j.lim.maxEntries {
      PutKeeps(j, Charge(j, r, 1), pos, val, i + 1);
    }
  }

  lemma {:induction false} GetKeeps(j: Job, r: Rd, pos: nat, i: nat)
    requires JobOk(j) && RdOk(r)
    ensures Keeps(j.lim, r, CacheGet(j, r, pos, i).0)
    decreases j.lim.maxEntries - i
  {
    hide At;
    if i < j.lim.maxEntries {
      GetKeeps(j, Charge(j, r, 1), pos, i + 1);
    }
  }

  lemma BackrefKeeps(j: Job, r: Rd, start: nat)
    requires JobOk(j) && RdOk(r)
    ensures Keeps(j.lim, r, DecodeBackref(j, r, start).0)
  {
    hide DecodeMat, CacheGet;
    var r1 := r.(backrefs := r.backrefs + 1);
    MatKeepsTable(j, r1);
    MatKeeps(j, r1);
    var (r2, pos) := DecodeMat(j, r1);
    GetKeeps(j, r2, pos, 0);
  }

  lemma NodeKeeps(j: Job, r: Rd, depth: nat)
    requires JobOk(j) && RdOk(r) && depth <= j.lim.maxDepth
    ensures Keeps(j.lim, r, DecodeNode(j, r, depth).0)
    decreases j.lim.maxDepth - depth, 1
  {
    hide BitAt, DecodeMat, DecodeBackref, Decode;
    var (r1, tag0) := ReadBit(j, r);
    MatKeeps(j, r1);
    if r1.status.Fine? && tag0 {
      var (r2, tag1) := ReadBit(j, r1);
      BackrefKeeps(j, r2, r.cur);
      var r3 := r2.(cells := r2.cells + 1);
      if r3.cells <= j.lim.maxCells && depth < j.lim.maxDepth {
        DecodeKeeps(j, r3, depth + 1);
        DecodeKeeps(j, Decode(j, r3, depth + 1).0, depth + 1);
      }
    }
  }

  lemma {:induction false} DecodeKeeps(j: Job, r: Rd, depth: nat)
    requires JobOk(j) && RdOk(r)
    ensures Keeps(j.lim, r, Decode(j, r, depth).0)
    decreases j.lim.maxDepth - depth, 2
  {
    hide DecodeNode, CachePut;
    if depth <= j.lim.maxDepth {
      var r3 := Charge(j, Counted(r, depth), 1);
      NodeKeeps(j, r3, depth);
      var (r4, n) := DecodeNode(j, r3, depth);
      PutKeeps(j, r4, r3.cur, n, 0);
    }
  }

  function Counted(r: Rd, depth: nat): Rd {
    r.(depth := if depth > r.depth then depth else r.depth, nodes := r.nodes + 1)
  }

  lemma {:induction false} TrailKeeps(j: Job, r: Rd)
    ensures Keeps(j.lim, r, Trail(j, r))
    decreases j.bits - r.cur
  {
    hide BitAt;
    if r.cur < j.bits {
      var (r1, bit) := ReadBit(j, r);
      if r1.status.Fine? && !bit {
        TrailKeeps(j, r1);
      }
    }
  }

  /** An accepted decode stayed within every limit. */
  lemma AcceptedWithin(j: Job)
    requires Bounded(j).0.status.Fine?
    ensures Within(j.lim, Bounded(j).0) && 8 * j.lim.maxInputBytes + 8 > j.bits
  {
    hide Decode, Trail;
    DecodeKeeps(j, Begin(j), 1);
    TrailKeeps(j, Decode(j, Begin(j), 1).0);
  }

  // ----- The plain decoder of src/jam.c -----

  /** What a decoder reads, a wider one reads the same; and where one takes a wrapped length for 0,
      one whose lengths do not wrap gives no answer. */
  lemma {:induction false} CueWider(d: Dims, e: Dims, a: nat, cur: nat, cache: map<nat, Noun>)
    requires d.limbs <= e.limbs <= MAX_LIMBS && d.entries <= e.entries && Cue(d, a, cur, cache).Some?
    requires e.wraps == d.wraps || (!e.wraps && Cue(e, a, cur, cache).Some?)
    ensures Cue(e, a, cur, cache) == Cue(d, a, cur, cache)
    decreases if BitAt(a, cur) then Met(a) - cur else 0
  {
    hide BitAt, Rub, Met;
    RubWider(d, e, a, cur + 1);
    RubWider(d, e, a, cur + 2);
    if BitAt(a, cur) && !BitAt(a, cur + 1) {
      BitBelowMet(a, cur);
      CueWider(d, e, a, cur + 2, cache);
      var head := Cue(d, a, cur + 2, cache).value;
      CueWider(d, e, a, head.cur, head.cache);
    }
  }

  lemma RubWider(d: Dims, e: Dims, a: nat, cur: nat)
    requires d.limbs <= e.limbs <= MAX_LIMBS
    ensures var (r, s) := (Rub(d.limbs, d.wraps, a, cur), Rub(e.limbs, e.wraps, a, cur));
            r.Some? && (e.wraps == d.wraps || (!e.wraps && s.Some?)) ==> s == r
  {
    hide BitAt, CountZeros, ReadBits, Pow2;
    var zeros := CountZeros(a, cur, 0);
    if zeros.Some? && zeros.value.0 > 0 {
      var len := Pow2(zeros.value.0 - 1) + ReadBits(a, zeros.value.1 + 1, zeros.value.0 - 1);
      LimbsOrNot(len);
    }
  }

  lemma LimbsOrNot(len: nat)
    ensures LimbsFor(true, len) == LimbsFor(false, len) || LimbsFor(false, len) > MAX_LIMBS
  {
  }

  /** Where both decoders answer, they give the same noun. */
  lemma DecodersAgree(j: Job)
    requires Bounded(j).0.status.Fine? && CueAtom(j.a).Some?
    ensures CueAtom(j.a).value == Bounded(j).1
  {
    hide Cue, Bounded;
    AcceptedIsPlain(j);
    CueWider(CUE, WIDE, j.a, 0, map[]);
  }
}
