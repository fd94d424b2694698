/** What the counters of the bounded decoder count. */
module BoundedCueCounts {
  import opened Nouns
  import opened Arith
  import opened Bits
  import opened Cues
  import opened CueWrap
  import opened Probe
  import opened BoundedCues
  import opened BoundedCueSound
  import opened BoundedCueLimits

  /** What is read for a noun: nodes, cells among them, back-references among them, the bytes of all
      numbers and of the largest, and how deep the cells are nested. */
  datatype Tally = Tally(nodes: nat, cells: nat, backrefs: nat, atomBytes: nat, widest: nat, depth: nat)

  function Both(x: Tally, y: Tally): Tally {
    Tally(x.nodes + y.nodes, x.cells + y.cells, x.backrefs + y.backrefs, x.atomBytes + y.atomBytes,
          if x.widest > y.widest then x.widest else y.widest, if x.depth > y.depth then x.depth else y.depth)
  }

  function Bytes(bits: nat): nat {
    (bits + 7) / 8
  }

  /** What the plain decoder reads for the noun whose encoding starts at `cur`, the noun itself at the
      given depth. */
  function Tallied(a: nat, cur: nat, cache: map<nat, Noun>, depth: nat): Tally
    decreases if BitAt(a, cur) then Met(a) - cur else 0
  {
    if !BitAt(a, cur) then Tally(1, 0, 0, Bytes(Len(a, cur + 1)), Bytes(Len(a, cur + 1)), depth)
    else if BitAt(a, cur + 1) then Tally(1, 0, 1, Bytes(Len(a, cur + 2)), Bytes(Len(a, cur + 2)), depth)
    else
      BitBelowMet(a, cur);
      var head := Cue(WIDE, a, cur + 2, cache);
      if head.None? then Tally(1, 1, 0, 0, 0, depth) else
      Both(Tally(1, 1, 0, 0, 0, depth),
           Both(Tallied(a, cur + 2, cache, depth + 1), Tallied(a, head.value.cur, head.value.cache, depth + 1)))
  }

  /** The least work that reading so many bits of it costs: a unit for each bit, for each node, for
      each byte of a number, and for each time the table is probed. */
  function Price(bits: int, t: Tally): int {
    bits + t.nodes + t.atomBytes + (t.nodes + t.backrefs)
  }

  /** No two positions of the input start their probes at one slot. */
  ghost predicate NoClash(j: Job) {
    forall p, q :: 0 <= p < q < j.bits ==> At(ShapeOf(j), p, 0) != At(ShapeOf(j), q, 0)
  }

  /** Every entry of the table is where its probe starts. */
  predicate Homed(j: Job, r: Rd) {
    RdOk(r) && forall s :: 0 <= s < TABLE_SIZE && r.table[s].Full? ==> r.table[s].key < j.bits && At(ShapeOf(j), r.table[s].key, 0) == s
  }

  /** The reader's counters have grown by what was read; the store of the last `open` nodes is yet to
      come.  Without clashes each probe meets its slot at once, and the work is exactly the price. */
  ghost predicate Grown(j: Job, r: Rd, r': Rd, t: Tally, open: nat) {
    && t.widest <= j.lim.maxAtomBytes
    && (NoClash(j) && Homed(j, r) ==> Homed(j, r') && r'.work + open == r.work + Price(r'.cur - r.cur, t))
    && r'.work + open >= r.work + Price(r'.cur - r.cur, t)
    && r'.nodes == r.nodes + t.nodes && r'.cells == r.cells + t.cells && r'.backrefs == r.backrefs + t.backrefs
    && r'.atomBytes == r.atomBytes + t.atomBytes && r'.depth == if t.depth > r.depth then t.depth else r.depth
  }

  // ----- Numbers -----

  lemma {:induction false} ZerosKeepBytes(j: Job, r: Rd, z: nat)
    requires z <= 63
    ensures var r' := MatZeros(j, r, z).0; r'.atomBytes == r.atomBytes && (r'.status.Fine? ==> r'.work - r'.cur == r.work - r.cur)
    decreases 64 - z
  {
    hide BitAt;
    var (r1, bit) := ReadBit(j, r);
    if r1.status.Fine? && !bit && z + 1 <= 63 {
      ZerosKeepBytes(j, r1, z + 1);
    }
  }

  lemma {:induction false} ReadNKeepsBytes(j: Job, r: Rd, n: nat)
    ensures var r' := ReadN(j, r, n).0; r'.atomBytes == r.atomBytes && (r'.status.Fine? ==> r'.work - r'.cur == r.work - r.cur)
    decreases n
  {
    hide BitAt;
    if n > 0 {
      var (r1, bit) := ReadBit(j, r);
      if r1.status.Fine? {
        ReadNKeepsBytes(j, r1, n - 1);
      }
    }
  }

  lemma HeadCounts(j: Job, r: Rd)
    requires r.status.Fine?
    ensures var (r1, bits) := MatHead(j, r); r1.status.Fine? ==> bits == Len(j.a, r.cur) && r1.atomBytes == r.atomBytes && r1.work - r1.cur == r.work - r.cur
  {
    hide BitAt, CountZeros, MatZeros, ReadN, ReadBits, Pow2;
    ZerosAgree(j, r, 0);
    ZerosKeepBytes(j, r, 0);
    var (r1, z) := MatZeros(j, r, 0);
    if r1.status.Fine? && z > 0 {
      ReadNAgrees(j, r1, z - 1);
      ReadNKeepsBytes(j, r1, z - 1);
    }
  }

  /** A number that is read adds its bytes, and is paid for. */
  lemma MatCounts(j: Job, r: Rd)
    requires r.status.Fine? && DecodeMat(j, r).0.status.Fine?
    ensures var (r', bytes) := (DecodeMat(j, r).0, Bytes(Len(j.a, r.cur)));
            SameTable(r, r') && r'.atomBytes == r.atomBytes + bytes && r'.work - r'.cur == r.work - r.cur + bytes && bytes <= j.lim.maxAtomBytes
  {
    MatKeepsTable(j, r);
    hide MatHead, ReadN, Len;
    HeadCounts(j, r);
    var (r1, bits) := MatHead(j, r);
    if bits > 0 {
      ReadNKeepsBytes(j, Admit(j, r1, Bytes(bits)), bits);
    }
  }

  // ----- Nouns -----

  lemma AtomCounts(j: Job, r: Rd, depth: nat, m: map<nat, Noun>)
    requires r.status.Fine? && !BitAt(j.a, r.cur)
    ensures var e := Entered(r, depth); var r2 := DecodeMat(j, e.(cur := r.cur + 1, work := e.work + 1)).0;
            r2.status.Fine? ==> Grown(j, r, r2, Tallied(j.a, r.cur, m, depth), 1)
  {
    hide BitAt, DecodeMat, Len;
    var e := Entered(r, depth);
    if DecodeMat(j, e.(cur := r.cur + 1, work := e.work + 1)).0.status.Fine? {
      MatCounts(j, e.(cur := r.cur + 1, work := e.work + 1));
    }
  }

  /** An entry that is there is met at once. */
  lemma GetHome(j: Job, r: Rd, m: map<nat, Noun>, pos: nat)
    requires JobOk(j) && r.status.Fine? && Mirrors(j, r, m) && Homed(j, r) && pos in m
    ensures var r' := CacheGet(j, r, pos, 0).0; r'.status.Fine? ==> r'.work == r.work + 1
  {
    var p := ShapeOf(j);
    var i: nat :| i < p.cap && Reachable(p, r.table, pos, i);
    assert r.table[At(p, pos, i)].key == pos;
    hide At;
    assert At(p, pos, 0) == At(p, pos, i);
  }

  /** Without clashes a store meets its slot at once, and leaves the table as orderly as it was. */
  lemma PutHome(j: Job, r: Rd, pos: nat, val: Noun)
    requires JobOk(j) && r.status.Fine? && Homed(j, r) && NoClash(j) && pos < j.bits
    ensures var r' := CachePut(j, r, pos, val, 0); r'.status.Fine? ==> r'.work == r.work + 1 && Homed(j, r')
  {
    hide At;
  }

  lemma PutCosts(j: Job, r: Rd, pos: nat, val: Noun, i: nat)
    requires JobOk(j) && RdOk(r) && r.status.Fine?
    ensures var r' := CachePut(j, r, pos, val, i); r'.status.Fine? ==> r'.work > r.work
    decreases j.lim.maxEntries - i
  {
    hide At;
    if i < j.lim.maxEntries {
      var r1 := Charge(j, r, 1);
      if r1.status.Fine? {
        PutCosts(j, r1, pos, val, i + 1);
      }
    }
  }

  lemma GetKeepsTable(j: Job, r: Rd, pos: nat, i: nat)
    requires JobOk(j) && RdOk(r)
    ensures CacheGet(j, r, pos, i).0.table == r.table
    decreases j.lim.maxEntries - i
  {
    hide At;
    if i < j.lim.maxEntries {
      GetKeepsTable(j, Charge(j, r, 1), pos, i + 1);
    }
  }

  lemma GetCosts(j: Job, r: Rd, pos: nat, i: nat)
    requires JobOk(j) && RdOk(r) && r.status.Fine?
    ensures var r' := CacheGet(j, r, pos, i).0; r'.status.Fine? ==> r'.work > r.work
    decreases j.lim.maxEntries - i
  {
    hide At;
    if i < j.lim.maxEntries {
      var r1 := Charge(j, r, 1);
      if r1.status.Fine? {
        GetCosts(j, r1, pos, i + 1);
      }
    }
  }

  lemma BackrefCounts(j: Job, r: Rd, depth: nat, m: map<nat, Noun>)
    requires Ready(j, r, m) && BitAt(j.a, r.cur) && BitAt(j.a, r.cur + 1)
    ensures var e := Entered(r, depth); var r2 := DecodeBackref(j, e.(cur := r.cur + 2, work := e.work + 2), r.cur).0;
            r2.status.Fine? ==> Grown(j, r, r2, Tallied(j.a, r.cur, m, depth), 1)
  {
    hide BitAt, DecodeMat, Len, CacheGet, Represents;
    var e := Entered(r, depth);
    var r1 := e.(cur := r.cur + 2, work := e.work + 2, backrefs := e.backrefs + 1);
    if DecodeMat(j, r1).0.status.Fine? {
      MatCounts(j, r1);
      var (r2, pos) := DecodeMat(j, r1);
      GetCosts(j, r2, pos, 0);
      if Homed(j, r) && CacheGet(j, r2, pos, 0).0.status.Fine? {
        GetAgrees(j, r2, m, pos, 0);
        GetHome(j, r2, m, pos);
        GetKeepsTable(j, r2, pos, 0);
      }
      GetAgrees(j, DecodeMat(j, r1).0, m, DecodeMat(j, r1).1, 0);
    }
  }

  lemma TalliedCell(a: nat, cur: nat, m: map<nat, Noun>, depth: nat)
    requires BitAt(a, cur) && !BitAt(a, cur + 1) && Cue(WIDE, a, cur + 2, m).Some?
    ensures var head := Cue(WIDE, a, cur + 2, m).value;
            Tallied(a, cur, m, depth) == Both(Tally(1, 1, 0, 0, 0, depth), Both(Tallied(a, cur + 2, m, depth + 1),
                                                                            Tallied(a, head.cur, head.cache, depth + 1)))
  {
    hide BitAt, Cue, Len, Met;
    BitBelowMet(a, cur);
  }

  /** The cell, its head and its tail. */
  lemma GrownTwice(j: Job, r: Rd, r3: Rd, r4: Rd, r5: Rd, x: Tally, y: Tally, depth: nat)
    requires r3 == Entered(r, depth).(cur := r.cur + 2, work := r.work + 3, cells := r.cells + 1)
    requires Grown(j, r3, r4, x, 0) && Grown(j, r4, r5, y, 0)
    ensures Grown(j, r, r5, Both(Tally(1, 1, 0, 0, 0, depth), Both(x, y)), 1)
  {
  }

  lemma {:induction false} CellCounts(j: Job, r: Rd, depth: nat, m: map<nat, Noun>)
    requires Ready(j, r, m) && depth <= j.lim.maxDepth && BitAt(j.a, r.cur) && !BitAt(j.a, r.cur + 1)
    ensures var e := Entered(r, depth); var d := CellBranch(j, e.(cur := r.cur + 2, work := e.work + 2, cells := e.cells + 1), depth);
            d.0.status.Fine? ==> Grown(j, r, d.0, Tallied(j.a, r.cur, m, depth), 1)
    decreases j.lim.maxDepth - depth, 0
  {
    hide BitAt, Represents, Decode, CueNode, Cue, Behind, NewFrom, Limited, Tallied, Grown;
    var e := Entered(r, depth);
    var r3 := e.(cur := r.cur + 2, work := e.work + 2, cells := e.cells + 1);
    BehindFrom(m, r.cur, r.cur + 2);
    if CellBranch(j, r3, depth).0.status.Fine? {
      DecodeAgrees(j, r3, depth + 1, m);
      DecodeCounts(j, r3, depth + 1, m);
      var r4 := Decode(j, r3, depth + 1).0;
      var m1 := Cue(WIDE, j.a, r.cur + 2, m).value.cache;
      DecodeCounts(j, r4, depth + 1, m1);
      var r5 := Decode(j, r4, depth + 1).0;
      TalliedCell(j.a, r.cur, m, depth);
      GrownTwice(j, r, r3, r4, r5, Tallied(j.a, r.cur + 2, m, depth + 1), Tallied(j.a, r4.cur, m1, depth + 1), depth);
      CellTaken(j, r, r5, Tallied(j.a, r.cur, m, depth));
    }
  }

  lemma CellTaken(j: Job, r: Rd, r5: Rd, t: Tally)
    requires Grown(j, r, r5, t, 1)
    ensures Grown(j, r, TakeCell(j, r5), t, 1)
  {
  }

  lemma {:induction false} NodeCounts(j: Job, r: Rd, depth: nat, m: map<nat, Noun>)
    requires Ready(j, r, m) && depth <= j.lim.maxDepth
    ensures var d := DecodeNode(j, Entered(r, depth), depth);
            d.0.status.Fine? ==> Grown(j, r, d.0, Tallied(j.a, r.cur, m, depth), 1)
    decreases j.lim.maxDepth - depth, 1
  {
    hide BitAt, Represents, DecodeNode, DecodeMat, DecodeBackref, CellBranch, Limited, Tallied, Behind;
    NodeIs(j, Entered(r, depth), depth);
    if !BitAt(j.a, r.cur) {
      AtomCounts(j, r, depth, m);
    } else if BitAt(j.a, r.cur + 1) {
      BackrefCounts(j, r, depth, m);
    } else {
      CellCounts(j, r, depth, m);
    }
  }

  /** A node that is decoded adds what the plain decoder reads for it. */
  lemma {:induction false} DecodeCounts(j: Job, r: Rd, depth: nat, m: map<nat, Noun>)
    requires Ready(j, r, m)
    ensures var d := Decode(j, r, depth);
            d.0.status.Fine? ==> Grown(j, r, d.0, Tallied(j.a, r.cur, m, depth), 0)
    decreases j.lim.maxDepth - depth, 2
  {
    hide BitAt, Represents, Decode, DecodeNode, CueNode, Cue, Behind, NewFrom, CachePut, Limited, Tallied;
    DecodeIs(j, r, depth);
    if Decode(j, r, depth).0.status.Fine? {
      NodeCounts(j, r, depth, m);
      NodeAgrees(j, Entered(r, depth), depth, m);
      var (r4, n) := DecodeNode(j, Entered(r, depth), depth);
      if r4.status.Fine? {
        PutCosts(j, r4, r.cur, n, 0);
        if NoClash(j) && Homed(j, r) && r.cur < j.bits {
          PutHome(j, r4, r.cur, n);
        }
        PutAgrees(j, r4, CueNode(WIDE, j.a, r.cur, m).value.cache, r.cur, n, 0);
      }
    }
  }

  lemma {:induction false} TrailKeepsCounts(j: Job, r: Rd)
    ensures var t := Trail(j, r);
            && SameTable(r, t) && t.atomBytes == r.atomBytes
            && (t.status.Fine? ==> t.work - t.cur == r.work - r.cur && (if r.cur <= j.bits then t.cur == j.bits else t.cur == r.cur))
    decreases j.bits - r.cur
  {
    hide BitAt;
    if r.cur < j.bits {
      var (r1, bit) := ReadBit(j, r);
      if r1.status.Fine? && !bit {
        TrailKeepsCounts(j, r1);
      }
    }
  }

  /** The limits that these counts are subject to. */
  predicate TallyWithin(lim: Limits, bits: nat, t: Tally) {
    Price(bits, t) <= lim.maxWork && t.nodes <= lim.maxNodes && t.cells <= lim.maxCells && t.backrefs <= lim.maxBackrefs && t.atomBytes <= lim.maxTotalAtomBytes
    && t.widest <= lim.maxAtomBytes && t.depth <= lim.maxDepth
  }

  /** The counters of an accepted decode are the counts of what the plain decoder reads, its work is at
      least their price, and exactly that if no probes clash, and its table has as many entries as the
      plain decoder's. */
  lemma AcceptedCounts(j: Job)
    requires Bounded(j).0.status.Fine?
    ensures var (r, t) := (Bounded(j).0, Tallied(j.a, 0, map[], 1));
            && r.work >= Price(j.bits, t) && (NoClash(j) ==> r.work == Price(j.bits, t))
            && r.nodes == t.nodes && r.cells == t.cells && r.backrefs == t.backrefs && r.atomBytes == t.atomBytes && r.depth == t.depth
            && t.widest <= j.lim.maxAtomBytes
            && Cue(WIDE, j.a, 0, map[]).Some? && r.entries == |Cue(WIDE, j.a, 0, map[]).value.cache|
  {
    hide Decode, Cue, Trail, Represents, BitAt, Tallied;
    BeginReady(j);
    DecodeAgrees(j, Begin(j), 1, map[]);
    DecodeCounts(j, Begin(j), 1, map[]);
    TrailKeepsCounts(j, Decode(j, Begin(j), 1).0);
  }

  /** What is accepted is within the limits, and so an input that asks for more of anything is refused. */
  lemma AcceptedTally(j: Job)
    ensures Bounded(j).0.status.Fine? ==> TallyWithin(j.lim, j.bits, Tallied(j.a, 0, map[], 1))
    ensures !TallyWithin(j.lim, j.bits, Tallied(j.a, 0, map[], 1)) ==> !Bounded(j).0.status.Fine?
  {
    hide Bounded, Tallied, Cue;
    if Bounded(j).0.status.Fine? {
      AcceptedWithin(j);
      AcceptedCounts(j);
    }
  }
}
