/** The bounded decoder against the plain one. */
module BoundedCueSound {
  import opened Nouns
  import opened Arith
  import opened Bits
  import opened Cues
  import opened Probe
  import opened BoundedCues
  import AtomStore
  import Knuth

  /** The plain decode, with room for the bounded decoder's atoms, and without the wrap of the
      plain decoder's length. */
  const WIDE: Dims := Dims(MAX_LIMBS, 1048576, false)

  /** The status is a limit, and the counters show that it is passed; or it is a refused allocation,
      and the memory shows that it had to be refused. */
  predicate Limited(j: Job, r: Rd) {
    var lim := j.lim;
    match r.status
    case Work(n) => r.work + n > lim.maxWork
    case Depth => r.depth >= lim.maxDepth
    case Nodes => r.nodes > lim.maxNodes
    case Cells => r.cells > lim.maxCells
    case BackrefLimit => r.backrefs > lim.maxBackrefs
    case CacheFull => r.entries >= lim.maxEntries
    case AtomLimit(b) => b > lim.maxAtomBytes || r.atomBytes + b > lim.maxTotalAtomBytes
    case NoAtom(v) => AtomStore.Made(j.mem.terms, r.ledger, v).None?
    case NoCell => j.mem.terms.noalloc || r.top >= j.mem.limit
    case Busy => j.mem.busy
    case _ => false
  }

  lemma BitStep(j: Job, r: Rd)
    requires r.status.Fine?
    ensures var (r1, bit) := ReadBit(j, r);
            if r1.status.Fine? then r.cur < j.bits && bit == BitAt(j.a, r.cur) && r1 == r.(cur := r.cur + 1, work := r.work + 1)
            else Limited(j, r1) || r.cur >= j.bits
  {
    hide BitAt;
  }

  /** What reading a number found out about the plain reading of it. */
  predicate Beyond(j: Job, end: Option<nat>) {
    end.None? || end.value > j.bits
  }

  lemma {:induction false} ZerosAgree(j: Job, r: Rd, z: nat)
    requires r.status.Fine? && z <= 63
    ensures var (r1, n) := MatZeros(j, r, z); var plain := CountZeros(j.a, r.cur, z);
            if r1.status.Fine? then plain == Some((n, r1.cur - 1)) && r.cur < r1.cur <= j.bits
            else Limited(j, r1) || plain.None? || plain.value.1 >= j.bits || plain.value.0 > 63
    decreases 64 - z
  {
    hide BitAt, ReadBit;
    BitStep(j, r);
    var (r1, bit) := ReadBit(j, r);
    ZerosPlace(j.a, r.cur, z);
    if r1.status.Fine? && !bit && z + 1 <= 63 {
      ZerosAgree(j, r1, z + 1);
    } else if r1.status.Fine? && !bit {
      ZerosPlace(j.a, r.cur + 1, z + 1);
    }
  }

  lemma {:induction false} ZerosPlace(a: nat, cur: nat, z: nat)
    requires z <= 64
    ensures var plain := CountZeros(a, cur, z); plain.Some? ==> plain.value.0 >= z && plain.value.1 >= cur
    decreases 65 - z
  {
    hide BitAt;
    if !BitAt(a, cur) && z + 1 <= 64 {
      ZerosPlace(a, cur + 1, z + 1);
    }
  }

  lemma {:induction false} ReadNAgrees(j: Job, r: Rd, n: nat)
    requires r.status.Fine?
    ensures var (r1, v) := ReadN(j, r, n);
            if r1.status.Fine? then v == ReadBits(j.a, r.cur, n) && r1.cur == r.cur + n && (n > 0 ==> r1.cur <= j.bits)
            else Limited(j, r1) || r.cur + n > j.bits
    decreases n
  {
    hide BitAt, ReadBit;
    if n > 0 {
      BitStep(j, r);
      var (r1, _) := ReadBit(j, r);
      if r1.status.Fine? {
        ReadNAgrees(j, r1, n - 1);
      }
    }
  }

  /** Where the plain reading of a number ends. */
  function End(r: Option<(nat, nat)>): Option<nat> {
    if r.None? then None else Some(r.value.1)
  }

  lemma LongLength(z: nat)
    requires 63 < z <= 64
    ensures Pow2(z - 1) > 64 * MAX_LIMBS
  {
    Knuth.Pow64();
    assert Pow2(64) == 2 * Pow2(63);
  }

  /** The head of a number. */
  lemma LengthAgrees(j: Job, r: Rd)
    requires r.status.Fine?
    ensures var (r1, bits) := MatHead(j, r); var plain := Rub(MAX_LIMBS, false, j.a, r.cur);
            if r1.status.Fine? then
              r.cur < r1.cur <= j.bits
              && plain == (if bits == 0 then Some((0, r1.cur))
                           else if (bits + 63) / 64 > MAX_LIMBS then None
                           else Some((ReadBits(j.a, r1.cur, bits), r1.cur + bits)))
            else Limited(j, r1) || Beyond(j, End(plain))
  {
    hide BitAt, CountZeros, MatZeros, ReadN, ReadBits, Pow2;
    ZerosAgree(j, r, 0);
    var (r1, z) := MatZeros(j, r, 0);
    var zeros := CountZeros(j.a, r.cur, 0);
    if r1.status.Fine? && z > 0 {
      ReadNAgrees(j, r1, z - 1);
    } else if !r1.status.Fine? && zeros.Some? && zeros.value.0 > 63 {
      LongLength(zeros.value.0);
    }
  }

  /** Reading a number: success is the plain reading, and failure is a limit or an end out of
      reach. */
  lemma MatAgrees(j: Job, r: Rd)
    requires r.status.Fine?
    ensures var (r1, v) := DecodeMat(j, r); var plain := Rub(MAX_LIMBS, false, j.a, r.cur);
            if r1.status.Fine? then plain == Some((v, r1.cur)) && r.cur < r1.cur <= j.bits
            else Limited(j, r1) || Beyond(j, End(plain))
  {
    hide BitAt, Rub, MatHead, ReadN, ReadBits;
    LengthAgrees(j, r);
    var (r1, bits) := MatHead(j, r);
    if r1.status.Fine? && bits > 0 {
      var r2 := Admit(j, r1, (bits + 7) / 8);
      if r2.status.Fine? {
        ReadNAgrees(j, r2, bits);
      }
    }
  }

  // ----- The table -----

  /** The table stands for the plain decoder's map, and the entry count is the map's. */
  ghost predicate Mirrors(j: Job, r: Rd, m: map<nat, Noun>) {
    RdOk(r) && Represents(ShapeOf(j), r.table, m) && r.entries == |m| <= j.lim.maxEntries
  }

  /** The counters a table operation leaves alone. */
  predicate SamePlace(r: Rd, r': Rd) {
    r'.cur == r.cur && r'.nodes == r.nodes && r'.cells == r.cells && r'.backrefs == r.backrefs && r'.depth == r.depth
    && r'.atomBytes == r.atomBytes
  }

  lemma {:induction false} PutAgrees(j: Job, r: Rd, m: map<nat, Noun>, pos: nat, val: Noun, i: nat)
    requires JobOk(j) && r.status.Fine? && Mirrors(j, r, m)
    requires i <= j.lim.maxEntries && Find(ShapeOf(j), r.table, pos, 0) == Find(ShapeOf(j), r.table, pos, i)
    ensures var r1 := CachePut(j, r, pos, val, i);
            && SamePlace(r, r1)
            && (if r1.status.Fine? then Mirrors(j, r1, m[pos := val]) else Limited(j, r1))
    decreases j.lim.maxEntries - i
  {
    hide At, Represents;
    var p := ShapeOf(j);
    if i >= j.lim.maxEntries {
      FullIs(p, r.table, m, pos);
    } else {
      var r1 := Charge(j, r, 1);
      if r1.status.Fine? {
        var at := At(p, pos, i);
        if r1.table[at].Vacant? || r1.table[at].key == pos {
          GetIs(p, r.table, m, pos);
          PutIs(p, r.table, m, pos, val);
        } else {
          PutAgrees(j, r1, m, pos, val, i + 1);
        }
      }
    }
  }

  lemma {:induction false} GetAgrees(j: Job, r: Rd, m: map<nat, Noun>, pos: nat, i: nat)
    requires JobOk(j) && r.status.Fine? && Mirrors(j, r, m)
    requires i <= j.lim.maxEntries && Find(ShapeOf(j), r.table, pos, 0) == Find(ShapeOf(j), r.table, pos, i)
    ensures var (r1, v) := CacheGet(j, r, pos, i);
            && SamePlace(r, r1) && Mirrors(j, r1, m)
            && (if r1.status.Fine? then pos in m && v == m[pos] else Limited(j, r1) || pos !in m)
    decreases j.lim.maxEntries - i
  {
    hide At, Represents;
    var p := ShapeOf(j);
    GetIs(p, r.table, m, pos);
    if i < j.lim.maxEntries {
      var r1 := Charge(j, r, 1);
      if r1.status.Fine? {
        var at := At(p, pos, i);
        if !(r1.table[at].Vacant? || r1.table[at].key == pos) {
          GetAgrees(j, r1, m, pos, i + 1);
        }
      }
    }
  }

  // ----- Nouns -----

  function CuedEnd(c: Option<Cued>): Option<nat> {
    if c.None? then None else Some(c.value.cur)
  }

  /** The bounded decoder's outcome beside the plain decoder's: success is the plain noun, with the
      table standing for the plain table; failure is a limit, or a plain decode that fails or runs
      past the input. */
  ghost predicate Agrees(j: Job, d: (Rd, Noun), plain: Option<Cued>) {
    if d.0.status.Fine? then
      plain.Some? && d.1 == plain.value.noun && d.0.cur == plain.value.cur <= j.bits && Mirrors(j, d.0, plain.value.cache)
    else Limited(j, d.0) || Beyond(j, CuedEnd(plain))
  }

  /** A reader about to decode a node: nothing is stored yet from the cursor on. */
  ghost predicate Ready(j: Job, r: Rd, m: map<nat, Noun>) {
    JobOk(j) && r.status.Fine? && Mirrors(j, r, m) && Behind(m, r.cur)
  }

  /** What a success leaves: the plain table covers what was read, and nothing before it changed. */
  ghost predicate Leaves(m: map<nat, Noun>, start: nat, d: (Rd, Noun), plain: Option<Cued>) {
    d.0.status.Fine? && plain.Some? ==>
      Behind(plain.value.cache, plain.value.cur) && NewFrom(m, plain.value.cache, start) && start < plain.value.cur
  }

  lemma AtomAgrees(j: Job, r: Rd, m: map<nat, Noun>)
    requires Ready(j, r, m) && !BitAt(j.a, r.cur)
    ensures var r1 := r.(cur := r.cur + 1, work := r.work + 1); var (r2, v) := DecodeMat(j, r1);
            && Agrees(j, (r2, Atom(v)), CueNode(WIDE, j.a, r.cur, m))
            && Leaves(m, r.cur + 1, (r2, Atom(v)), CueNode(WIDE, j.a, r.cur, m))
  {
    hide BitAt, Rub, DecodeMat, Represents;
    var r1 := r.(cur := r.cur + 1, work := r.work + 1);
    MatAgrees(j, r1);
    MatKeepsTable(j, r1);
    var rub := Rub(MAX_LIMBS, false, j.a, r.cur + 1);
    PlainAtom(j.a, r.cur, m);
  }

  lemma PlainAtom(a: nat, cur: nat, m: map<nat, Noun>)
    requires !BitAt(a, cur)
    ensures CueNode(WIDE, a, cur, m) ==
              (var v := Rub(MAX_LIMBS, false, a, cur + 1); if v.None? then None else Some(Cued(Atom(v.value.0), v.value.1, m)))
  {
    hide BitAt, Rub, Cue;
  }

  lemma PlainBackref(a: nat, cur: nat, m: map<nat, Noun>)
    requires BitAt(a, cur) && BitAt(a, cur + 1)
    ensures CueNode(WIDE, a, cur, m) ==
              (var v := Rub(MAX_LIMBS, false, a, cur + 2);
               if v.None? || v.value.0 >= DIRECT_LIMIT || v.value.0 !in m then None else Some(Cued(m[v.value.0], v.value.1, m)))
  {
    hide BitAt, Rub, Cue;
  }

  lemma PlainCell(a: nat, cur: nat, m: map<nat, Noun>)
    requires BitAt(a, cur) && !BitAt(a, cur + 1)
    ensures CueNode(WIDE, a, cur, m) ==
              (var head := Cue(WIDE, a, cur + 2, m);
               if head.None? then None else
               var tail := Cue(WIDE, a, head.value.cur, head.value.cache);
               if tail.None? then None else Some(tail.value.(noun := Cell(head.value.noun, tail.value.noun))))
  {
    hide BitAt, Cue;
  }

  lemma BackrefAgrees(j: Job, r: Rd, m: map<nat, Noun>)
    requires Ready(j, r, m) && BitAt(j.a, r.cur) && BitAt(j.a, r.cur + 1)
    ensures var d := DecodeBackref(j, r.(cur := r.cur + 2, work := r.work + 2), r.cur);
            && Agrees(j, d, CueNode(WIDE, j.a, r.cur, m))
            && Leaves(m, r.cur + 1, d, CueNode(WIDE, j.a, r.cur, m))
  {
    hide BitAt, Rub, DecodeMat, Represents, CacheGet;
    var r3 := r.(cur := r.cur + 2, work := r.work + 2, backrefs := r.backrefs + 1);
    MatAgrees(j, r3);
    MatKeepsTable(j, r3);
    PlainBackref(j.a, r.cur, m);
    var (r4, pos) := DecodeMat(j, r3);
    if r4.status.Fine? {
      GetAgrees(j, r4, m, pos, 0);
    }
  }

  lemma BehindFrom(m: map<nat, Noun>, cur: nat, later: nat)
    requires Behind(m, cur) && cur <= later
    ensures Behind(m, later)
  {
  }

  lemma NewFromTwice(m: map<nat, Noun>, m1: map<nat, Noun>, m2: map<nat, Noun>, start: nat, cur: nat, mid: nat)
    requires NewFrom(m, m1, cur) && NewFrom(m1, m2, mid) && start <= cur <= mid
    ensures NewFrom(m, m2, start)
  {
  }

  /** The branch for a cell, behind its tag. */
  function CellBranch(j: Job, r3: Rd, depth: nat): (res: (Rd, Noun))
    requires JobOk(j) && RdOk(r3)
  {
    if r3.cells > j.lim.maxCells then (Fail(r3, Cells), Atom(0)) else
    if depth >= j.lim.maxDepth then (Fail(r3, Depth), Atom(0)) else
    DecodePair(j, r3, depth)
  }

  /** A cell, when both halves agree. */
  lemma {:induction false} CellAgrees(j: Job, r: Rd, depth: nat, m: map<nat, Noun>)
    requires Ready(j, r, m) && depth <= r.depth && BitAt(j.a, r.cur) && !BitAt(j.a, r.cur + 1)
    ensures var d := CellBranch(j, r.(cur := r.cur + 2, work := r.work + 2, cells := r.cells + 1), depth);
            Agrees(j, d, CueNode(WIDE, j.a, r.cur, m)) && Leaves(m, r.cur + 1, d, CueNode(WIDE, j.a, r.cur, m))
    decreases j.lim.maxDepth - depth, 0
  {
    hide BitAt, Represents, Decode, CueNode, Cue, Behind, NewFrom;
    var r3 := r.(cur := r.cur + 2, work := r.work + 2, cells := r.cells + 1);
    PlainCell(j.a, r.cur, m);
    BehindFrom(m, r.cur, r.cur + 2);
    if r3.cells <= j.lim.maxCells && depth < j.lim.maxDepth {
      DecodeAgrees(j, r3, depth + 1, m);
      var (r4, head) := Decode(j, r3, depth + 1);
      if r4.status.Fine? {
        var m1 := Cue(WIDE, j.a, r.cur + 2, m).value.cache;
        DecodeAgrees(j, r4, depth + 1, m1);
        if Decode(j, r4, depth + 1).0.status.Fine? {
          NewFromTwice(m, m1, Cue(WIDE, j.a, r4.cur, m1).value.cache, r.cur + 1, r.cur + 2, r4.cur);
        }
      }
    }
  }

  /** `DecodeNode`, branch by branch. */
  lemma NodeIs(j: Job, r: Rd, depth: nat)
    requires JobOk(j) && RdOk(r) && r.status.Fine? && depth <= j.lim.maxDepth
    ensures var d := DecodeNode(j, r, depth);
            if !d.0.status.Fine? && (Limited(j, d.0) || r.cur >= j.bits) then true
            else if !BitAt(j.a, r.cur) then
              var (r2, v) := DecodeMat(j, r.(cur := r.cur + 1, work := r.work + 1)); d == (r2, Atom(v))
            else if r.cur + 1 >= j.bits then !d.0.status.Fine?
            else if BitAt(j.a, r.cur + 1) then d == DecodeBackref(j, r.(cur := r.cur + 2, work := r.work + 2), r.cur)
            else d == CellBranch(j, r.(cur := r.cur + 2, work := r.work + 2, cells := r.cells + 1), depth)
  {
    hide BitAt, DecodeMat, DecodeBackref, Decode, ReadBit;
    BitStep(j, r);
    var (r1, tag0) := ReadBit(j, r);
    if r1.status.Fine? && tag0 {
      BitStep(j, r1);
    }
  }

  lemma PastEnd(j: Job, cur: nat, m: map<nat, Noun>)
    requires cur >= j.bits || (BitAt(j.a, cur) && cur + 1 >= j.bits)
    ensures Beyond(j, CuedEnd(CueNode(WIDE, j.a, cur, m)))
  {
    if BitAt(j.a, cur) {
      if BitAt(j.a, cur + 1) {
        PlainBackref(j.a, cur, m);
      } else {
        PlainCell(j.a, cur, m);
      }
    }
    hide BitAt, Rub, Cue;
  }

  lemma {:induction false} NodeAgrees(j: Job, r: Rd, depth: nat, m: map<nat, Noun>)
    requires Ready(j, r, m) && depth <= r.depth && depth <= j.lim.maxDepth
    ensures Agrees(j, DecodeNode(j, r, depth), CueNode(WIDE, j.a, r.cur, m))
    ensures Leaves(m, r.cur + 1, DecodeNode(j, r, depth), CueNode(WIDE, j.a, r.cur, m))
    decreases j.lim.maxDepth - depth, 1
  {
    hide BitAt, Represents, DecodeNode, CueNode, Behind, NewFrom, DecodeMat, DecodeBackref, CellBranch, Limited;
    NodeIs(j, r, depth);
    if r.cur >= j.bits || (BitAt(j.a, r.cur) && r.cur + 1 >= j.bits) {
      PastEnd(j, r.cur, m);
    }
    if !BitAt(j.a, r.cur) {
      AtomAgrees(j, r, m);
    } else if BitAt(j.a, r.cur + 1) {
      BackrefAgrees(j, r, m);
    } else {
      CellAgrees(j, r, depth, m);
    }
  }

  /** The reader as `decode_noun` has it when the node starts. */
  function Entered(r: Rd, depth: nat): Rd {
    r.(depth := if depth > r.depth then depth else r.depth, nodes := r.nodes + 1, work := r.work + 1)
  }

  /** `Decode`, from the node it decodes. */
  lemma DecodeIs(j: Job, r: Rd, depth: nat)
    requires JobOk(j) && RdOk(r) && r.status.Fine?
    ensures var d := Decode(j, r, depth);
            (!d.0.status.Fine? && Limited(j, d.0))
            || (depth <= j.lim.maxDepth
                && var (r4, n) := DecodeNode(j, Entered(r, depth), depth);
                   d == if r4.status.Fine? then (CachePut(j, r4, r.cur, n, 0), n) else (r4, n))
  {
    hide DecodeNode, CachePut;
  }

  /** `Cue`, from the node it decodes; the table has room. */
  lemma CueIs(a: nat, cur: nat, m: map<nat, Noun>)
    ensures var node := CueNode(WIDE, a, cur, m);
            && (node.None? ==> Cue(WIDE, a, cur, m).None?)
            && (node.Some? && |node.value.cache| <= TABLE_SIZE ==>
                  Cue(WIDE, a, cur, m) == Some(node.value.(cache := node.value.cache[cur := node.value.noun])))
            && (node.Some? && Cue(WIDE, a, cur, m).Some? ==> Cue(WIDE, a, cur, m).value.cur == node.value.cur)
  {
    hide CueNode;
  }

  lemma StoreLeaves(m: map<nat, Noun>, more: map<nat, Noun>, start: nat, end: nat, n: Noun)
    requires Behind(m, start) && NewFrom(m, more, start + 1) && Behind(more, end) && start < end
    ensures start !in more && Behind(more[start := n], end) && NewFrom(m, more[start := n], start)
  {
  }

  /** The bounded decoder agrees with the plain one, node for node. */
  lemma {:induction false} DecodeAgrees(j: Job, r: Rd, depth: nat, m: map<nat, Noun>)
    requires Ready(j, r, m)
    ensures Agrees(j, Decode(j, r, depth), Cue(WIDE, j.a, r.cur, m))
    ensures Leaves(m, r.cur, Decode(j, r, depth), Cue(WIDE, j.a, r.cur, m))
    decreases j.lim.maxDepth - depth, 2
  {
    hide BitAt, Represents, Decode, DecodeNode, CueNode, Cue, Behind, NewFrom, CachePut, Limited;
    DecodeIs(j, r, depth);
    CueIs(j.a, r.cur, m);
    if depth <= j.lim.maxDepth {
      var r3 := Entered(r, depth);
      NodeAgrees(j, r3, depth, m);
      var (r4, n) := DecodeNode(j, r3, depth);
      if r4.status.Fine? {
        var more := CueNode(WIDE, j.a, r.cur, m).value.cache;
        StoreLeaves(m, more, r.cur, r4.cur, n);
        PutAgrees(j, r4, more, r.cur, n, 0);
      }
    }
  }

  // ----- The whole input -----

  lemma {:induction false} NoKeys(t: seq<Entry<Noun>>)
    requires forall i :: 0 <= i < |t| ==> t[i] == Vacant
    ensures Values(t, map[]) && Once(t)
  {
  }

  lemma BeginReady(j: Job)
    requires JobOk(j)
    ensures Ready(j, Begin(j), map[])
  {
    NoKeys(Begin(j).table);
  }

  /** Acceptance is the plain decode: the noun is the plain decoder's, it ends within a byte of the
      input's end, and only zero bits follow. */
  lemma AcceptedIsPlain(j: Job)
    requires Bounded(j).0.status.Fine?
    ensures var plain := Cue(WIDE, j.a, 0, map[]);
            && plain.Some? && plain.value.noun == Bounded(j).1 && plain.value.cur <= j.bits < plain.value.cur + 8
            && forall i :: plain.value.cur <= i < j.bits ==> !BitAt(j.a, i)
  {
    hide Decode, Cue, Trail, Represents, BitAt;
    BeginReady(j);
    DecodeAgrees(j, Begin(j), 1, map[]);
    TrailZeros(j, Decode(j, Begin(j), 1).0);
  }

  lemma {:induction false} TrailZeros(j: Job, r: Rd)
    requires r.status.Fine?
    ensures var t := Trail(j, r);
            && (t.status.Fine? <==> (forall i :: r.cur <= i < j.bits ==> !BitAt(j.a, i)) && !Limited(j, t))
            && ((forall i :: r.cur <= i < j.bits ==> !BitAt(j.a, i)) ==> t.status.Fine? || Limited(j, t))
    decreases j.bits - r.cur
  {
    hide BitAt, ReadBit;
    BitStep(j, r);
    if r.cur < j.bits {
      var (r1, bit) := ReadBit(j, r);
      if r1.status.Fine? && !bit {
        TrailZeros(j, r1);
      }
    }
  }

  /** Every encoding of a noun is accepted, and gives the noun back, unless a limit is passed or an
      allocation is refused: the status then names which. */
  lemma JamAccepted(j: Job, c: Jams.Config, n: Jams.Wnoun, nouns: set<Jams.Wnoun>)
    requires Heap(nouns) && n in nouns && |Jams.Jam(c, n, Jams.Start()).bits| <= MAX_BITS
    requires var bits := Jams.Jam(c, n, Jams.Start()).bits;
             j.a == FromBits(bits) && j.bits == 8 * Jams.ByteCount(|bits|)
    requires JobOk(j) && j.bits / 8 <= j.lim.maxInputBytes
    ensures var (r, v) := Bounded(j);
            if r.status.Fine? then v == Jams.Strip(n) else Limited(j, r)
  {
    if j.mem.busy {
      return;
    }
    JamDecoded(j, c, n, nouns);
  }

  lemma JamDecoded(j: Job, c: Jams.Config, n: Jams.Wnoun, nouns: set<Jams.Wnoun>)
    requires Heap(nouns) && n in nouns && |Jams.Jam(c, n, Jams.Start()).bits| <= MAX_BITS
    requires var bits := Jams.Jam(c, n, Jams.Start()).bits;
             j.a == FromBits(bits) && j.bits == 8 * Jams.ByteCount(|bits|)
    requires JobOk(j) && j.bits / 8 <= j.lim.maxInputBytes && !j.mem.busy
    ensures var (r, v) := Bounded(j);
            if r.status.Fine? then v == Jams.Strip(n) else Limited(j, r)
  {
    var bits := Jams.Jam(c, n, Jams.Start()).bits;
    HoldsAll(bits);
    assert Sound(Jams.Start().cache.table, nouns, map[], {});
    hide Decode, Cue, Trail, Represents, BitAt, Holds, Sound, Heap, Jams.Jam, Jams.Strip, Limited, FromBits;
    Jams.JamExtends(c, n, Jams.Start());
    var more := Round(WIDE, c, n, Jams.Start(), j.a, nouns, map[], {});
    BeginReady(j);
    DecodeAgrees(j, Begin(j), 1, map[]);
    var r := Decode(j, Begin(j), 1).0;
    if r.status.Fine? {
      forall i | r.cur <= i < j.bits
        ensures !BitAt(j.a, i)
      {
        BitOf(bits, i);
      }
      TrailZeros(j, r);
    }
  }
}
