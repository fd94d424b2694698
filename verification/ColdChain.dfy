/** What a valid medium holds: a chain of objects and the superblock that describes it. */
module ColdChain {
  import opened Bytes
  import opened ColdFormat

  predicate EntryOk(e: Entry) {
    BLOB <= e.kind <= SNAP && 0 < |e.payload| <= PAYLOAD_MAX
  }

  predicate EntriesOk(chain: seq<Entry>) {
    forall i :: 0 <= i < |chain| ==> EntryOk(chain[i])
  }

  /** The bytes an object takes, rounded up. */
  function Extent(e: Entry): (n: nat)
    ensures n % 8 == 0 && n >= OBJ_SIZE + |e.payload|
  {
    Align8(OBJ_SIZE + |e.payload|)
  }

  function Size(chain: seq<Entry>): (n: nat)
    ensures n % 8 == 0
  {
    if chain == [] then 0 else Extent(chain[0]) + Size(chain[1..])
  }

  /** A complete object of the given generation. */
  predicate ObjectAt(h: Hash, m: seq<Byte>, off: nat, generation: nat, e: Entry) {
    off + Extent(e) <= |m|
    && m[off..off + OBJ_SIZE] == HeaderBytes(h, generation, e, COMMIT)
    && m[off + OBJ_SIZE..off + OBJ_SIZE + |e.payload|] == e.payload
  }

  predicate ChainAt(h: Hash, m: seq<Byte>, off: nat, generation: nat, chain: seq<Entry>)
    decreases |chain|
  {
    chain == [] || (ObjectAt(h, m, off, generation, chain[0])
                    && ChainAt(h, m, off + Extent(chain[0]), generation + 1, chain[1..]))
  }

  function Logs(chain: seq<Entry>): nat {
    if chain == [] then 0 else (if chain[0].kind == LOG then 1 else 0) + Logs(chain[1..])
  }

  /** Offset and generation of the last snapshot of the chain, or what was there before. */
  function LastSnap(chain: seq<Entry>, off: nat, generation: nat, before: (nat, nat)): (nat, nat)
    decreases |chain|
  {
    if chain == [] then before
    else LastSnap(chain[1..], off + Extent(chain[0]), generation + 1, if chain[0].kind == SNAP then (off, generation) else before)
  }

  /** The superblock of a chain. */
  function SuperOf(chain: seq<Entry>): Super {
    var snap := LastSnap(chain, DATA0, 2, (0, 0));
    Super(|chain| + 1, snap.1, snap.0, DATA0 + Size(chain), Logs(chain))
  }

  // ----- Reading back what was written -----

  lemma SuperFieldsRead(s: Super, b: seq<Byte>)
    requires |b| >= 64 && b[..64] == SuperFields(s)
    ensures b[0..8] == LE(8, MAGIC) && b[8..12] == LE(4, VERSION) && b[12..16] == LE(4, SUPER_SIZE)
    ensures b[16..24] == LE(8, s.generation) && b[24..32] == LE(8, s.snapGeneration)
    ensures b[32..40] == LE(8, s.snapOff) && b[40..48] == LE(8, s.dataHead)
    ensures b[48..56] == LE(8, s.logCount) && b[56..64] == LE(8, COMMIT)
  {
    hide LE, SuperFields;
    var f := SuperFields(s);
    SuperFieldsAre(s);
    PrefixSlices(b, f);
  }

  lemma PrefixSlices(b: seq<Byte>, f: seq<Byte>)
    requires |f| <= |b| && b[..|f|] == f
    ensures forall i, j :: 0 <= i <= j <= |f| ==> b[i..j] == f[i..j]
  {
    forall i, j | 0 <= i <= j <= |f|
      ensures b[i..j] == f[i..j]
    {
      assert b[..|f|][i..j] == b[i..j];
    }
  }

  lemma SuperFieldsAre(s: Super)
    ensures var f := SuperFields(s);
            && f[0..8] == LE(8, MAGIC) && f[8..12] == LE(4, VERSION) && f[12..16] == LE(4, SUPER_SIZE)
            && f[16..24] == LE(8, s.generation) && f[24..32] == LE(8, s.snapGeneration)
            && f[32..40] == LE(8, s.snapOff) && f[40..48] == LE(8, s.dataHead)
            && f[48..56] == LE(8, s.logCount) && f[56..64] == LE(8, COMMIT)
  {
    hide LE;
  }

  predicate Words(s: Super) {
    s.generation <= U64_MAX && s.snapGeneration <= U64_MAX && s.snapOff <= U64_MAX && s.dataHead <= U64_MAX && s.logCount <= U64_MAX
  }

  /** A written superblock reads back as itself and passes its checksum. */
  lemma SuperReadsBack(h: Hash, s: Super)
    requires Words(s)
    ensures var b := SuperBytes(h, s);
            ReadSuper(b) == s && SuperHeaderOk(b) && Field(b, 56, 8) == COMMIT && b[96..128] == Zeros(32) && ChecksumOk(h, b)
  {
    var b := SuperBytes(h, s);
    assert b[..64] == SuperFields(s) && b[64..96] == h(SuperFields(s)) && b[96..128] == Zeros(32);
    SuperFieldsRead(s, b);
    hide LE, FromLE, SuperBytes, SuperFields;
    SuperWords(s, b);
  }

  lemma SuperWords(s: Super, b: seq<Byte>)
    requires |b| == SUPER_SIZE && Words(s)
    requires b[0..8] == LE(8, MAGIC) && b[8..12] == LE(4, VERSION) && b[12..16] == LE(4, SUPER_SIZE)
    requires b[16..24] == LE(8, s.generation) && b[24..32] == LE(8, s.snapGeneration)
    requires b[32..40] == LE(8, s.snapOff) && b[40..48] == LE(8, s.dataHead)
    requires b[48..56] == LE(8, s.logCount) && b[56..64] == LE(8, COMMIT)
    ensures ReadSuper(b) == s && SuperHeaderOk(b) && Field(b, 56, 8) == COMMIT
  {
    hide LE, FromLE;
    Word64(MAGIC);
    Word64(COMMIT);
    Word32(VERSION);
    Word32(SUPER_SIZE);
    Word64(s.generation);
    Word64(s.snapGeneration);
    Word64(s.snapOff);
    Word64(s.dataHead);
    Word64(s.logCount);
  }

  lemma HeaderFieldsRead(h: Hash, generation: nat, e: Entry, c: nat, b: seq<Byte>)
    requires b == HeaderBytes(h, generation, e, c)
    ensures b[0..8] == LE(8, OBJ_MAGIC) && b[8..12] == LE(4, VERSION) && b[12..16] == LE(4, OBJ_SIZE)
    ensures b[16..20] == LE(4, e.kind) && b[20..24] == LE(4, 0) && b[24..32] == LE(8, generation)
    ensures b[32..40] == LE(8, |e.payload|) && b[40..72] == h(e.payload)
    ensures b[..72] == HeaderFields(h, generation, e) && b[72..104] == h(HeaderFields(h, generation, e))
    ensures b[104..112] == LE(8, c)
  {
    hide LE, HeaderFields;
    var f := HeaderFields(h, generation, e);
    HeaderFieldsAre(h, generation, e);
    assert b[..72] == f;
    PrefixSlices(b, f);
  }

  lemma HeaderFieldsAre(h: Hash, generation: nat, e: Entry)
    ensures var f := HeaderFields(h, generation, e);
            && f[0..8] == LE(8, OBJ_MAGIC) && f[8..12] == LE(4, VERSION) && f[12..16] == LE(4, OBJ_SIZE)
            && f[16..20] == LE(4, e.kind) && f[20..24] == LE(4, 0) && f[24..32] == LE(8, generation)
            && f[32..40] == LE(8, |e.payload|) && f[40..72] == h(e.payload)
  {
    hide LE;
  }

  lemma AlignShift(off: nat, n: nat)
    requires off % 8 == 0
    ensures Align8(off + n) == off + Align8(n)
  {
  }

  /** A complete object within the data area validates, and its header says what it is. */
  lemma ObjectValidates(h: Hash, m: seq<Byte>, dataHead: nat, off: nat, generation: nat, e: Entry)
    requires |m| == SIZE && ObjectAt(h, m, off, generation, e) && EntryOk(e) && 0 < generation <= U64_MAX
    requires DATA0 <= off && off % 8 == 0 && off + Extent(e) <= dataHead <= SIZE
    ensures ObjectValidate(h, m, dataHead, off, 0, generation) == Valid
    ensures ObjectValidate(h, m, dataHead, off, e.kind, generation) == Valid
    ensures ObjectValidate(h, m, dataHead, off, 0, 0) == Valid
    ensures ObjectValidate(h, m, dataHead, off, e.kind, 0) == Valid
    ensures KindAt(m, off) == e.kind && LenAt(m, off) == |e.payload| && GenerationAt(m, off) == generation
    ensures NextOff(m, off) == off + Extent(e)
  {
    hide LE, FromLE, HeaderBytes, HeaderFields, Align8, Field;
    HeaderReads(h, generation, e, m[off..off + OBJ_SIZE]);
    AlignShift(off, OBJ_SIZE + |e.payload|);
  }

  /** The fields of a complete header. */
  lemma HeaderReads(h: Hash, generation: nat, e: Entry, b: seq<Byte>)
    requires b == HeaderBytes(h, generation, e, COMMIT) && EntryOk(e) && generation <= U64_MAX
    ensures Field(b, 0, 8) == OBJ_MAGIC && Field(b, 8, 4) == VERSION && Field(b, 12, 4) == OBJ_SIZE
    ensures Field(b, 16, 4) == e.kind && Field(b, 20, 4) == 0 && Field(b, 24, 8) == generation
    ensures Field(b, 32, 8) == |e.payload| && Field(b, 104, 8) == COMMIT
    ensures b[40..72] == h(e.payload) && h(b[..72]) == b[72..104]
  {
    HeaderFieldsRead(h, generation, e, COMMIT, b);
    hide LE, FromLE, HeaderBytes, HeaderFields;
    Word64(OBJ_MAGIC);
    Word64(COMMIT);
    Word32(VERSION);
    Word32(OBJ_SIZE);
    Word32(0);
    Word32(e.kind);
    Word64(generation);
    Word64(|e.payload|);
  }

  // ----- The walk over a chain -----

  lemma {:induction false} LastSnapPlace(chain: seq<Entry>, off: nat, generation: nat, before: (nat, nat))
    ensures var r := LastSnap(chain, off, generation, before);
            (r == before || r.0 >= off) && (chain != [] && chain[0].kind != SNAP ==> r == before || r.0 > off)
  {
    if chain != [] {
      LastSnapPlace(chain[1..], off + Extent(chain[0]), generation + 1, if chain[0].kind == SNAP then (off, generation) else before);
    }
  }

  function SeenAfter(seen: Seen, e: Entry): Seen {
    Seen(seen.off + Extent(e), seen.expected + 1, seen.logs + (if e.kind == LOG then 1 else 0),
         if e.kind == SNAP then seen.off else seen.snapOff, if e.kind == SNAP then seen.expected else seen.snapGeneration)
  }

  lemma WalkStep(h: Hash, m: seq<Byte>, s: Super, seen: Seen, e: Entry)
    requires |m| == SIZE && ObjectAt(h, m, seen.off, seen.expected, e) && EntryOk(e) && 0 < seen.expected < U64_MAX
    requires DATA0 <= seen.off && seen.off % 8 == 0 && seen.off + Extent(e) <= s.dataHead <= SIZE
    requires s.snapOff == seen.off ==> e.kind == SNAP
    ensures WalkOne(h, m, s, seen) == (Valid, SeenAfter(seen, e))
  {
    hide ObjectValidate, ObjectAt, NextOff, KindAt, GenerationAt, Extent, EntryOk;
    ObjectValidates(h, m, s.dataHead, seen.off, seen.expected, e);
  }

  /** The walk of `super_validate` accepts a superblock that describes the chain. */
  lemma {:induction false} WalkChain(h: Hash, m: seq<Byte>, s: Super, seen: Seen, chain: seq<Entry>)
    requires |m| == SIZE && EntriesOk(chain) && ChainAt(h, m, seen.off, seen.expected, chain)
    requires DATA0 <= seen.off && seen.off % 8 == 0 && seen.off + Size(chain) == s.dataHead <= SIZE
    requires 0 < seen.expected && seen.expected + |chain| == s.generation + 1 <= U64_MAX
    requires seen.logs + Logs(chain) == s.logCount && seen.snapOff < seen.off
    requires LastSnap(chain, seen.off, seen.expected, (seen.snapOff, seen.snapGeneration)) == (s.snapOff, s.snapGeneration)
    ensures Walk(h, m, s, seen) == Valid
    decreases |chain|
  {
    hide ObjectAt, WalkOne, Extent, EntryOk;
    if chain != [] {
      var e := chain[0];
      LastSnapPlace(chain, seen.off, seen.expected, (seen.snapOff, seen.snapGeneration));
      WalkStep(h, m, s, seen, e);
      var next := SeenAfter(seen, e);
      assert Walk(h, m, s, seen) == Walk(h, m, s, next);
      WalkChain(h, m, s, next, chain[1..]);
    }
  }

  // ----- Appending to a chain -----

  lemma {:induction false} ChainSnoc(h: Hash, m: seq<Byte>, off: nat, generation: nat, chain: seq<Entry>, e: Entry)
    requires ChainAt(h, m, off, generation, chain)
    requires ObjectAt(h, m, off + Size(chain), generation + |chain|, e)
    ensures ChainAt(h, m, off, generation, chain + [e])
    decreases |chain|
  {
    hide ObjectAt, Extent;
    var longer := chain + [e];
    if chain == [] {
      assert longer[1..] == [];
    } else {
      ChainSnoc(h, m, off + Extent(chain[0]), generation + 1, chain[1..], e);
      assert longer[1..] == chain[1..] + [e];
    }
  }

  lemma {:induction false} SizeSnoc(chain: seq<Entry>, e: Entry)
    ensures Size(chain + [e]) == Size(chain) + Extent(e)
    ensures Logs(chain + [e]) == Logs(chain) + if e.kind == LOG then 1 else 0
  {
    hide Extent;
    var longer := chain + [e];
    if chain == [] {
      assert longer[1..] == [];
    } else {
      SizeSnoc(chain[1..], e);
      assert longer[1..] == chain[1..] + [e];
    }
  }

  lemma {:induction false} LastSnapSnoc(chain: seq<Entry>, e: Entry, off: nat, generation: nat, before: (nat, nat))
    ensures LastSnap(chain + [e], off, generation, before)
         == if e.kind == SNAP then (off + Size(chain), generation + |chain|) else LastSnap(chain, off, generation, before)
    decreases |chain|
  {
    hide Extent;
    var longer := chain + [e];
    if chain == [] {
      assert longer[1..] == [];
    } else {
      LastSnapSnoc(chain[1..], e, off + Extent(chain[0]), generation + 1, if chain[0].kind == SNAP then (off, generation) else before);
      assert longer[1..] == chain[1..] + [e];
    }
  }

  /** The superblock that `append_obj` derives from the selected one. */
  function NextSuper(last: Super, kind: nat, off: nat, newHead: nat): Super {
    Super(last.generation + 1,
          if kind == SNAP then last.generation + 1 else last.snapGeneration,
          if kind == SNAP then off else last.snapOff,
          newHead,
          if kind == LOG then last.logCount + 1 else last.logCount)
  }

  /** It is the superblock of the longer chain. */
  lemma NextSuperIs(chain: seq<Entry>, e: Entry)
    ensures var s := SuperOf(chain);
            SuperOf(chain + [e]) == NextSuper(s, e.kind, s.dataHead, s.dataHead + Extent(e))
  {
    hide Extent, LastSnap;
    SizeSnoc(chain, e);
    LastSnapSnoc(chain, e, DATA0, 2, (0, 0));
  }

  /** A chain depends only on the bytes it covers. */
  lemma {:induction false} ChainFrame(h: Hash, m: seq<Byte>, m': seq<Byte>, off: nat, z: nat, generation: nat, chain: seq<Entry>)
    requires ChainAt(h, m, off, generation, chain) && Agree(m, m', off, z) && off + Size(chain) <= z
    ensures ChainAt(h, m', off, generation, chain)
    decreases |chain|
  {
    hide ObjectAt, Extent, Agree;
    if chain != [] {
      var e := chain[0];
      var next := off + Extent(e);
      ObjectFrame(h, m, m', off, z, generation, e);
      AgreeWithin(m, m', off, z, next, z);
      ChainFrame(h, m, m', next, z, generation + 1, chain[1..]);
    }
  }

  lemma ObjectFrame(h: Hash, m: seq<Byte>, m': seq<Byte>, off: nat, z: nat, generation: nat, e: Entry)
    requires ObjectAt(h, m, off, generation, e) && Agree(m, m', off, z) && off + Extent(e) <= z
    ensures ObjectAt(h, m', off, generation, e)
  {
    hide HeaderBytes;
    AgreeSlice(m, m', off, z, off, off + OBJ_SIZE);
    AgreeSlice(m, m', off, z, off + OBJ_SIZE, off + OBJ_SIZE + |e.payload|);
  }

  // ----- Selecting -----

  lemma {:induction false} SuperRanges(chain: seq<Entry>, off: nat, generation: nat, before: (nat, nat))
    requires off % 8 == 0
    ensures |chain| * OBJ_SIZE <= Size(chain) && Logs(chain) <= |chain|
    ensures var r := LastSnap(chain, off, generation, before);
            r == before || (off <= r.0 < off + Size(chain) && r.0 % 8 == 0 && generation <= r.1 < generation + |chain|)
    decreases |chain|
  {
    hide Extent;
    if chain != [] {
      SuperRanges(chain[1..], off + Extent(chain[0]), generation + 1, if chain[0].kind == SNAP then (off, generation) else before);
    }
  }

  /** A medium whose slot holds the superblock of the chain laid out in its data area. */
  predicate Holds(h: Hash, m: seq<Byte>, chain: seq<Entry>, slot: nat) {
    |m| == SIZE && slot <= 1 && EntriesOk(chain) && ChainAt(h, m, DATA0, 2, chain)
    && DATA0 + Size(chain) <= SIZE && Block(m, slot) == SuperBytes(h, SuperOf(chain))
  }

  lemma HeldSuper(chain: seq<Entry>)
    requires DATA0 + Size(chain) <= SIZE
    ensures var s := SuperOf(chain);
            && Words(s) && 0 < s.generation < U64_MAX && DATA0 <= s.dataHead <= SIZE && s.dataHead % 8 == 0
            && (s.snapOff != 0 ==> DATA0 <= s.snapOff < s.dataHead) && s.snapOff % 8 == 0
  {
    SuperRanges(chain, DATA0, 2, (0, 0));
    hide LastSnap, Size, Logs;
  }

  lemma HeldIsValid(h: Hash, m: seq<Byte>, chain: seq<Entry>, slot: nat)
    requires Holds(h, m, chain, slot)
    ensures |m| == SIZE && slot <= 1
    ensures SuperValidate(h, m, SlotOff(slot)) == Valid && ReadSuper(Block(m, slot)) == SuperOf(chain)
  {
    HeldSuper(chain);
    SuperReadsBack(h, SuperOf(chain));
    WalkChain(h, m, SuperOf(chain), FIRST, chain);
    hide ReadSuper, SuperHeaderOk, ChecksumOk, Field, SuperBytes, Walk, ChainAt, Size, LastSnap, Logs;
  }

  /** The tests on a superblock that look at its own bytes only. */
  predicate Passes(h: Hash, b: seq<Byte>)
    requires |b| == SUPER_SIZE
  {
    SuperHeaderOk(b) && Field(b, 56, 8) == COMMIT && ChecksumOk(h, b)
  }

  /** The superblock of a shorter chain. */
  predicate Older(h: Hash, b: seq<Byte>, chain: seq<Entry>) {
    exists k: nat :: k < |chain| && b == SuperBytes(h, SuperOf(chain[..k]))
  }

  /** The other slot is free: it holds an older superblock, or bytes that do not pass. */
  predicate Free(h: Hash, b: seq<Byte>, chain: seq<Entry>)
    requires |b| == SUPER_SIZE
  {
    b[96..128] == Zeros(32) && (Passes(h, b) ==> Older(h, b, chain))
  }

  /** The invariant: one slot describes the whole chain, the other does not compete. */
  predicate Good(h: Hash, m: seq<Byte>, chain: seq<Entry>, slot: nat) {
    Holds(h, m, chain, slot) && Free(h, Block(m, 1 - slot), chain)
  }

  lemma OlderGeneration(h: Hash, b: seq<Byte>, chain: seq<Entry>)
    requires |b| == SUPER_SIZE && Older(h, b, chain) && DATA0 + Size(chain) <= SIZE
    ensures ReadSuper(b).generation < SuperOf(chain).generation
  {
    var k: nat :| k < |chain| && b == SuperBytes(h, SuperOf(chain[..k]));
    SizeTake(chain, k);
    HeldSuper(chain[..k]);
    SuperReadsBack(h, SuperOf(chain[..k]));
    hide SuperBytes, ReadSuper, Size, Logs, LastSnap;
  }

  lemma {:induction false} SizeTake(chain: seq<Entry>, k: nat)
    requires k <= |chain|
    ensures Size(chain[..k]) <= Size(chain)
    decreases |chain| - k
  {
    if k < |chain| {
      SizeTake(chain, k + 1);
      assert chain[..k + 1] == chain[..k] + [chain[k]];
      SizeSnoc(chain[..k], chain[k]);
    } else {
      assert chain[..k] == chain;
    }
  }

  lemma FreeIsNotNewer(h: Hash, m: seq<Byte>, chain: seq<Entry>, slot: nat)
    requires Good(h, m, chain, slot) && SuperValidate(h, m, SlotOff(1 - slot)) == Valid
    ensures ReadSuper(Block(m, 1 - slot)).generation < SuperOf(chain).generation
  {
    assert Passes(h, Block(m, 1 - slot)) by {
      hide ReadSuper, SuperHeaderOk, ChecksumOk, Field, Walk;
    }
    OlderGeneration(h, Block(m, 1 - slot), chain);
  }

  /** Selection finds the chain's superblock, in its slot. */
  lemma SelectFinds(h: Hash, m: seq<Byte>, chain: seq<Entry>, slot: nat)
    requires Good(h, m, chain, slot)
    ensures Select(h, m) == Selection(Valid, SuperOf(chain), slot)
  {
    hide SuperValidate, ReadSuper, SuperOf, Field, Holds, Free;
    HeldIsValid(h, m, chain, slot);
    if SuperValidate(h, m, SlotOff(1 - slot)) == Valid {
      FreeIsNotNewer(h, m, chain, slot);
    }
    BlocksAt(m);
  }

  lemma BlocksAt(m: seq<Byte>)
    requires |m| == SIZE
    ensures SlotOff(0) == SLOT0 && SlotOff(1) == SLOT1
    ensures Block(m, 0) == m[SLOT0..SLOT0 + SUPER_SIZE] && Block(m, 1) == m[SLOT1..SLOT1 + SUPER_SIZE]
  {
  }
}
