/** The on-media format of src/cold.c: superblocks, objects, and their validation. */
module ColdFormat {
  import opened Bytes

  const SIZE: nat := 0x0080_0000
  const MAGIC: nat := 0x32_444C_4F43_3249
  const VERSION: nat := 2
  const SUPER_SIZE: nat := 128
  const SLOT0: nat := 0
  const SLOT1: nat := 256
  const DATA0: nat := 0x1000
  const COMMIT: nat := 0xC011_D00D_C0DE_17ED
  const OBJ_MAGIC: nat := 0x32_4A42_4F43_3249
  const OBJ_SIZE: nat := 112
  const BLOB: nat := 1
  const LOG: nat := 2
  const SNAP: nat := 3
  const PAYLOAD_MAX: nat := 256 * 1024
  const U64_MAX: nat := 0xFFFF_FFFF_FFFF_FFFF

  datatype Result =
    | Valid | Empty | Corrupt | Unsupported | SuperblockBad | OffsetBad | AlignmentBad | HeaderBad | KindBad
    | LengthBad | HeaderDigestBad | PayloadDigestBad | GenerationBad | CommitBad | WriteFault

  /** The fields of a superblock that vary. */
  datatype Super = Super(generation: nat, snapGeneration: nat, snapOff: nat, dataHead: nat, logCount: nat)

  /** An object: its kind and its payload. */
  datatype Entry = Entry(kind: nat, payload: seq<Byte>)

  function SlotOff(slot: nat): nat {
    if slot == 0 then SLOT0 else SLOT1
  }

  // ----- Layout -----

  /** The 64 bytes of a superblock that its checksum covers. */
  function SuperFields(s: Super): (b: seq<Byte>)
    ensures |b| == 64
  {
    LE(8, MAGIC) + LE(4, VERSION) + LE(4, SUPER_SIZE) + LE(8, s.generation) + LE(8, s.snapGeneration)
    + LE(8, s.snapOff) + LE(8, s.dataHead) + LE(8, s.logCount) + LE(8, COMMIT)
  }

  function SuperBytes(h: Hash, s: Super): (b: seq<Byte>)
    ensures |b| == SUPER_SIZE
  {
    SuperFields(s) + h(SuperFields(s)) + Zeros(32)
  }

  /** The 72 bytes of an object header that its own digest covers. */
  function HeaderFields(h: Hash, generation: nat, e: Entry): (b: seq<Byte>)
    ensures |b| == 72
  {
    LE(8, OBJ_MAGIC) + LE(4, VERSION) + LE(4, OBJ_SIZE) + LE(4, e.kind) + LE(4, 0) + LE(8, generation)
    + LE(8, |e.payload|) + h(e.payload)
  }

  function HeaderBytes(h: Hash, generation: nat, e: Entry, commit: nat): (b: seq<Byte>)
    ensures |b| == OBJ_SIZE
  {
    HeaderFields(h, generation, e) + h(HeaderFields(h, generation, e)) + LE(8, commit)
  }

  function Align8(n: nat): (a: nat)
    ensures n <= a < n + 8 && a % 8 == 0
  {
    (n + 7) / 8 * 8
  }

  // ----- Validation -----

  function ReadSuper(b: seq<Byte>): Super
    requires |b| == SUPER_SIZE
  {
    Super(Field(b, 16, 8), Field(b, 24, 8), Field(b, 32, 8), Field(b, 40, 8), Field(b, 48, 8))
  }

  predicate SuperHeaderOk(b: seq<Byte>)
    requires |b| == SUPER_SIZE
  {
    Field(b, 0, 8) == MAGIC && Field(b, 8, 4) == VERSION && Field(b, 12, 4) == SUPER_SIZE
  }

  predicate ChecksumOk(h: Hash, b: seq<Byte>)
    requires |b| == SUPER_SIZE
  {
    h(b[..64]) == b[64..96]
  }

  /** `object_validate`: the result, and the kind, length and generation read. */
  function ObjectValidate(h: Hash, m: seq<Byte>, dataHead: nat, off: nat, kind: nat, generation: nat): Result
    requires |m| == SIZE && dataHead >= OBJ_SIZE
  {
    if off < DATA0 || off % 8 != 0 then AlignmentBad
    else if off > SIZE - OBJ_SIZE || off > dataHead - OBJ_SIZE then OffsetBad
    else
      var b := m[off..off + OBJ_SIZE];
      if Field(b, 0, 8) != OBJ_MAGIC || Field(b, 8, 4) != VERSION || Field(b, 12, 4) != OBJ_SIZE || Field(b, 20, 4) != 0 then HeaderBad
      else if (kind != 0 && Field(b, 16, 4) != kind) || !(BLOB <= Field(b, 16, 4) <= SNAP) then KindBad
      else if generation != 0 && Field(b, 24, 8) != generation then GenerationBad
      else
        var len := Field(b, 32, 8);
        if len == 0 || len > PAYLOAD_MAX || Align8(off + OBJ_SIZE + len) > dataHead || Align8(off + OBJ_SIZE + len) > SIZE then LengthBad
        else if Field(b, 104, 8) != COMMIT then CommitBad
        else if h(b[..72]) != b[72..104] then HeaderDigestBad
        else if h(m[off + OBJ_SIZE..off + OBJ_SIZE + len]) != b[40..72] then PayloadDigestBad
        else Valid
  }

  function KindAt(m: seq<Byte>, off: nat): nat
    requires off + OBJ_SIZE <= |m|
  {
    Field(m[off..off + OBJ_SIZE], 16, 4)
  }

  function LenAt(m: seq<Byte>, off: nat): nat
    requires off + OBJ_SIZE <= |m|
  {
    Field(m[off..off + OBJ_SIZE], 32, 8)
  }

  function GenerationAt(m: seq<Byte>, off: nat): nat
    requires off + OBJ_SIZE <= |m|
  {
    Field(m[off..off + OBJ_SIZE], 24, 8)
  }

  /** Where the object after the one at `off` starts. */
  function NextOff(m: seq<Byte>, off: nat): nat
    requires off + OBJ_SIZE <= |m|
  {
    Align8(off + OBJ_SIZE + LenAt(m, off))
  }

  /** What the walk over the objects has seen. */
  datatype Seen = Seen(off: nat, expected: nat, logs: nat, snapOff: nat, snapGeneration: nat)

  const FIRST: Seen := Seen(DATA0, 2, 0, 0, 0)

  /** One turn of the loop of `super_validate`. */
  function WalkOne(h: Hash, m: seq<Byte>, s: Super, seen: Seen): (Result, Seen)
    requires |m| == SIZE && s.dataHead >= DATA0 && seen.off < s.dataHead
  {
    var r := ObjectValidate(h, m, s.dataHead, seen.off, 0, seen.expected);
    if r != Valid then (r, seen)
    else
      var kind := KindAt(m, seen.off);
      if seen.off == s.snapOff && kind != SNAP then (KindBad, seen)
      else if seen.expected == U64_MAX then (GenerationBad, seen)
      else (Valid, Seen(NextOff(m, seen.off), seen.expected + 1, seen.logs + (if kind == LOG then 1 else 0),
                        if kind == SNAP then seen.off else seen.snapOff,
                        if kind == SNAP then GenerationAt(m, seen.off) else seen.snapGeneration))
  }

  function Walk(h: Hash, m: seq<Byte>, s: Super, seen: Seen): Result
    requires |m| == SIZE && s.dataHead >= DATA0
    decreases s.dataHead - seen.off
  {
    if seen.off < s.dataHead then
      var (r, next) := WalkOne(h, m, s, seen);
      if r != Valid then r else Walk(h, m, s, next)
    else if seen.off != s.dataHead || seen.expected != s.generation + 1 || seen.logs != s.logCount
        || s.snapOff != seen.snapOff || s.snapGeneration != seen.snapGeneration then GenerationBad
    else Valid
  }

  /** `super_validate`. */
  function SuperValidate(h: Hash, m: seq<Byte>, off: nat): Result
    requires |m| == SIZE && off + SUPER_SIZE <= SIZE
  {
    var b := m[off..off + SUPER_SIZE];
    var s := ReadSuper(b);
    if !SuperHeaderOk(b) then HeaderBad
    else if s.generation == 0 || s.generation == U64_MAX || Field(b, 56, 8) != COMMIT || b[96..128] != Zeros(32)
        || !ChecksumOk(h, b) then SuperblockBad
    else if s.dataHead < DATA0 || s.dataHead > SIZE || s.dataHead % 8 != 0 then OffsetBad
    else if s.snapOff != 0 && (s.snapOff < DATA0 || s.snapOff >= s.dataHead) then OffsetBad
    else if s.snapOff % 8 != 0 then AlignmentBad
    else Walk(h, m, s, FIRST)
  }

  datatype Selection = Selection(result: Result, super: Super, slot: nat)

  const NOTHING: Super := Super(0, 0, 0, 0, 0)

  function Block(m: seq<Byte>, slot: nat): (b: seq<Byte>)
    requires |m| == SIZE
    ensures |b| == SUPER_SIZE
  {
    m[SlotOff(slot)..SlotOff(slot) + SUPER_SIZE]
  }

  /** `select_super`. */
  function Select(h: Hash, m: seq<Byte>): Selection
    requires |m| == SIZE
  {
    var (b0, b1) := (Block(m, 0), Block(m, 1));
    var (a, b) := (ReadSuper(b0), ReadSuper(b1));
    var (ra, rb) := (SuperValidate(h, m, SLOT0), SuperValidate(h, m, SLOT1));
    if ra == Valid || rb == Valid then
      if ra == Valid && rb == Valid && a.generation == b.generation && b0 != b1 then Selection(Corrupt, NOTHING, 0)
      else if ra != Valid || (rb == Valid && b.generation > a.generation) then Selection(Valid, b, 1)
      else Selection(Valid, a, 0)
    else if m == Zeros(SIZE) then Selection(Empty, NOTHING, 0)
    else if (Field(b0, 0, 8) == MAGIC && Field(b0, 8, 4) != VERSION) || (Field(b1, 0, 8) == MAGIC && Field(b1, 8, 4) != VERSION) then
      Selection(Unsupported, NOTHING, 0)
    else Selection(Corrupt, NOTHING, 0)
  }
}
