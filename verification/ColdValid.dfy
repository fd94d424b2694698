/** What validation accepts: exactly complete objects, exactly superblocks that describe the chain of
    objects in the data area, and of two such the newer. */
module ColdValid {
  import opened Bytes
  import opened ColdFormat
  import opened ColdChain

  lemma FieldBytes(b: seq<Byte>, off: nat, n: nat)
    requires off + n <= |b|
    ensures LE(n, Field(b, off, n)) == b[off..off + n]
  {
    BytesRoundTrip(b[off..off + n]);
  }

  /** The parts of an object's header that its digest covers. */
  lemma HeaderParts(b: seq<Byte>)
    requires |b| == OBJ_SIZE
    ensures b[..72] == b[0..8] + b[8..12] + b[12..16] + b[16..20] + b[20..24] + b[24..32] + b[32..40] + b[40..72]
  {
  }

  lemma FieldsAre(h: Hash, b: seq<Byte>, e: Entry)
    requires |b| == OBJ_SIZE && Field(b, 0, 8) == OBJ_MAGIC && Field(b, 8, 4) == VERSION && Field(b, 12, 4) == OBJ_SIZE && Field(b, 20, 4) == 0
    requires e.kind == Field(b, 16, 4) && |e.payload| == Field(b, 32, 8) && h(e.payload) == b[40..72]
    ensures b[..72] == HeaderFields(h, Field(b, 24, 8), e)
  {
    hide LE, FromLE, Field;
    FieldBytes(b, 0, 8);
    FieldBytes(b, 8, 4);
    FieldBytes(b, 12, 4);
    FieldBytes(b, 16, 4);
    FieldBytes(b, 20, 4);
    FieldBytes(b, 24, 8);
    FieldBytes(b, 32, 8);
    HeaderParts(b);
  }

  lemma HeaderIs(h: Hash, b: seq<Byte>, e: Entry)
    requires |b| == OBJ_SIZE && Field(b, 0, 8) == OBJ_MAGIC && Field(b, 8, 4) == VERSION && Field(b, 12, 4) == OBJ_SIZE && Field(b, 20, 4) == 0
    requires e.kind == Field(b, 16, 4) && |e.payload| == Field(b, 32, 8) && h(e.payload) == b[40..72]
    requires Field(b, 104, 8) == COMMIT && h(b[..72]) == b[72..104]
    ensures b == HeaderBytes(h, Field(b, 24, 8), e, COMMIT)
  {
    hide LE, FromLE, Field, HeaderFields;
    FieldsAre(h, b, e);
    FieldBytes(b, 104, 8);
    assert b == b[..72] + b[72..104] + b[104..112];
  }

  /** What validates is a complete object, in its place, of the kind and generation asked for. */
  lemma ValidatedObject(h: Hash, m: seq<Byte>, dataHead: nat, off: nat, kind: nat, generation: nat) returns (e: Entry)
    requires |m| == SIZE && dataHead >= OBJ_SIZE && ObjectValidate(h, m, dataHead, off, kind, generation) == Valid
    ensures EntryOk(e) && DATA0 <= off && off % 8 == 0 && off + Extent(e) <= dataHead && off + Extent(e) <= SIZE
    ensures ObjectAt(h, m, off, GenerationAt(m, off), e)
    ensures e.kind == KindAt(m, off) && |e.payload| == LenAt(m, off) && NextOff(m, off) == off + Extent(e)
    ensures (kind != 0 ==> e.kind == kind) && (generation != 0 ==> GenerationAt(m, off) == generation)
  {
    hide LE, FromLE, HeaderBytes;
    var b := m[off..off + OBJ_SIZE];
    var len := Field(b, 32, 8);
    e := Entry(Field(b, 16, 4), m[off + OBJ_SIZE..off + OBJ_SIZE + len]);
    AlignShift(off, OBJ_SIZE + len);
    HeaderIs(h, b, e);
  }

  /** An object validates exactly if it is complete, in its place, and of the kind and generation asked
      for. */
  lemma ObjectExactly(h: Hash, m: seq<Byte>, dataHead: nat, off: nat, generation: nat)
    requires |m| == SIZE && OBJ_SIZE <= dataHead <= SIZE && 0 < generation <= U64_MAX
    ensures ObjectValidate(h, m, dataHead, off, 0, generation) == Valid
            <==> DATA0 <= off && off % 8 == 0 && exists e: Entry :: EntryOk(e) && off + Extent(e) <= dataHead && ObjectAt(h, m, off, generation, e)
  {
    hide ObjectValidate, ObjectAt, Extent, EntryOk, GenerationAt, KindAt, LenAt, NextOff;
    if ObjectValidate(h, m, dataHead, off, 0, generation) == Valid {
      var e := ValidatedObject(h, m, dataHead, off, 0, generation);
    }
    if DATA0 <= off && off % 8 == 0 && exists e: Entry :: EntryOk(e) && off + Extent(e) <= dataHead && ObjectAt(h, m, off, generation, e) {
      var e: Entry :| EntryOk(e) && off + Extent(e) <= dataHead && ObjectAt(h, m, off, generation, e);
      ObjectValidates(h, m, dataHead, off, generation, e);
    }
  }

  /** One turn of the walk that goes on has met an object. */
  lemma WalkedOne(h: Hash, m: seq<Byte>, s: Super, seen: Seen) returns (e: Entry)
    requires |m| == SIZE && DATA0 <= s.dataHead <= SIZE && seen.off < s.dataHead && 0 < seen.expected
    requires WalkOne(h, m, s, seen).0 == Valid
    ensures EntryOk(e) && DATA0 <= seen.off && seen.off % 8 == 0 && seen.off + Extent(e) <= s.dataHead && seen.expected < U64_MAX
    ensures ObjectAt(h, m, seen.off, seen.expected, e) && WalkOne(h, m, s, seen).1 == SeenAfter(seen, e)
  {
    hide ObjectValidate, ObjectAt, Extent, EntryOk, GenerationAt, KindAt, LenAt, NextOff;
    e := ValidatedObject(h, m, s.dataHead, seen.off, 0, seen.expected);
    GenerationFits(m, seen.off);
  }

  lemma GenerationFits(m: seq<Byte>, off: nat)
    requires off + OBJ_SIZE <= |m|
    ensures GenerationAt(m, off) <= U64_MAX
  {
    var b := m[off..off + OBJ_SIZE];
    BytesRoundTrip(b[24..32]);
    assert Pow256(4) == 0x1_0000_0000;
    assert Pow256(8) == 0x1_0000_0000_0000_0000;
  }

  /** What the walk accepts is a chain that the superblock describes. */
  lemma {:induction false} WalkedChain(h: Hash, m: seq<Byte>, s: Super, seen: Seen) returns (chain: seq<Entry>)
    requires |m| == SIZE && DATA0 <= s.dataHead <= SIZE && 0 < seen.expected && Walk(h, m, s, seen) == Valid
    ensures EntriesOk(chain) && ChainAt(h, m, seen.off, seen.expected, chain)
    ensures seen.off + Size(chain) == s.dataHead && seen.expected + |chain| == s.generation + 1 && seen.logs + Logs(chain) == s.logCount
    ensures LastSnap(chain, seen.off, seen.expected, (seen.snapOff, seen.snapGeneration)) == (s.snapOff, s.snapGeneration)
    decreases s.dataHead - seen.off
  {
    hide WalkOne, ObjectAt, Extent, EntryOk;
    chain := [];
    if seen.off < s.dataHead {
      var e := WalkedOne(h, m, s, seen);
      ExtentSome(e);
      var rest := WalkedChain(h, m, s, SeenAfter(seen, e));
      chain := [e] + rest;
      assert chain[1..] == rest;
    }
  }

  lemma ExtentSome(e: Entry)
    ensures Extent(e) > 0
  {
  }

  lemma SuperFieldParts(b: seq<Byte>)
    requires |b| == SUPER_SIZE
    ensures b == b[..64] + b[64..96] + b[96..128]
    ensures b[..64] == b[0..8] + b[8..12] + b[12..16] + b[16..24] + b[24..32] + b[32..40] + b[40..48] + b[48..56] + b[56..64]
  {
  }

  /** The bytes of a superblock that passes its own tests. */
  lemma SuperIs(h: Hash, b: seq<Byte>)
    requires |b| == SUPER_SIZE && SuperHeaderOk(b) && Field(b, 56, 8) == COMMIT && b[96..128] == Zeros(32) && ChecksumOk(h, b)
    ensures b == SuperBytes(h, ReadSuper(b))
  {
    hide LE, FromLE, Field, SuperFields, SuperHeaderOk;
    SuperFieldsIs(b);
    SuperFieldParts(b);
  }

  lemma SuperFieldsIs(b: seq<Byte>)
    requires |b| == SUPER_SIZE && SuperHeaderOk(b) && Field(b, 56, 8) == COMMIT
    ensures b[..64] == SuperFields(ReadSuper(b))
  {
    hide LE, FromLE, Field;
    FieldBytes(b, 0, 8);
    FieldBytes(b, 8, 4);
    FieldBytes(b, 12, 4);
    FieldBytes(b, 16, 8);
    FieldBytes(b, 24, 8);
    FieldBytes(b, 32, 8);
    FieldBytes(b, 40, 8);
    FieldBytes(b, 48, 8);
    FieldBytes(b, 56, 8);
    SuperFieldParts(b);
  }

  /** A valid slot holds the superblock of the chain in the data area. */
  lemma ValidIsHeld(h: Hash, m: seq<Byte>, slot: nat) returns (chain: seq<Entry>)
    requires |m| == SIZE && slot <= 1 && SuperValidate(h, m, SlotOff(slot)) == Valid
    ensures Holds(h, m, chain, slot)
  {
    var b := Block(m, slot);
    var s := ReadSuper(b);
    hide ReadSuper, SuperHeaderOk, ChecksumOk, Field, Walk, SuperBytes;
    SuperIs(h, b);
    chain := WalkedChain(h, m, s, FIRST);
    hide ChainAt, EntriesOk, Size, Logs, LastSnap;
    assert SuperOf(chain) == s;
  }

  /** A slot is valid exactly if it holds the superblock of a chain of complete objects that fills the
      data area from its start. */
  lemma ValidExactly(h: Hash, m: seq<Byte>, slot: nat)
    requires |m| == SIZE && slot <= 1
    ensures SuperValidate(h, m, SlotOff(slot)) == Valid <==> exists chain: seq<Entry> :: Holds(h, m, chain, slot)
  {
    hide SuperValidate, Holds;
    if SuperValidate(h, m, SlotOff(slot)) == Valid {
      var chain := ValidIsHeld(h, m, slot);
    }
    if exists chain: seq<Entry> :: Holds(h, m, chain, slot) {
      var chain: seq<Entry> :| Holds(h, m, chain, slot);
      HeldIsValid(h, m, chain, slot);
    }
  }

  /** A superblock of another version of the format. */
  predicate Foreign(b: seq<Byte>)
    requires |b| == SUPER_SIZE
  {
    b[0..8] == LE(8, MAGIC) && b[8..12] != LE(4, VERSION)
  }

  lemma ForeignIs(b: seq<Byte>)
    requires |b| == SUPER_SIZE
    ensures Foreign(b) <==> Field(b, 0, 8) == MAGIC && Field(b, 8, 4) != VERSION
  {
    hide LE, FromLE;
    FieldBytes(b, 0, 8);
    FieldBytes(b, 8, 4);
    Word64(MAGIC);
    Word32(VERSION);
  }

  /** What is selected: a valid slot's superblock, none valid being newer; and nothing only if no slot
      is valid, or both are, of one generation, and differ. */
  lemma SelectExactly(h: Hash, m: seq<Byte>)
    requires |m| == SIZE
    ensures var sel := Select(h, m);
            var (v0, v1) := (SuperValidate(h, m, SLOT0) == Valid, SuperValidate(h, m, SLOT1) == Valid);
            var (g0, g1) := (ReadSuper(Block(m, 0)).generation, ReadSuper(Block(m, 1)).generation);
            && (sel.result == Valid <==> (v0 || v1) && !(v0 && v1 && g0 == g1 && Block(m, 0) != Block(m, 1)))
            && (sel.result == Valid ==>
                  && sel.slot <= 1 && (if sel.slot == 0 then v0 else v1) && sel.super == ReadSuper(Block(m, sel.slot))
                  && (v0 ==> g0 <= sel.super.generation) && (v1 ==> g1 <= sel.super.generation))
            && (sel.result == Empty <==> !v0 && !v1 && m == Zeros(SIZE))
            && (sel.result == Unsupported <==> !v0 && !v1 && m != Zeros(SIZE) && (Foreign(Block(m, 0)) || Foreign(Block(m, 1))))
            && (sel.result == Valid || sel.result == Empty || sel.result == Unsupported || sel.result == Corrupt)
  {
    hide SuperValidate, ReadSuper, Field, Foreign;
    ForeignIs(Block(m, 0));
    ForeignIs(Block(m, 1));
  }
}
