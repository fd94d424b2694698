/** Crash safety of the cold log: after any run of operations, each cut after any byte of any
    phase, exactly one chain of objects is selected, and it is the completed operations in order. */
module ColdSafety {
  import opened Bytes
  import opened ColdFormat
  import opened ColdChain
  import opened ColdWrites

  /** The one assumption about torn superblocks: a slot whose bytes are spliced from an attempted
      superblock and what was there before passes the byte-level tests only when it is that
      superblock, or one that was selected before. */
  predicate Unfooled(h: Hash, b: seq<Byte>, attempted: seq<Byte>, chain: seq<Entry>)
    requires |b| == SUPER_SIZE
  {
    Passes(h, b) ==> b == attempted || Older(h, b, chain)
  }

  /** Writing a superblock for a longer chain over the free slot moves the medium to that chain
      exactly when all of it got there, and otherwise leaves the medium on its chain. */
  lemma SuperStep(h: Hash, m: seq<Byte>, m': seq<Byte>, chain: seq<Entry>, slot: nat, more: seq<Entry>, k: nat)
    requires Good(h, m, chain, slot) && more != [] && EntriesOk(more) && k <= SUPER_SIZE
    requires |m'| == SIZE && ChainAt(h, m', DATA0, 2, chain + more) && DATA0 + Size(chain + more) <= SIZE
    requires ChainAt(h, m', DATA0, 2, chain)
    requires Block(m', slot) == Block(m, slot)
    requires var s := SuperBytes(h, SuperOf(chain + more)); Block(m', 1 - slot) == s[..k] + Block(m, 1 - slot)[k..]
    requires Unfooled(h, Block(m', 1 - slot), SuperBytes(h, SuperOf(chain + more)), chain)
    ensures if Block(m', 1 - slot) == SuperBytes(h, SuperOf(chain + more)) then Good(h, m', chain + more, 1 - slot)
            else Good(h, m', chain, slot)
  {
    hide ChainAt, Passes, SuperOf, Size;
    var b := Block(m', 1 - slot);
    var s := SuperBytes(h, SuperOf(chain + more));
    SuperTail(h, SuperOf(chain + more));
    TailSpliced(s, Block(m, 1 - slot), k);
    if b == s {
      assert (chain + more)[..|chain|] == chain;
      assert Older(h, Block(m', slot), chain + more);
      SuperTail(h, SuperOf(chain));
    }
  }

  lemma SuperTail(h: Hash, s: Super)
    ensures SuperBytes(h, s)[96..128] == Zeros(32)
  {
  }

  lemma TailSpliced(s: seq<Byte>, p: seq<Byte>, k: nat)
    requires |s| == |p| == SUPER_SIZE && k <= SUPER_SIZE
    requires s[96..128] == Zeros(32) == p[96..128]
    ensures (s[..k] + p[k..])[96..128] == Zeros(32)
  {
    var r := s[..k] + p[k..];
    forall i | 96 <= i < 128
      ensures r[i] == 0
    {
      assert s[i] == s[96..128][i - 96] && p[i] == p[96..128][i - 96];
    }
  }

  /** Writes beyond the chain leave the medium as good as it was. */
  lemma BeyondChain(h: Hash, m: seq<Byte>, m': seq<Byte>, chain: seq<Entry>, slot: nat, z: nat)
    requires Good(h, m, chain, slot) && DATA0 + Size(chain) <= z && Agree(m, m', 0, z)
    ensures Good(h, m', chain, slot) && Block(m', 0) == Block(m, 0) && Block(m', 1) == Block(m, 1)
  {
    hide ChainAt, Passes, SuperBytes, SuperOf, Size, Older;
    AgreeWithin(m, m', 0, z, DATA0, z);
    ChainFrame(h, m, m', DATA0, z, 2, chain);
    AgreeSlice(m, m', 0, z, SLOT0, SLOT0 + SUPER_SIZE);
    AgreeSlice(m, m', 0, z, SLOT1, SLOT1 + SUPER_SIZE);
  }

  /** Writing one more object behind the chain: whatever is cut, the chain stays; and when
      nothing is, the longer chain is laid out. */
  lemma ObjectStep(h: Hash, m: seq<Byte>, f: Fault, chain: seq<Entry>, e: Entry)
    requires |m| == SIZE && ChainAt(h, m, DATA0, 2, chain) && DATA0 + Size(chain) + Extent(e) <= SIZE
    ensures var w := WriteObject(h, m, f, |chain| + 2, DATA0 + Size(chain), e);
            && Agree(m, w.m, 0, DATA0 + Size(chain))
            && ChainAt(h, w.m, DATA0, 2, chain)
            && (w.done ==> ChainAt(h, w.m, DATA0, 2, chain + [e]) && ObjectAt(h, w.m, DATA0 + Size(chain), |chain| + 2, e))
  {
    hide WriteObject, ObjectAt, Extent, ChainAt, Agree;
    var off := DATA0 + Size(chain);
    var w := WriteObject(h, m, f, |chain| + 2, off, e);
    WriteObjectAgrees(h, m, f, |chain| + 2, off, e, 0, off);
    AgreeWithin(m, w.m, 0, off, DATA0, off);
    ChainFrame(h, m, w.m, DATA0, off, 2, chain);
    if w.done {
      WriteObjectDone(h, m, f, |chain| + 2, off, e);
      ChainSnoc(h, w.m, DATA0, 2, chain, e);
    }
  }

  predicate Fits(chain: seq<Entry>) {
    DATA0 + Size(chain) <= SIZE
  }

  /** Whether the superblock of the longer chain is in place in the slot. */
  predicate Landed(h: Hash, m: seq<Byte>, chain: seq<Entry>, slot: nat, more: seq<Entry>)
    requires |m| == SIZE && slot <= 1
  {
    Fits(chain + more) && Block(m, 1 - slot) == SuperBytes(h, SuperOf(chain + more))
  }

  /** The free slot never already holds the superblock of a longer chain. */
  lemma NotYetLanded(h: Hash, m: seq<Byte>, chain: seq<Entry>, slot: nat, more: seq<Entry>)
    requires Good(h, m, chain, slot) && more != []
    ensures !Landed(h, m, chain, slot, more)
  {
    if Landed(h, m, chain, slot, more) {
      var b := Block(m, 1 - slot);
      HeldSuper(chain + more);
      SuperReadsBack(h, SuperOf(chain + more));
      assert Passes(h, b);
      OlderGeneration(h, b, chain);
      hide Size, Logs, LastSnap, ReadSuper, SuperBytes;
    }
  }

  /** The outcome of an operation that adds `more` in one step. */
  ghost predicate AllOrNothing(h: Hash, m: seq<Byte>, chain: seq<Entry>, slot: nat, more: seq<Entry>)
    requires |m| == SIZE && slot <= 1
  {
    if Landed(h, m, chain, slot, more) then Good(h, m, chain + more, 1 - slot) else Good(h, m, chain, slot)
  }

  /** What an operation leaves in the slots: the chain's as it was; the other as it was, or with the
      new superblock over it as far as the fault let it come, and then the fault has fired. */
  predicate Spliced(h: Hash, m: seq<Byte>, m': seq<Byte>, f: Fault, f': Fault, chain: seq<Entry>, slot: nat, more: seq<Entry>)
    requires |m| == |m'| == SIZE && slot <= 1
  {
    && Block(m', slot) == Block(m, slot)
    && (Block(m', 1 - slot) != Block(m, 1 - slot) ==>
          && Fits(chain + more) && (Reach(f) < SUPER_SIZE ==> f'.fired)
          && Block(m', 1 - slot) == SuperBytes(h, SuperOf(chain + more))[..Reach(f)] + Block(m, 1 - slot)[Reach(f)..])
  }

  /** Objects written before leave no trace in the slots, nor in a fault of the superblock phase. */
  lemma SplicedLater(h: Hash, m: seq<Byte>, m1: seq<Byte>, m': seq<Byte>, f: Fault, f1: Fault, f': Fault, chain: seq<Entry>, slot: nat,
                     more: seq<Entry>)
    requires |m| == |m1| == |m'| == SIZE && slot <= 1 && Spliced(h, m1, m', f1, f', chain, slot, more)
    requires Block(m1, 0) == Block(m, 0) && Block(m1, 1) == Block(m, 1) && Reach(f1) == Reach(f)
    ensures Spliced(h, m, m', f, f', chain, slot, more)
  {
    hide Block, Fits, SuperBytes, SuperOf, Reach;
  }

  lemma Untouched(h: Hash, m: seq<Byte>, m': seq<Byte>, f: Fault, f': Fault, chain: seq<Entry>, slot: nat, more: seq<Entry>)
    requires |m| == |m'| == SIZE && slot <= 1 && Block(m', 0) == Block(m, 0) && Block(m', 1) == Block(m, 1)
    ensures Spliced(h, m, m', f, f', chain, slot, more)
  {
    hide Block, Fits, SuperBytes, SuperOf, Reach;
  }

  /** With the objects in place, the superblock write decides. */
  lemma PublishStep(h: Hash, m: seq<Byte>, f: Fault, chain: seq<Entry>, slot: nat, more: seq<Entry>)
    requires Good(h, m, chain, slot) && more != [] && EntriesOk(more) && Fits(chain + more)
    requires ChainAt(h, m, DATA0, 2, chain + more)
    ensures |m| == SIZE && slot <= 1
    ensures var s := SuperBytes(h, SuperOf(chain + more)); var v := WritePhase(m, f, Superblock, SlotOff(1 - slot), s);
            && (Unfooled(h, Block(v.m, 1 - slot), s, chain) ==> AllOrNothing(h, v.m, chain, slot, more))
            && (v.done ==> Landed(h, v.m, chain, slot, more))
            && Spliced(h, m, v.m, f, v.fault, chain, slot, more)
  {
    hide WritePhase, Reach, ChainAt, Agree, SuperBytes, SuperOf, Size, Free, EntriesOk, Unfooled, Block;
    var s := SuperBytes(h, SuperOf(chain + more));
    var (v, k) := (WritePhase(m, f, Superblock, SlotOff(1 - slot), s), Reach(f));
    SuperWriteSplices(m, f, 1 - slot, s);
    ChainFrame(h, m, v.m, DATA0, SIZE, 2, chain);
    ChainFrame(h, m, v.m, DATA0, SIZE, 2, chain + more);
    if Unfooled(h, Block(v.m, 1 - slot), s, chain) {
      SuperStep(h, m, v.m, chain, slot, more, k);
    }
    if v.done {
      WholeWrite(s, Block(m, 1 - slot), k);
    }
  }

  lemma WholeWrite(s: seq<Byte>, p: seq<Byte>, k: nat)
    requires |s| == |p| == k
    ensures s[..k] + p[k..] == s
  {
  }

  // ----- The operations -----

  lemma GoodSizes(h: Hash, m: seq<Byte>, chain: seq<Entry>, slot: nat)
    requires Good(h, m, chain, slot)
    ensures |m| == SIZE && slot <= 1 && Fits(chain) && ChainAt(h, m, DATA0, 2, chain) && EntriesOk(chain)
    ensures SuperOf(chain).generation == |chain| + 1 < U64_MAX - 3 && SuperOf(chain).dataHead == DATA0 + Size(chain)
  {
    SuperRanges(chain, DATA0, 2, (0, 0));
    hide LastSnap, ChainAt, Free, SuperBytes;
  }

  /** Writing an object behind the chain, cut anywhere or not at all. */
  lemma Placed(h: Hash, m: seq<Byte>, f: Fault, chain: seq<Entry>, slot: nat, e: Entry)
    requires Good(h, m, chain, slot) && EntryOk(e) && DATA0 + Size(chain) + Extent(e) <= SIZE
    ensures var w := WriteObject(h, m, f, |chain| + 2, DATA0 + Size(chain), e);
            && Good(h, w.m, chain, slot) && w.fault.phase == f.phase && Reach(w.fault) == Reach(f)
            && Block(w.m, 0) == Block(m, 0) && Block(w.m, 1) == Block(m, 1)
            && Agree(m, w.m, 0, DATA0 + Size(chain)) && Fits(chain + [e])
            && (w.done ==> ChainAt(h, w.m, DATA0, 2, chain + [e]) && ObjectAt(h, w.m, DATA0 + Size(chain), |chain| + 2, e))
  {
    hide Good, WriteObject, ChainAt, Size, Agree, Extent, ObjectAt, EntryOk, SuperOf;
    GoodSizes(h, m, chain, slot);
    ObjectStep(h, m, f, chain, e);
    SizeSnoc(chain, e);
    FaultKept(h, m, f, |chain| + 2, DATA0 + Size(chain), e);
    BeyondChain(h, m, WriteObject(h, m, f, |chain| + 2, DATA0 + Size(chain), e).m, chain, slot, DATA0 + Size(chain));
  }

  lemma FaultKept(h: Hash, m: seq<Byte>, f: Fault, generation: nat, off: nat, e: Entry)
    requires off + OBJ_SIZE + |e.payload| <= |m|
    ensures var g := WriteObject(h, m, f, generation, off, e).fault; g.phase == f.phase && Reach(g) == Reach(f)
  {
    hide Put, HeaderBytes;
  }

  lemma NoFaultHere(m: seq<Byte>, f: Fault, slot: nat, src: seq<Byte>)
    requires |m| == SIZE && |src| == SUPER_SIZE && f.phase != Superblock
    ensures WritePhase(m, f, Superblock, SlotOff(slot), src).done
  {
  }

  predicate AppendRoom(last: Super, e: Entry) {
    Align8(last.dataHead + OBJ_SIZE + |e.payload|) <= SIZE
  }

  lemma RoomIs(chain: seq<Entry>, e: Entry)
    ensures AppendRoom(SuperOf(chain), e) <==> DATA0 + Size(chain) + Extent(e) <= SIZE
    ensures AppendRoom(SuperOf(chain), e) ==> Align8(SuperOf(chain).dataHead + OBJ_SIZE + |e.payload|) == SuperOf(chain).dataHead + Extent(e)
  {
    hide Align8, LastSnap, Logs, Size;
    AlignShift(DATA0 + Size(chain), OBJ_SIZE + |e.payload|);
  }

  /** What `append_obj` comes to once the superblock is selected and the object has room. */
  lemma AppendIs(h: Hash, m: seq<Byte>, f: Fault, e: Entry, last: Super, slot: nat)
    requires |m| == SIZE && Select(h, m) == Selection(Valid, last, slot)
    requires EntryOk(e) && last.generation < U64_MAX && AppendRoom(last, e)
    ensures var w := AppendTo(h, m, f, last, slot, e);
            Append(h, m, f, e) == Outcome(w.m, w.fault, if w.done then Valid else WriteFault)
  {
    hide AppendTo, Select, Align8;
  }

  lemma AppendRefused(h: Hash, m: seq<Byte>, f: Fault, e: Entry, last: Super, slot: nat)
    requires |m| == SIZE && Select(h, m) == Selection(Valid, last, slot)
    requires BLOB <= e.kind <= SNAP && !(EntryOk(e) && AppendRoom(last, e))
    ensures Append(h, m, f, e) == Outcome(m, f, LengthBad)
  {
    hide AppendTo, Select, Align8;
  }

  /** Its writes, in terms of the chain. */
  lemma AppendToIs(h: Hash, m: seq<Byte>, f: Fault, e: Entry, chain: seq<Entry>, slot: nat)
    requires |m| == SIZE && slot <= 1 && AppendRoom(SuperOf(chain), e)
    ensures DATA0 + Size(chain) + Extent(e) <= SIZE
    ensures var w := WriteObject(h, m, f, |chain| + 2, DATA0 + Size(chain), e);
            AppendTo(h, m, f, SuperOf(chain), slot, e)
              == if w.done then WritePhase(w.m, w.fault, Superblock, SlotOff(1 - slot), SuperBytes(h, SuperOf(chain + [e]))) else w
  {
    hide WriteObject, WritePhase, Size, NextSuper, SuperBytes, Align8, SlotOff, LastSnap, Logs, Extent;
    NextSuperIs(chain, e);
    RoomIs(chain, e);
  }

  lemma Unchanged(h: Hash, m: seq<Byte>, chain: seq<Entry>, slot: nat, more: seq<Entry>)
    requires Good(h, m, chain, slot) && more != []
    ensures |m| == SIZE && slot <= 1 && !Landed(h, m, chain, slot, more) && AllOrNothing(h, m, chain, slot, more)
  {
    NotYetLanded(h, m, chain, slot, more);
    hide Landed, ChainAt, Free, EntriesOk, SuperBytes;
  }

  /** `append_obj`, whatever the armed fault cuts: the object is appended whole or not at all; an
      append that reports success has appended it, and one cut before the superblock has not. */
  lemma AppendStep(h: Hash, m: seq<Byte>, f: Fault, e: Entry, chain: seq<Entry>, slot: nat)
    requires Good(h, m, chain, slot) && BLOB <= e.kind <= SNAP
    ensures |m| == SIZE && slot <= 1
    ensures var o := Append(h, m, f, e);
            && (Unfooled(h, Block(o.m, 1 - slot), SuperBytes(h, SuperOf(chain + [e])), chain) ==> AllOrNothing(h, o.m, chain, slot, [e]))
            && (o.result == Valid ==> Landed(h, o.m, chain, slot, [e]))
            && (o.result != Valid && f.phase != Superblock ==> !Landed(h, o.m, chain, slot, [e]))
            && Spliced(h, m, o.m, f, o.fault, chain, slot, [e])
  {
    hide Good, Landed, Spliced, Reach, AllOrNothing, Unfooled, Fits, WriteObject, WritePhase, ChainAt, Passes, SuperBytes, Size, Agree, Block, Append, AppendTo, AppendRoom, SuperOf, Extent, Select;
    GoodSizes(h, m, chain, slot);
    SelectFinds(h, m, chain, slot);
    RoomIs(chain, e);
    if EntryOk(e) && DATA0 + Size(chain) + Extent(e) <= SIZE {
      AppendIs(h, m, f, e, SuperOf(chain), slot);
      AppendToIs(h, m, f, e, chain, slot);
      Placed(h, m, f, chain, slot, e);
      var w := WriteObject(h, m, f, |chain| + 2, DATA0 + Size(chain), e);
      Untouched(h, m, w.m, f, w.fault, chain, slot, [e]);
      if w.done {
        PublishStep(h, w.m, w.fault, chain, slot, [e]);
        var o := Append(h, m, f, e);
        SplicedLater(h, m, w.m, o.m, f, w.fault, o.fault, chain, slot, [e]);
        if f.phase != Superblock {
          NoFaultHere(w.m, w.fault, 1 - slot, SuperBytes(h, SuperOf(chain + [e])));
        }
      } else {
        Unchanged(h, w.m, chain, slot, [e]);
      }
    } else {
      AppendRefused(h, m, f, e, SuperOf(chain), slot);
      Untouched(h, m, m, f, f, chain, slot, [e]);
      Unchanged(h, m, chain, slot, [e]);
    }
  }

  function Pair(pill: seq<Byte>, snap: seq<Byte>): seq<Entry> {
    [Entry(BLOB, pill), Entry(SNAP, snap)]
  }

  predicate PairRoom(chain: seq<Entry>, pill: seq<Byte>, snap: seq<Byte>) {
    EntryOk(Entry(BLOB, pill)) && EntryOk(Entry(SNAP, snap)) && Fits(chain + Pair(pill, snap))
  }

  lemma PairSizes(chain: seq<Entry>, pill: seq<Byte>, snap: seq<Byte>)
    ensures var (p, s) := (Entry(BLOB, pill), Entry(SNAP, snap));
            && chain + Pair(pill, snap) == chain + [p] + [s]
            && Size(chain + [p]) == Size(chain) + Extent(p)
            && Size(chain + Pair(pill, snap)) == Size(chain) + Extent(p) + Extent(s)
  {
    hide Extent;
    var (p, s) := (Entry(BLOB, pill), Entry(SNAP, snap));
    assert chain + Pair(pill, snap) == chain + [p] + [s];
    SizeSnoc(chain, p);
    SizeSnoc(chain + [p], s);
  }

  lemma PlansAre(chain: seq<Entry>, pill: seq<Byte>, snap: seq<Byte>)
    requires |chain| + 1 < U64_MAX - 3
    ensures var last := SuperOf(chain);
            && (PlanOk(last, |pill|) && PlanOk(AfterPill(last, pill), |snap|) <==> PairRoom(chain, pill, snap))
            && AfterPill(last, pill).dataHead == DATA0 + Size(chain) + Extent(Entry(BLOB, pill))
            && Align8(AfterPill(last, pill).dataHead + OBJ_SIZE + |snap|) == DATA0 + Size(chain + Pair(pill, snap))
  {
    hide Align8, LastSnap, Logs, Size;
    PairSizes(chain, pill, snap);
    AlignShift(DATA0 + Size(chain), OBJ_SIZE + |pill|);
    AlignShift(DATA0 + Size(chain) + Extent(Entry(BLOB, pill)), OBJ_SIZE + |snap|);
  }

  /** The superblock a deployment writes is the one of the chain with both objects. */
  lemma PairSuper(chain: seq<Entry>, pill: seq<Byte>, snap: seq<Byte>)
    ensures var last := SuperOf(chain); var pillHead := last.dataHead + Extent(Entry(BLOB, pill));
            SuperOf(chain + Pair(pill, snap))
              == Super(last.generation + 2, last.generation + 2, pillHead, DATA0 + Size(chain + Pair(pill, snap)), last.logCount)
  {
    hide Extent, LastSnap, Logs, Size;
    PairSizes(chain, pill, snap);
    NextSuperIs(chain, Entry(BLOB, pill));
    NextSuperIs(chain + [Entry(BLOB, pill)], Entry(SNAP, snap));
  }

  /** What was written changed no slot, and leaves a superblock write as far to go. */
  predicate SameSlots(m: seq<Byte>, f: Fault, w: Written)
    requires |m| == SIZE
  {
    |w.m| == SIZE && Block(w.m, 0) == Block(m, 0) && Block(w.m, 1) == Block(m, 1) && Reach(w.fault) == Reach(f)
  }

  /** Both objects written behind the chain, cut anywhere or not at all. */
  lemma PairPlaced(h: Hash, m: seq<Byte>, f: Fault, chain: seq<Entry>, slot: nat, pill: seq<Byte>, snap: seq<Byte>)
    requires Good(h, m, chain, slot) && PairRoom(chain, pill, snap)
    ensures var off := DATA0 + Size(chain); var pillHead := off + Extent(Entry(BLOB, pill)); var snapHead := DATA0 + Size(chain + Pair(pill, snap));
            && snapHead == pillHead + Extent(Entry(SNAP, snap)) <= SIZE && |m| == SIZE
            && var w1 := WriteObject(h, m, f, |chain| + 2, off, Entry(BLOB, pill));
            && Good(h, w1.m, chain, slot) && w1.fault.phase == f.phase && SameSlots(m, f, w1)
            && (w1.done ==> ObjectAt(h, w1.m, off, |chain| + 2, Entry(BLOB, pill)))
            && (w1.done ==>
                  var w2 := WriteObject(h, w1.m, w1.fault, |chain| + 3, pillHead, Entry(SNAP, snap));
                  && Good(h, w2.m, chain, slot) && w2.fault.phase == f.phase && SameSlots(m, f, w2)
                  && (w2.done ==> ObjectAt(h, w2.m, pillHead, |chain| + 3, Entry(SNAP, snap))
                                  && ChainAt(h, w2.m, DATA0, 2, chain + Pair(pill, snap))))
  {
    hide Good, WriteObject, ObjectAt, ChainAt, Size, Extent, Agree, EntryOk, SuperOf;
    var (p, s) := (Entry(BLOB, pill), Entry(SNAP, snap));
    GoodSizes(h, m, chain, slot);
    PairSizes(chain, pill, snap);
    Placed(h, m, f, chain, slot, p);
    var w1 := WriteObject(h, m, f, |chain| + 2, DATA0 + Size(chain), p);
    if w1.done {
      var pillHead := DATA0 + Size(chain + [p]);
      ObjectStep(h, w1.m, w1.fault, chain + [p], s);
      FaultKept(h, w1.m, w1.fault, |chain| + 3, pillHead, s);
      var w2 := WriteObject(h, w1.m, w1.fault, |chain| + 3, pillHead, s);
      BeyondChain(h, w1.m, w2.m, chain, slot, pillHead);
    }
  }

  lemma DeployIs(h: Hash, m: seq<Byte>, f: Fault, pill: seq<Byte>, snap: seq<Byte>, last: Super, slot: nat)
    requires |m| == SIZE && Select(h, m) == Selection(Valid, last, slot)
    requires PlanOk(last, |pill|) && PlanOk(AfterPill(last, pill), |snap|)
    ensures Deploy(h, m, f, pill, snap) == DeployTo(h, m, f, last, slot, pill, snap)
  {
    hide DeployTo, Select, PlanOk, AfterPill;
  }

  lemma DeployRefused(h: Hash, m: seq<Byte>, f: Fault, pill: seq<Byte>, snap: seq<Byte>, last: Super, slot: nat)
    requires |m| == SIZE && Select(h, m) == Selection(Valid, last, slot)
    requires !(PlanOk(last, |pill|) && PlanOk(AfterPill(last, pill), |snap|))
    ensures Deploy(h, m, f, pill, snap) == DeployOutcome(m, f, Rejected)
  {
    hide DeployTo, Select, PlanOk, AfterPill;
  }

  /** The writes of a deployment, in terms of the chain: the checks after each object hold. */
  lemma DeployToIs(h: Hash, m: seq<Byte>, f: Fault, chain: seq<Entry>, slot: nat, pill: seq<Byte>, snap: seq<Byte>)
    requires Good(h, m, chain, slot) && PairRoom(chain, pill, snap)
    ensures var last := SuperOf(chain);
            && |m| == SIZE && slot <= 1 && PlanOk(last, |pill|) && PlanOk(AfterPill(last, pill), |snap|)
            && var o := DeployTo(h, m, f, last, slot, pill, snap); var more := Pair(pill, snap);
            && (Unfooled(h, Block(o.m, 1 - slot), SuperBytes(h, SuperOf(chain + more)), chain) ==> AllOrNothing(h, o.m, chain, slot, more))
            && (o.result == Committed ==> Landed(h, o.m, chain, slot, more))
            && (o.result == Rejected ==> !Landed(h, o.m, chain, slot, more))
            && (o.result == DurabilityUnknown ==> f.phase == Superblock)
            && Spliced(h, m, o.m, f, o.fault, chain, slot, more)
  {
    hide Good, Spliced, Reach, WriteObject, WritePhase, ObjectAt, ObjectValidate, ChainAt, Size, Extent, Agree, SuperOf, AllOrNothing, Landed, Unfooled,
         PlanOk, Block, SuperBytes, Align8, SlotOff, Fits;
    var (p, s, more) := (Entry(BLOB, pill), Entry(SNAP, snap), Pair(pill, snap));
    GoodSizes(h, m, chain, slot);
    PlansAre(chain, pill, snap);
    PairSuper(chain, pill, snap);
    PairPlaced(h, m, f, chain, slot, pill, snap);
    var (off, last) := (DATA0 + Size(chain), SuperOf(chain));
    var (pillHead, snapHead) := (off + Extent(p), DATA0 + Size(chain + more));
    var w1 := WriteObject(h, m, f, |chain| + 2, off, p);
    if w1.done {
      ObjectValidates(h, w1.m, pillHead, off, |chain| + 2, p);
      var w2 := WriteObject(h, w1.m, w1.fault, |chain| + 3, pillHead, s);
      if w2.done {
        ObjectValidates(h, w2.m, snapHead, pillHead, |chain| + 3, s);
        PublishStep(h, w2.m, w2.fault, chain, slot, more);
        var o := DeployTo(h, m, f, last, slot, pill, snap);
        SplicedLater(h, m, w2.m, o.m, f, w2.fault, o.fault, chain, slot, more);
        if f.phase != Superblock {
          NoFaultHere(w2.m, w2.fault, 1 - slot, SuperBytes(h, SuperOf(chain + more)));
        }
      } else {
        Untouched(h, m, w2.m, f, w2.fault, chain, slot, more);
        Unchanged(h, w2.m, chain, slot, more);
      }
    } else {
      Untouched(h, m, w1.m, f, w1.fault, chain, slot, more);
      Unchanged(h, w1.m, chain, slot, more);
    }
  }

  /** `cold_store_deployment`: both objects under one superblock, or neither, whatever is cut. */
  lemma DeployStep(h: Hash, m: seq<Byte>, f: Fault, chain: seq<Entry>, slot: nat, pill: seq<Byte>, snap: seq<Byte>)
    requires Good(h, m, chain, slot)
    ensures |m| == SIZE && slot <= 1
    ensures var o := Deploy(h, m, f, pill, snap); var more := Pair(pill, snap);
            && (Unfooled(h, Block(o.m, 1 - slot), SuperBytes(h, SuperOf(chain + more)), chain) ==> AllOrNothing(h, o.m, chain, slot, more))
            && (o.result == Committed ==> Landed(h, o.m, chain, slot, more))
            && (o.result == Rejected ==> !Landed(h, o.m, chain, slot, more))
            && (o.result == DurabilityUnknown ==> f.phase == Superblock)
            && Spliced(h, m, o.m, f, o.fault, chain, slot, more)
  {
    hide Good, Spliced, Reach, Deploy, DeployTo, Size, Extent, SuperOf, AllOrNothing, Landed, Unfooled, PlanOk, AfterPill, Block, SuperBytes, Align8, Select, PairRoom, Fits, ChainAt, Pair;
    GoodSizes(h, m, chain, slot);
    SelectFinds(h, m, chain, slot);
    PlansAre(chain, pill, snap);
    if PairRoom(chain, pill, snap) {
      DeployIs(h, m, f, pill, snap, SuperOf(chain), slot);
      DeployToIs(h, m, f, chain, slot, pill, snap);
    } else {
      DeployRefused(h, m, f, pill, snap, SuperOf(chain), slot);
      PairIsSome(pill, snap);
      Untouched(h, m, m, f, f, chain, slot, Pair(pill, snap));
      Unchanged(h, m, chain, slot, Pair(pill, snap));
    }
  }

  lemma PairIsSome(pill: seq<Byte>, snap: seq<Byte>)
    ensures Pair(pill, snap) != []
  {
  }
}
