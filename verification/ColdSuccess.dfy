/** When an operation on the cold log succeeds: exactly when its objects fit and the armed fault does
    not reach it. */
module ColdSuccess {
  import opened Arith
  import opened Bytes
  import opened ColdFormat
  import opened ColdChain
  import opened ColdWrites
  import opened ColdSafety
  import opened ColdRuns

  predicate Armed(f: Fault) {
    f.phase != NoPhase && f.after >= 0 && !f.fired
  }

  /** How many bytes an operation writes in a phase. */
  function PhaseBytes(phase: Phase, es: seq<Entry>): nat
    decreases |es|
  {
    match phase
    case NoPhase => 0
    case Superblock => SUPER_SIZE
    case _ => if es == [] then 0 else ObjectBytes(phase, es[0]) + PhaseBytes(phase, es[1..])
  }

  function ObjectBytes(phase: Phase, e: Entry): nat {
    match phase
    case ObjectHeader => OBJ_SIZE
    case Payload => |e.payload|
    case ObjectCommit => 8
    case _ => 0
  }

  /** The fault reaches the operation that adds these objects. */
  predicate Cuts(f: Fault, es: seq<Entry>) {
    Armed(f) && f.after <= PhaseBytes(f.phase, es)
  }

  predicate CutsObject(f: Fault, e: Entry) {
    Armed(f) && f.phase != Superblock && f.after <= ObjectBytes(f.phase, e)
  }

  /** An object is written whole exactly if the fault does not reach it. */
  lemma ObjectDone(h: Hash, m: seq<Byte>, f: Fault, generation: nat, off: nat, e: Entry)
    requires off + OBJ_SIZE + |e.payload| <= |m|
    ensures var w := WriteObject(h, m, f, generation, off, e);
            && (w.done <==> !CutsObject(f, e))
            && (w.done ==> w.fault == if Armed(f) then f.(after := f.after - ObjectBytes(f.phase, e)) else f)
  {
    hide Put, HeaderBytes, LE;
  }

  lemma SuperDone(m: seq<Byte>, f: Fault, slot: nat, src: seq<Byte>)
    requires |m| == SIZE && |src| == SUPER_SIZE
    ensures WritePhase(m, f, Superblock, SlotOff(slot), src).done <==> !(Armed(f) && f.phase == Superblock && f.after <= SUPER_SIZE)
  {
    hide Put;
  }

  /** `append_obj` on a good medium: refused exactly for its length or for want of room, cut exactly
      if the fault reaches it, and otherwise done, with the object selected. */
  lemma AppendExact(h: Hash, m: seq<Byte>, f: Fault, e: Entry, chain: seq<Entry>, slot: nat)
    requires Good(h, m, chain, slot) && BLOB <= e.kind <= SNAP
    ensures |m| == SIZE && slot <= 1
    ensures var o := Append(h, m, f, e);
            && o.result == (if !EntryOk(e) || !Fits(chain + [e]) then LengthBad else if Cuts(f, [e]) then WriteFault else Valid)
            && (o.result == Valid ==> Landed(h, o.m, chain, slot, [e]))
  {
    AppendStep(h, m, f, e, chain, slot);
    hide Good, Landed, Unfooled, Spliced, AllOrNothing, WriteObject, WritePhase, ChainAt, SuperBytes, Size, Append, AppendTo, AppendRoom, SuperOf,
         Extent, Select, Armed;
    GoodSizes(h, m, chain, slot);
    SelectFinds(h, m, chain, slot);
    RoomIs(chain, e);
    SizeSnoc(chain, e);
    if EntryOk(e) && Fits(chain + [e]) {
      AppendIs(h, m, f, e, SuperOf(chain), slot);
      AppendToIs(h, m, f, e, chain, slot);
      ObjectDone(h, m, f, |chain| + 2, DATA0 + Size(chain), e);
      OneObject(f, e);
      var w := WriteObject(h, m, f, |chain| + 2, DATA0 + Size(chain), e);
      SuperDone(w.m, w.fault, 1 - slot, SuperBytes(h, SuperOf(chain + [e])));
    } else {
      AppendRefused(h, m, f, e, SuperOf(chain), slot);
    }
  }

  lemma OneObject(f: Fault, e: Entry)
    ensures Cuts(f, [e]) <==> CutsObject(f, e) || (Armed(f) && f.phase == Superblock && f.after <= SUPER_SIZE)
    ensures Armed(f) && f.phase == Superblock ==> ObjectBytes(f.phase, e) == 0
  {
    OneSum(f.phase, e);
  }

  lemma OneSum(phase: Phase, e: Entry)
    ensures PhaseBytes(phase, [e]) == if phase == Superblock then SUPER_SIZE else ObjectBytes(phase, e)
  {
    assert [e][1..] == [];
    assert phase != Superblock ==> PhaseBytes(phase, []) == 0;
  }

  lemma TwoSum(phase: Phase, p: Entry, s: Entry)
    ensures PhaseBytes(phase, [p, s]) == if phase == Superblock then SUPER_SIZE else ObjectBytes(phase, p) + ObjectBytes(phase, s)
  {
    assert [p, s][1..] == [s];
    OneSum(phase, s);
  }

  /** `cold_store_deployment` on a good medium: refused exactly if an object is empty, too long or
      without room, or if the fault reaches one of them; in doubt exactly if it reaches the superblock;
      and otherwise done. */
  lemma DeployExact(h: Hash, m: seq<Byte>, f: Fault, pill: seq<Byte>, snap: seq<Byte>, chain: seq<Entry>, slot: nat)
    requires Good(h, m, chain, slot)
    ensures |m| == SIZE && slot <= 1
    ensures var o := Deploy(h, m, f, pill, snap); var more := Pair(pill, snap);
            && o.result == (if !PairRoom(chain, pill, snap) || (Cuts(f, more) && f.phase != Superblock) then Rejected
                            else if Cuts(f, more) then DurabilityUnknown else Committed)
            && (o.result == Committed ==> Landed(h, o.m, chain, slot, more))
  {
    DeployStep(h, m, f, chain, slot, pill, snap);
    hide Good, Landed, Unfooled, Spliced, AllOrNothing, Select, Deploy, DeployTo, PlanOk, AfterPill, SuperOf, PairRoom, Cuts, Pair;
    SelectFinds(h, m, chain, slot);
    GoodSizes(h, m, chain, slot);
    PlansAre(chain, pill, snap);
    if PairRoom(chain, pill, snap) {
      DeployIs(h, m, f, pill, snap, SuperOf(chain), slot);
      DeployToExact(h, m, f, chain, slot, pill, snap);
    } else {
      DeployRefused(h, m, f, pill, snap, SuperOf(chain), slot);
    }
  }

  lemma DeployToExact(h: Hash, m: seq<Byte>, f: Fault, chain: seq<Entry>, slot: nat, pill: seq<Byte>, snap: seq<Byte>)
    requires Good(h, m, chain, slot) && PairRoom(chain, pill, snap)
    ensures var last := SuperOf(chain);
            && |m| == SIZE && PlanOk(last, |pill|) && PlanOk(AfterPill(last, pill), |snap|)
            && DeployTo(h, m, f, last, slot, pill, snap).result ==
               if Cuts(f, Pair(pill, snap)) then (if f.phase == Superblock then DurabilityUnknown else Rejected) else Committed
  {
    hide Good, WriteObject, WritePhase, ObjectAt, ObjectValidate, ChainAt, Size, Extent, Agree, SuperOf, PlanOk, Block, SuperBytes, Align8,
         SlotOff, Fits, EntryOk, Cuts, SameSlots, Armed;
    var (p, s, more) := (Entry(BLOB, pill), Entry(SNAP, snap), Pair(pill, snap));
    GoodSizes(h, m, chain, slot);
    PlansAre(chain, pill, snap);
    PairPlaced(h, m, f, chain, slot, pill, snap);
    var off := DATA0 + Size(chain);
    var (pillHead, snapHead) := (off + Extent(p), DATA0 + Size(chain + more));
    ObjectDone(h, m, f, |chain| + 2, off, p);
    var w1 := WriteObject(h, m, f, |chain| + 2, off, p);
    if w1.done {
      ObjectValidates(h, w1.m, pillHead, off, |chain| + 2, p);
      ObjectDone(h, w1.m, w1.fault, |chain| + 3, pillHead, s);
      var w2 := WriteObject(h, w1.m, w1.fault, |chain| + 3, pillHead, s);
      if w2.done {
        ObjectValidates(h, w2.m, snapHead, pillHead, |chain| + 3, s);
        var last := SuperOf(chain);
        SuperDone(w2.m, w2.fault, 1 - Bit(slot), SuperBytes(h, Super(last.generation + 2, last.generation + 2, pillHead, snapHead, last.logCount)));
      }
    }
    TwoObjects(f, p, s);
  }

  /** The bytes left to the fault by the first object decide about the second. */
  lemma TwoObjects(f: Fault, p: Entry, s: Entry)
    ensures var g := if Armed(f) then f.(after := f.after - ObjectBytes(f.phase, p)) else f;
            Cuts(f, [p, s]) <==> CutsObject(f, p) || (!CutsObject(f, p) && CutsObject(g, s))
                                 || (Armed(f) && f.phase == Superblock && f.after <= SUPER_SIZE)
  {
    TwoSum(f.phase, p, s);
  }

  // ----- Runs without a cut -----

  /** The objects of a run, in order. */
  function All(ops: seq<Op>): seq<Entry> {
    if ops == [] then [] else Objects(ops[0]) + All(ops[1..])
  }

  /** Every operation reports success. */
  predicate AllSucceed(h: Hash, st: State, ops: seq<Op>)
    requires Ready(st)
    decreases |ops|
  {
    ops == [] || (Do(h, st.m, st.fault, ops[0]).2 && AllSucceed(h, Next(h, st, ops[0]), ops[1..]))
  }

  lemma {:induction false} SizeSum(a: seq<Entry>, b: seq<Entry>)
    ensures Size(a + b) == Size(a) + Size(b)
    decreases |b|
  {
    if b == [] {
      assert a + b == a;
    } else {
      assert (a + [b[0]]) + b[1..] == a + b;
      assert [b[0]] + b[1..] == b;
      SizeSnoc(a, b[0]);
      SizeSum(a + [b[0]], b[1..]);
    }
  }

  /** One operation with room and without a cut. */
  lemma StepSucceeds(h: Hash, st: State, op: Op)
    requires Good(h, st.m, st.chain, st.slot) && Writes(op) && OpOk(op) && !Armed(st.fault)
    requires EntriesOk(Objects(op)) && Fits(st.chain + Objects(op))
    ensures Ready(st) && Do(h, st.m, st.fault, op).2
    ensures var next := Next(h, st, op);
            Good(h, next.m, next.chain, next.slot) && next.chain == st.chain + Objects(op) && !Armed(next.fault)
  {
    hide Good, Landed, Spliced, Append, Deploy, SuperBytes, SuperOf, Block, Size, Older, Passes;
    GoodSizes(h, st.m, st.chain, st.slot);
    StepSafe(h, st, op);
    match op {
      case AppendOp(e) =>
        assert EntryOk(Objects(op)[0]);
        AppendExact(h, st.m, st.fault, e, st.chain, st.slot);
        AppendKeepsFault(h, st.m, st.fault, e);
      case DeployOp(pill, snap) =>
        assert EntryOk(Objects(op)[0]) && EntryOk(Objects(op)[1]);
        DeployExact(h, st.m, st.fault, pill, snap, st.chain, st.slot);
        DeployKeepsFault(h, st.m, st.fault, pill, snap);
    }
    LandedUnfooled(h, Next(h, st, op).m, st.chain, st.slot, Objects(op));
  }

  lemma LandedUnfooled(h: Hash, m: seq<Byte>, chain: seq<Entry>, slot: nat, more: seq<Entry>)
    requires |m| == SIZE && slot <= 1 && Landed(h, m, chain, slot, more)
    ensures Unfooled(h, Block(m, 1 - slot), SuperBytes(h, SuperOf(chain + more)), chain)
  {
    hide Passes, SuperBytes, SuperOf, Older;
  }

  lemma PhaseKeepsFault(m: seq<Byte>, f: Fault, phase: Phase, off: nat, src: seq<Byte>)
    requires off + |src| <= |m| && !Armed(f) && phase != NoPhase
    ensures WritePhase(m, f, phase, off, src).fault == f
  {
  }

  lemma AppendKeepsFault(h: Hash, m: seq<Byte>, f: Fault, e: Entry)
    requires |m| == SIZE && !Armed(f)
    ensures Append(h, m, f, e).fault == f
  {
    hide WritePhase, Select, NextSuper, SuperBytes, HeaderBytes, Align8, LE, Armed;
    forall m': seq<Byte>, phase: Phase, off: nat, src: seq<Byte> | off + |src| <= |m'| && phase != NoPhase
      ensures WritePhase(m', f, phase, off, src).fault == f
    {
      PhaseKeepsFault(m', f, phase, off, src);
    }
  }

  lemma DeployKeepsFault(h: Hash, m: seq<Byte>, f: Fault, pill: seq<Byte>, snap: seq<Byte>)
    requires |m| == SIZE && !Armed(f)
    ensures Deploy(h, m, f, pill, snap).fault == f
  {
    hide WritePhase, Select, SuperBytes, HeaderBytes, LE, Armed, ObjectValidate;
    forall m': seq<Byte>, phase: Phase, off: nat, src: seq<Byte> | off + |src| <= |m'| && phase != NoPhase
      ensures WritePhase(m', f, phase, off, src).fault == f
    {
      PhaseKeepsFault(m', f, phase, off, src);
    }
  }

  /** A run of appends and deployments that all have room, with no fault armed: every one succeeds,
      and the chain selected is the one there was with all their objects behind it.  No hash is
      assumed to be free of collisions. */
  lemma {:induction false} RunSucceeds(h: Hash, st: State, ops: seq<Op>)
    requires Good(h, st.m, st.chain, st.slot) && !Armed(st.fault)
    requires forall i :: 0 <= i < |ops| ==> Writes(ops[i]) && OpOk(ops[i])
    requires EntriesOk(All(ops)) && Fits(st.chain + All(ops))
    ensures Ready(st) && AllSucceed(h, st, ops)
    ensures var r := Run(h, st, ops);
            && r.chain == st.chain + All(ops) && Good(h, r.m, r.chain, r.slot)
            && Select(h, r.m) == Selection(Valid, SuperOf(r.chain), r.slot)
    decreases |ops|
  {
    hide Good, Do, Next, Select, SuperOf, Armed, Size;
    GoodSizes(h, st.m, st.chain, st.slot);
    if ops == [] {
      SelectFinds(h, st.m, st.chain, st.slot);
      assert st.chain + [] == st.chain;
    } else {
      var (first, rest) := (Objects(ops[0]), All(ops[1..]));
      assert (st.chain + first) + rest == st.chain + All(ops);
      SizeSum(st.chain + first, rest);
      forall i | 0 <= i < |first|
        ensures EntryOk(first[i])
      {
        assert All(ops)[i] == first[i];
      }
      forall i | 0 <= i < |rest|
        ensures EntryOk(rest[i])
      {
        assert All(ops)[|first| + i] == rest[i];
      }
      StepSucceeds(h, st, ops[0]);
      RunSucceeds(h, Next(h, st, ops[0]), ops[1..]);
    }
  }
}
