/** Whole runs of the cold log, and reading a log back. */
module ColdRuns {
  import opened Bytes
  import opened ColdFormat
  import opened ColdChain
  import opened ColdWrites
  import opened ColdSafety

  datatype Op =
    | ArmFault(fault: Fault)
    | AppendOp(entry: Entry)
    | DeployOp(pill: seq<Byte>, snap: seq<Byte>)
    | FormatOp

  /** The medium and the armed fault; and, for the reader, the chain and the slot it should
      select. */
  datatype State = State(m: seq<Byte>, fault: Fault, chain: seq<Entry>, slot: nat)

  predicate OpOk(op: Op) {
    op.AppendOp? ==> BLOB <= op.entry.kind <= SNAP
  }

  /** What an operation is to add. */
  function Objects(op: Op): seq<Entry> {
    match op
    case AppendOp(e) => [e]
    case DeployOp(pill, snap) => Pair(pill, snap)
    case _ => []
  }

  /** The medium and the fault after an operation, and whether it reported success. */
  function Do(h: Hash, m: seq<Byte>, f: Fault, op: Op): (r: (seq<Byte>, Fault, bool))
    requires |m| == SIZE
    ensures |r.0| == SIZE
  {
    match op
    case ArmFault(g) => (m, g, true)
    case AppendOp(e) => var o := Append(h, m, f, e); (o.m, o.fault, o.result == Valid)
    case DeployOp(pill, snap) => var o := Deploy(h, m, f, pill, snap); (o.m, o.fault, o.result == Committed)
    case FormatOp => (Format(h, m), f, true)
  }

  /** Appends and deployments write the free slot. */
  predicate Writes(op: Op) {
    op.AppendOp? || op.DeployOp?
  }

  predicate Ready(st: State) {
    |st.m| == SIZE && st.slot <= 1
  }

  /** The run's own account of the chain: an operation moves it on when its superblock landed. */
  function Next(h: Hash, st: State, op: Op): (next: State)
    requires Ready(st)
    ensures Ready(next)
  {
    var (m, f, _) := Do(h, st.m, st.fault, op);
    if op.FormatOp? then State(m, f, [], 0)
    else if op.ArmFault? then State(m, f, st.chain, st.slot)
    else if Landed(h, m, st.chain, st.slot, Objects(op)) then State(m, f, st.chain + Objects(op), 1 - st.slot)
    else State(m, f, st.chain, st.slot)
  }

  function Run(h: Hash, st: State, ops: seq<Op>): (r: State)
    requires Ready(st)
    ensures Ready(r)
    decreases |ops|
  {
    if ops == [] then st else Run(h, Next(h, st, ops[0]), ops[1..])
  }

  predicate UnfooledStep(h: Hash, st: State, op: Op)
    requires Ready(st)
  {
    Unfooled(h, Block(Do(h, st.m, st.fault, op).0, 1 - st.slot), SuperBytes(h, SuperOf(st.chain + Objects(op))), st.chain)
  }

  /** No operation of the run meets a torn superblock that happens to pass. */
  predicate UnfooledRun(h: Hash, st: State, ops: seq<Op>)
    requires Ready(st)
    decreases |ops|
  {
    ops == [] || ((Writes(ops[0]) ==> UnfooledStep(h, st, ops[0])) && UnfooledRun(h, Next(h, st, ops[0]), ops[1..]))
  }

  /** The account is the completed operations in order: one that reported success added all of
      its objects; one that did not added all or none, and none unless it was cut in its superblock. */
  predicate Account(h: Hash, st: State, ops: seq<Op>)
    requires Ready(st)
    decreases |ops|
  {
    ops == [] ||
    (var (op, next) := (ops[0], Next(h, st, ops[0]));
     var success := Do(h, st.m, st.fault, op).2;
     && (if op.FormatOp? then next.chain == []
         else if success then next.chain == st.chain + Objects(op)
         else if st.fault.phase != Superblock then next.chain == st.chain
         else next.chain == st.chain || next.chain == st.chain + Objects(op))
     && Account(h, next, ops[1..]))
  }

  lemma FormatIsGood(h: Hash, m: seq<Byte>)
    requires |m| == SIZE
    ensures Good(h, Format(h, m), [], 0) && Block(Format(h, m), 1) == Zeros(SUPER_SIZE)
  {
    var s := SuperBytes(h, Super(1, 0, 0, DATA0, 0));
    assert SuperOf([]) == Super(1, 0, 0, DATA0, 0);
    var cleared := Put(m, 0, Zeros(DATA0));
    var r := Put(cleared, SLOT0, s);
    hide SuperBytes, SuperOf, Put;
    assert r[SLOT0..SLOT0 + SUPER_SIZE] == s;
    PutApart(cleared, SLOT0, s, SLOT1, SLOT1 + SUPER_SIZE);
    ZeroBlock(cleared);
    ZerosDoNotPass(h, Block(r, 1));
  }

  lemma ZeroBlock(m: seq<Byte>)
    requires |m| == SIZE && m[0..DATA0] == Zeros(DATA0)
    ensures m[SLOT1..SLOT1 + SUPER_SIZE] == Zeros(SUPER_SIZE)
  {
    forall i | SLOT1 <= i < SLOT1 + SUPER_SIZE
      ensures m[i] == 0
    {
      assert m[i] == m[0..DATA0][i];
    }
  }

  lemma ZerosDoNotPass(h: Hash, b: seq<Byte>)
    requires b == Zeros(SUPER_SIZE)
    ensures !Passes(h, b) && b[96..128] == Zeros(32)
  {
    assert b[0..8] == [0, 0, 0, 0, 0, 0, 0, 0];
    ZeroWord(b[0..8]);
  }

  lemma {:induction false} ZeroWord(s: seq<Byte>)
    requires forall i :: 0 <= i < |s| ==> s[i] == 0
    ensures FromLE(s) == 0
  {
    if s != [] {
      ZeroWord(s[1..]);
    }
  }

  /** One operation keeps the invariant and the account. */
  lemma StepSafe(h: Hash, st: State, op: Op)
    requires Good(h, st.m, st.chain, st.slot) && OpOk(op)
    ensures Ready(st)
    ensures var (next, success) := (Next(h, st, op), Do(h, st.m, st.fault, op).2);
            && ((Writes(op) ==> UnfooledStep(h, st, op)) ==> Good(h, next.m, next.chain, next.slot))
            && (Writes(op) ==> Spliced(h, st.m, next.m, st.fault, next.fault, st.chain, st.slot, Objects(op)))
            && (if op.FormatOp? then next.chain == []
                else if success then next.chain == st.chain + Objects(op)
                else if st.fault.phase != Superblock then next.chain == st.chain
                else next.chain == st.chain || next.chain == st.chain + Objects(op))
  {
    hide Good, Landed, Spliced, Reach, Fits, Select, Unfooled, Append, Deploy, Format, SuperBytes, SuperOf, Block, Pair;
    GoodSizes(h, st.m, st.chain, st.slot);
    match op
    case AppendOp(e) => AppendStep(h, st.m, st.fault, e, st.chain, st.slot);
    case DeployOp(pill, snap) => DeployStep(h, st.m, st.fault, st.chain, st.slot, pill, snap);
    case FormatOp => FormatIsGood(h, st.m);
    case ArmFault(_) =>
  }

  /** Crash safety over every run: the selected superblock is that of the account, whose chain is
      the completed operations in order. */
  lemma {:induction false} RunSafe(h: Hash, st: State, ops: seq<Op>)
    requires Good(h, st.m, st.chain, st.slot) && Ready(st) && UnfooledRun(h, st, ops)
    requires forall i :: 0 <= i < |ops| ==> OpOk(ops[i])
    ensures Account(h, st, ops)
    ensures var r := Run(h, st, ops);
            Good(h, r.m, r.chain, r.slot) && Select(h, r.m) == Selection(Valid, SuperOf(r.chain), r.slot)
    decreases |ops|
  {
    hide Good, Next, Do, Select, SuperOf, UnfooledStep, Spliced;
    if ops == [] {
      SelectFinds(h, st.m, st.chain, st.slot);
    } else {
      StepSafe(h, st, ops[0]);
      RunSafe(h, Next(h, st, ops[0]), ops[1..]);
    }
  }

  /** The slots of a good medium never hold two valid superblocks of one generation. */
  lemma OneOfAGeneration(h: Hash, m: seq<Byte>, chain: seq<Entry>, slot: nat)
    requires Good(h, m, chain, slot)
    ensures |m| == SIZE
    ensures SuperValidate(h, m, SLOT0) == Valid && SuperValidate(h, m, SLOT1) == Valid ==>
              ReadSuper(Block(m, 0)).generation != ReadSuper(Block(m, 1)).generation
  {
    hide SuperValidate, ReadSuper, SuperOf, Holds, Free;
    HeldIsValid(h, m, chain, slot);
    if SuperValidate(h, m, SlotOff(1 - slot)) == Valid {
      FreeIsNotNewer(h, m, chain, slot);
    }
  }

  // ----- When the assumption on torn superblocks is needed -----

  /** The digest bytes of the slot are, whole, those of a superblock selected before. */
  predicate DigestWhole(h: Hash, b: seq<Byte>, chain: seq<Entry>)
    requires |b| == SUPER_SIZE
  {
    exists j: nat :: j < |chain| && b[64..96] == h(SuperFields(SuperOf(chain[..j])))
  }

  /** The hash does not give the first 64 bytes of `b` the digest of another older superblock. */
  predicate NoCollision(h: Hash, b: seq<Byte>, chain: seq<Entry>)
    requires |b| == SUPER_SIZE
  {
    forall j: nat :: j < |chain| && h(b[..64]) == h(SuperFields(SuperOf(chain[..j]))) ==> b[..64] == SuperFields(SuperOf(chain[..j]))
  }

  lemma Splice(s: seq<Byte>, p: seq<Byte>, k: nat)
    requires |s| == |p| == SUPER_SIZE && k <= SUPER_SIZE
    ensures var b := s[..k] + p[k..];
            && |b| == SUPER_SIZE
            && (k <= 64 ==> b[64..96] == p[64..96])
            && (k >= 64 ==> b[..64] == s[..64])
  {
  }

  lemma ThreeParts(b: seq<Byte>, s: seq<Byte>)
    requires |b| == |s| == SUPER_SIZE && b[..64] == s[..64] && b[64..96] == s[64..96] && b[96..128] == s[96..128]
    ensures b == s
  {
    assert b == b[..64] + b[64..96] + b[96..128];
    assert s == s[..64] + s[64..96] + s[96..128];
  }

  lemma SuperParts(h: Hash, s: Super)
    ensures SuperBytes(h, s)[..64] == SuperFields(s) && SuperBytes(h, s)[64..96] == h(SuperFields(s))
    ensures SuperBytes(h, s)[96..128] == Zeros(32)
  {
  }

  /** The digest bytes of the free slot: still clear, or whole. */
  predicate DigestKnown(h: Hash, b: seq<Byte>, chain: seq<Entry>)
    requires |b| == SUPER_SIZE
  {
    b[64..96] == Zeros(32) || DigestWhole(h, b, chain)
  }

  /** While the slot's digest is clear or whole, a torn superblock that passes would be a hash
      collision, or a preimage of zeros. */
  lemma KnownDigestUnfooled(h: Hash, p: seq<Byte>, s: Super, k: nat, chain: seq<Entry>)
    requires |p| == SUPER_SIZE && k <= SUPER_SIZE && p[96..128] == Zeros(32) && DigestKnown(h, p, chain)
    requires var b := SuperBytes(h, s)[..k] + p[k..]; NoCollision(h, b, chain) && h(b[..64]) != Zeros(32)
    ensures Unfooled(h, SuperBytes(h, s)[..k] + p[k..], SuperBytes(h, s), chain)
  {
    hide SuperFields, SuperOf, SuperHeaderOk, Field;
    var a := SuperBytes(h, s);
    var b := a[..k] + p[k..];
    SuperParts(h, s);
    TailSpliced(a, p, k);
    Splice(a, p, k);
    hide SuperBytes;
    if Passes(h, b) {
      if k >= 64 {
        ThreeParts(b, a);
      } else {
        assert DigestWhole(h, p, chain);
        var j: nat :| j < |chain| && p[64..96] == h(SuperFields(SuperOf(chain[..j])));
        var older := SuperBytes(h, SuperOf(chain[..j]));
        SuperParts(h, SuperOf(chain[..j]));
        ThreeParts(b, older);
        assert Older(h, b, chain);
      }
    }
  }

  /** Only a cut strictly inside the digest bytes leaves a slot whose digest is neither clear nor
      whole: one before them leaves them, one behind them is the whole superblock. */
  lemma DigestStaysKnown(h: Hash, p: seq<Byte>, s: Super, k: nat, chain: seq<Entry>)
    requires |p| == SUPER_SIZE && k <= SUPER_SIZE && p[96..128] == Zeros(32) && DigestKnown(h, p, chain)
    ensures var b := SuperBytes(h, s)[..k] + p[k..];
            && |b| == SUPER_SIZE
            && (k <= 64 ==> DigestKnown(h, b, chain))
            && (k >= 96 ==> b == SuperBytes(h, s))
  {
    var a := SuperBytes(h, s);
    Splice(a, p, k);
    if k >= 96 {
      SuperParts(h, s);
      hide SuperBytes, SuperFields;
      var b := a[..k] + p[k..];
      TailSpliced(a, p, k);
      assert b[..96] == a[..96];
      ThreeParts(b, a);
    }
  }

  /** A slot given up to a longer chain has a whole digest. */
  lemma DigestOfGivenUp(h: Hash, b: seq<Byte>, chain: seq<Entry>, more: seq<Entry>)
    requires b == SuperBytes(h, SuperOf(chain)) && more != []
    ensures DigestWhole(h, b, chain + more)
  {
    SuperParts(h, SuperOf(chain));
    hide SuperBytes, SuperFields, SuperOf;
    assert (chain + more)[..|chain|] == chain;
  }

  /** The fault fired in this operation, inside the digest bytes of its superblock. */
  predicate CutsDigest(f: Fault, f': Fault) {
    f'.fired && 64 < Reach(f) < 96
  }

  /** What is asked of an operation that writes the free slot: no cut inside the digest bytes, and a
      hash under which the first 64 bytes then in the slot have no digest but their own. */
  predicate CleanStep(h: Hash, st: State, op: Op)
    requires Ready(st)
  {
    var (m, f, _) := Do(h, st.m, st.fault, op);
    var b := Block(m, 1 - st.slot);
    !CutsDigest(st.fault, f) && NoCollision(h, b, st.chain) && h(b[..64]) != Zeros(32)
  }

  predicate CleanRun(h: Hash, st: State, ops: seq<Op>)
    requires Ready(st)
    decreases |ops|
  {
    ops == [] || ((Writes(ops[0]) ==> CleanStep(h, st, ops[0])) && CleanRun(h, Next(h, st, ops[0]), ops[1..]))
  }

  /** The invariant of clean runs. */
  predicate Known(h: Hash, st: State) {
    Ready(st) && Good(h, st.m, st.chain, st.slot) && DigestKnown(h, Block(st.m, 1 - st.slot), st.chain)
  }

  /** One splice of the free slot. */
  lemma SpliceClean(h: Hash, m: seq<Byte>, m': seq<Byte>, f: Fault, f': Fault, chain: seq<Entry>, slot: nat, more: seq<Entry>)
    requires Good(h, m, chain, slot) && |m| == |m'| == SIZE && slot <= 1 && DigestKnown(h, Block(m, 1 - slot), chain)
    requires Spliced(h, m, m', f, f', chain, slot, more) && !CutsDigest(f, f') && more != []
    requires var b := Block(m', 1 - slot); NoCollision(h, b, chain) && h(b[..64]) != Zeros(32)
    ensures Unfooled(h, Block(m', 1 - slot), SuperBytes(h, SuperOf(chain + more)), chain)
    ensures if Landed(h, m', chain, slot, more) then DigestKnown(h, Block(m', slot), chain + more)
            else DigestKnown(h, Block(m', 1 - slot), chain)
  {
    hide ChainAt, SuperBytes, SuperOf, Passes, Older, Fits, Reach, NoCollision, DigestWhole, EntriesOk;
    var p := Block(m, 1 - slot);
    if Block(m', 1 - slot) != p {
      KnownDigestUnfooled(h, p, SuperOf(chain + more), Reach(f), chain);
      DigestStaysKnown(h, p, SuperOf(chain + more), Reach(f), chain);
    }
    if Landed(h, m', chain, slot, more) {
      DigestOfGivenUp(h, Block(m', slot), chain, more);
    }
  }

  lemma StepClean(h: Hash, st: State, op: Op)
    requires Known(h, st) && OpOk(op) && (Writes(op) ==> CleanStep(h, st, op))
    ensures Writes(op) ==> UnfooledStep(h, st, op)
    ensures Known(h, Next(h, st, op))
  {
    hide Good, Landed, Spliced, Reach, Fits, Select, Unfooled, Append, Deploy, Format, SuperBytes, SuperOf, Block, NoCollision, DigestKnown, CutsDigest;
    StepSafe(h, st, op);
    if Writes(op) {
      SpliceClean(h, st.m, Next(h, st, op).m, st.fault, Next(h, st, op).fault, st.chain, st.slot, Objects(op));
    } else if op.FormatOp? {
      FormatIsGood(h, st.m);
      ClearIsKnown(h, Block(Format(h, st.m), 1), []);
    }
  }

  lemma ClearIsKnown(h: Hash, b: seq<Byte>, chain: seq<Entry>)
    requires b == Zeros(SUPER_SIZE)
    ensures DigestKnown(h, b, chain)
  {
    assert b[64..96] == Zeros(32);
  }

  /** Without a cut inside the digest bytes of a superblock, only a collision of the hash could fool
      a run. */
  lemma {:induction false} CleanIsUnfooled(h: Hash, st: State, ops: seq<Op>)
    requires Known(h, st) && CleanRun(h, st, ops)
    requires forall i :: 0 <= i < |ops| ==> OpOk(ops[i])
    ensures UnfooledRun(h, st, ops)
    decreases |ops|
  {
    hide Good, DigestKnown, CleanStep, UnfooledStep, Next;
    if ops != [] {
      StepClean(h, st, ops[0]);
      CleanIsUnfooled(h, Next(h, st, ops[0]), ops[1..]);
    }
  }

  /** Crash safety of every clean run from a formatted medium, whatever was on it before. */
  lemma FormattedRunSafe(h: Hash, m: seq<Byte>, f: Fault, ops: seq<Op>)
    requires |m| == SIZE && CleanRun(h, State(Format(h, m), f, [], 0), ops)
    requires forall i :: 0 <= i < |ops| ==> OpOk(ops[i])
    ensures var st := State(Format(h, m), f, [], 0);
            && Account(h, st, ops)
            && var r := Run(h, st, ops);
               Good(h, r.m, r.chain, r.slot) && Select(h, r.m) == Selection(Valid, SuperOf(r.chain), r.slot)
  {
    hide Good, Format, CleanRun, UnfooledRun, Account, Run, Select, SuperOf, Block, DigestKnown;
    var st := State(Format(h, m), f, [], 0);
    FormatIsGood(h, m);
    ClearIsKnown(h, Block(Format(h, m), 1), []);
    CleanIsUnfooled(h, st, ops);
    RunSafe(h, st, ops);
  }
}
