/** The writing side of src/cold.c: writes that a fault can cut at any byte, and what each
    operation leaves on the medium. */
module ColdWrites {
  import opened Arith
  import opened Bytes
  import opened ColdFormat
  import opened ColdChain

  datatype Phase = NoPhase | ObjectHeader | Payload | ObjectCommit | Superblock

  /** The armed fault: it cuts the writes of one phase after a number of bytes. */
  datatype Fault = Fault(phase: Phase, after: int, fired: bool)

  datatype Written = Written(m: seq<Byte>, fault: Fault, done: bool)

  /** `cold_write_phase`. */
  function WritePhase(m: seq<Byte>, f: Fault, phase: Phase, off: nat, src: seq<Byte>): (w: Written)
    requires off + |src| <= |m|
    ensures |w.m| == |m|
  {
    if f.phase == phase && f.after >= 0 && !f.fired then
      var n := Min(f.after, |src|);
      var fires := n != |src| || f.after == n;
      Written(Put(m, off, src[..n]), Fault(f.phase, f.after - n, fires), !fires)
    else Written(Put(m, off, src), f, true)
  }

  /** The three writes of an object; the first one that is cut ends them. */
  function WriteObject(h: Hash, m: seq<Byte>, f: Fault, generation: nat, off: nat, e: Entry): (w: Written)
    requires off + OBJ_SIZE + |e.payload| <= |m|
    ensures |w.m| == |m|
  {
    var w := WritePhase(m, f, ObjectHeader, off, HeaderBytes(h, generation, e, 0));
    if !w.done then w else
    var w := WritePhase(w.m, w.fault, Payload, off + OBJ_SIZE, e.payload);
    if !w.done then w else
    WritePhase(w.m, w.fault, ObjectCommit, off + 104, LE(8, COMMIT))
  }

  datatype Outcome = Outcome(m: seq<Byte>, fault: Fault, result: Result)

  /** The writes of `append_obj`: the object behind the data, then the superblock in the other
      slot. */
  function AppendTo(h: Hash, m: seq<Byte>, f: Fault, last: Super, slot: nat, e: Entry): (w: Written)
    requires |m| == SIZE && Align8(last.dataHead + OBJ_SIZE + |e.payload|) <= SIZE
    ensures |w.m| == SIZE
  {
    var w := WriteObject(h, m, f, last.generation + 1, last.dataHead, e);
    if !w.done then w else
    var next := NextSuper(last, e.kind, last.dataHead, Align8(last.dataHead + OBJ_SIZE + |e.payload|));
    WritePhase(w.m, w.fault, Superblock, SlotOff(1 - Bit(slot)), SuperBytes(h, next))
  }

  /** `append_obj`. */
  function Append(h: Hash, m: seq<Byte>, f: Fault, e: Entry): (o: Outcome)
    requires |m| == SIZE
    ensures |o.m| == SIZE
  {
    hide Select, AppendTo, Align8;
    var len := |e.payload|;
    if len == 0 || len > PAYLOAD_MAX then Outcome(m, f, LengthBad) else
    var sel := Select(h, m);
    if sel.result != Valid then Outcome(m, f, sel.result) else
    if sel.super.generation == U64_MAX || Align8(sel.super.dataHead + OBJ_SIZE + len) > SIZE then Outcome(m, f, LengthBad) else
    var w := AppendTo(h, m, f, sel.super, sel.slot, e);
    Outcome(w.m, w.fault, if w.done then Valid else WriteFault)
  }

  function Bit(slot: nat): (b: nat)
    ensures b <= 1
  {
    if slot == 0 then 0 else 1
  }

  datatype Deployed = Rejected | Committed | DurabilityUnknown

  datatype DeployOutcome = DeployOutcome(m: seq<Byte>, fault: Fault, result: Deployed)

  /** `append_plan`: where the object goes and where the data then ends. */
  predicate PlanOk(last: Super, len: nat) {
    0 < len <= PAYLOAD_MAX && last.generation <= U64_MAX - 2 && Align8(last.dataHead + OBJ_SIZE + len) <= SIZE
  }

  /** The superblock as it stands between the two objects of a deployment. */
  function AfterPill(last: Super, pill: seq<Byte>): Super {
    last.(generation := last.generation + 1, dataHead := Align8(last.dataHead + OBJ_SIZE + |pill|))
  }

  /** The writes of `cold_store_deployment`: both objects, each checked after it is written, then
      one superblock. */
  function DeployTo(h: Hash, m: seq<Byte>, f: Fault, last: Super, slot: nat, pill: seq<Byte>, snap: seq<Byte>): (o: DeployOutcome)
    requires |m| == SIZE && PlanOk(last, |pill|) && PlanOk(AfterPill(last, pill), |snap|)
    ensures |o.m| == SIZE
  {
    var (off, pillHead) := (last.dataHead, AfterPill(last, pill).dataHead);
    var snapHead := Align8(pillHead + OBJ_SIZE + |snap|);
    var w := WriteObject(h, m, f, last.generation + 1, off, Entry(BLOB, pill));
    if !w.done || ObjectValidate(h, w.m, pillHead, off, BLOB, last.generation + 1) != Valid then DeployOutcome(w.m, w.fault, Rejected) else
    var w := WriteObject(h, w.m, w.fault, last.generation + 2, pillHead, Entry(SNAP, snap));
    if !w.done || ObjectValidate(h, w.m, snapHead, pillHead, SNAP, last.generation + 2) != Valid then DeployOutcome(w.m, w.fault, Rejected) else
    var next := Super(last.generation + 2, last.generation + 2, pillHead, snapHead, last.logCount);
    var v := WritePhase(w.m, w.fault, Superblock, SlotOff(1 - Bit(slot)), SuperBytes(h, next));
    DeployOutcome(v.m, v.fault, if v.done then Committed else DurabilityUnknown)
  }

  /** `cold_store_deployment` on an inactive medium. */
  function Deploy(h: Hash, m: seq<Byte>, f: Fault, pill: seq<Byte>, snap: seq<Byte>): (o: DeployOutcome)
    requires |m| == SIZE
    ensures |o.m| == SIZE
  {
    var sel := Select(h, m);
    if sel.result != Valid || !PlanOk(sel.super, |pill|) || !PlanOk(AfterPill(sel.super, pill), |snap|) then DeployOutcome(m, f, Rejected)
    else DeployTo(h, m, f, sel.super, sel.slot, pill, snap)
  }

  /** `cold_format`: the first page cleared, and the superblock of an empty chain. */
  function Format(h: Hash, m: seq<Byte>): (r: seq<Byte>)
    requires |m| == SIZE
    ensures |r| == SIZE
  {
    Put(Put(m, 0, Zeros(DATA0)), SLOT0, SuperBytes(h, Super(1, 0, 0, DATA0, 0)))
  }

  // ----- What the writes leave -----

  lemma WritePhaseAgrees(m: seq<Byte>, f: Fault, phase: Phase, off: nat, src: seq<Byte>, a: nat, z: nat)
    requires off + |src| <= |m| && a <= z <= |m| && (z <= off || off + |src| <= a)
    ensures Agree(m, WritePhase(m, f, phase, off, src).m, a, z)
  {
    hide Agree, Put;
    if f.phase == phase && f.after >= 0 && !f.fired {
      PutAgrees(m, off, src[..Min(f.after, |src|)], a, z);
    } else {
      PutAgrees(m, off, src, a, z);
    }
  }

  /** An object's writes touch nothing outside its extent. */
  lemma WriteObjectAgrees(h: Hash, m: seq<Byte>, f: Fault, generation: nat, off: nat, e: Entry, a: nat, z: nat)
    requires off + Extent(e) <= |m| && a <= z <= |m| && (z <= off || off + Extent(e) <= a)
    ensures Agree(m, WriteObject(h, m, f, generation, off, e).m, a, z)
  {
    hide Agree, WritePhase, HeaderBytes, LE, Extent;
    var w1 := WritePhase(m, f, ObjectHeader, off, HeaderBytes(h, generation, e, 0));
    WritePhaseAgrees(m, f, ObjectHeader, off, HeaderBytes(h, generation, e, 0), a, z);
    if w1.done {
      var w2 := WritePhase(w1.m, w1.fault, Payload, off + OBJ_SIZE, e.payload);
      WritePhaseAgrees(w1.m, w1.fault, Payload, off + OBJ_SIZE, e.payload, a, z);
      AgreeTwice(m, w1.m, w2.m, a, z);
      if w2.done {
        var w3 := WritePhase(w2.m, w2.fault, ObjectCommit, off + 104, LE(8, COMMIT));
        WritePhaseAgrees(w2.m, w2.fault, ObjectCommit, off + 104, LE(8, COMMIT), a, z);
        AgreeTwice(m, w2.m, w3.m, a, z);
      }
    }
  }

  lemma WritePhaseDone(m: seq<Byte>, f: Fault, phase: Phase, off: nat, src: seq<Byte>)
    requires off + |src| <= |m| && WritePhase(m, f, phase, off, src).done
    ensures WritePhase(m, f, phase, off, src).m == Put(m, off, src)
  {
    assert src[..|src|] == src;
  }

  /** When no write is cut the object is complete. */
  lemma WriteObjectDone(h: Hash, m: seq<Byte>, f: Fault, generation: nat, off: nat, e: Entry)
    requires off + Extent(e) <= |m| && WriteObject(h, m, f, generation, off, e).done
    ensures ObjectAt(h, WriteObject(h, m, f, generation, off, e).m, off, generation, e)
  {
    hide WritePhase, LE, Extent, Put;
    var head := HeaderBytes(h, generation, e, 0);
    var w1 := WritePhase(m, f, ObjectHeader, off, head);
    WritePhaseDone(m, f, ObjectHeader, off, head);
    var w2 := WritePhase(w1.m, w1.fault, Payload, off + OBJ_SIZE, e.payload);
    WritePhaseDone(w1.m, w1.fault, Payload, off + OBJ_SIZE, e.payload);
    WritePhaseDone(w2.m, w2.fault, ObjectCommit, off + 104, LE(8, COMMIT));
    CommitCompletes(h, m, generation, off, e);
  }

  lemma CommitCompletes(h: Hash, m: seq<Byte>, generation: nat, off: nat, e: Entry)
    requires off + Extent(e) <= |m|
    ensures var m1 := Put(m, off, HeaderBytes(h, generation, e, 0));
            var m2 := Put(m1, off + OBJ_SIZE, e.payload);
            ObjectAt(h, Put(m2, off + 104, LE(8, COMMIT)), off, generation, e)
  {
    hide LE, HeaderFields, Extent, Put;
    var head := HeaderBytes(h, generation, e, 0);
    var m1 := Put(m, off, head);
    var m2 := Put(m1, off + OBJ_SIZE, e.payload);
    var m3 := Put(m2, off + 104, LE(8, COMMIT));
    PutApart(m1, off + OBJ_SIZE, e.payload, off, off + 104);
    PutApart(m2, off + 104, LE(8, COMMIT), off, off + 104);
    PutApart(m2, off + 104, LE(8, COMMIT), off + OBJ_SIZE, off + OBJ_SIZE + |e.payload|);
    assert m1[off..off + 104] == head[..104] by {
      assert m1[off..off + OBJ_SIZE][..104] == m1[off..off + 104];
    }
    assert m3[off..off + OBJ_SIZE] == m3[off..off + 104] + m3[off + 104..off + OBJ_SIZE];
    assert head[..104] + LE(8, COMMIT) == HeaderBytes(h, generation, e, COMMIT);
  }

  /** How far the armed fault lets a superblock write come. */
  function Reach(f: Fault): (k: nat)
    ensures k <= SUPER_SIZE
  {
    if f.phase == Superblock && f.after >= 0 && !f.fired then Min(f.after, SUPER_SIZE) else SUPER_SIZE
  }

  /** A superblock write, cut or not, leaves a prefix of it over what the slot held; a cut fires
      the fault. */
  lemma SuperWriteSplices(m: seq<Byte>, f: Fault, slot: nat, src: seq<Byte>)
    requires |m| == SIZE && slot <= 1 && |src| == SUPER_SIZE
    ensures var (w, k) := (WritePhase(m, f, Superblock, SlotOff(slot), src), Reach(f));
            && (k < SUPER_SIZE ==> w.fault.fired)
            && Block(w.m, slot) == src[..k] + Block(m, slot)[k..]
            && Block(w.m, 1 - slot) == Block(m, 1 - slot)
            && (w.done ==> k == SUPER_SIZE)
            && Agree(m, w.m, DATA0, SIZE)
  {
    var off := SlotOff(slot);
    var k := Reach(f);
    assert src[..|src|] == src;
    var w := WritePhase(m, f, Superblock, off, src);
    assert w.m == Put(m, off, src[..k]);
    WritePhaseAgrees(m, f, Superblock, off, src, DATA0, SIZE);
    hide WritePhase, Agree;
    PutApart(m, off, src[..k], off + k, off + SUPER_SIZE);
    PutApart(m, off, src[..k], SlotOff(1 - slot), SlotOff(1 - slot) + SUPER_SIZE);
    hide Put;
    assert Block(w.m, slot) == w.m[off..off + k] + w.m[off + k..off + SUPER_SIZE];
    assert Block(m, slot)[k..] == m[off + k..off + SUPER_SIZE];
  }
}
