/** The cold log as the program runs it: the byte window, the armed fault and the selected
    superblock, changed in place. */
module ColdLog {
  import opened Nouns
  import opened Arith
  import opened Bytes
  import opened ColdFormat
  import opened ColdChain
  import opened ColdWrites
  import opened ColdRead

  class Log {
    const window: array<Byte>
    const hash: Hash
    var fault: Fault
    var selectedGeneration: nat
    var selectedDataHead: nat
    var lastResult: Result

    ghost predicate Valid()
      reads this
    {
      window.Length == SIZE
    }

    constructor (hash: Hash)
      ensures Valid() && fresh(window) && this.hash == hash && fault == Fault(NoPhase, -1, false)
    {
      window := new Byte[SIZE];
      this.hash := hash;
      fault := Fault(NoPhase, -1, false);
      selectedGeneration, selectedDataHead, lastResult := 0, 0, Empty;
    }

    /** `cold_write_raw`. */
    method WriteRaw(off: nat, src: seq<Byte>)
      requires Valid() && off + |src| <= SIZE
      modifies window
      ensures window[..] == Put(old(window[..]), off, src)
    {
      ghost var m := window[..];
      var i := 0;
      while i < |src|
        invariant 0 <= i <= |src|
        invariant window[..] == Put(m, off, src[..i])
      {
        window[off + i] := src[i];
        i := i + 1;
        assert src[..i] == src[..i - 1] + [src[i - 1]];
      }
      assert src[..|src|] == src;
    }

    /** `cold_write_phase`, on an inactive medium. */
    method PhaseWrite(phase: Phase, off: nat, src: seq<Byte>) returns (completed: bool)
      requires Valid() && off + |src| <= SIZE
      modifies window, `fault
      ensures Written(window[..], fault, completed) == WritePhase(old(window[..]), old(fault), phase, off, src)
    {
      var writable: nat := |src|;
      completed := true;
      if fault.phase == phase && fault.after >= 0 && !fault.fired {
        writable := Min(fault.after, |src|);
        fault := fault.(after := fault.after - writable);
        if writable != |src| || fault.after == 0 {
          fault := fault.(fired := true);
          completed := false;
        }
      }
      assert src[..|src|] == src;
      WriteRaw(off, src[..writable]);
    }

    /** `super_validate`. */
    method SuperCheck(off: nat) returns (r: Result, s: Super)
      requires Valid() && off + SUPER_SIZE <= SIZE
      ensures r == SuperValidate(hash, window[..], off)
      ensures s == ReadSuper(window[..][off..off + SUPER_SIZE])
    {
      hide Walk, WalkOne, ReadSuper, SuperHeaderOk, ChecksumOk, Field;
      ghost var m := window[..];
      var b := window[off..off + SUPER_SIZE];
      assert b == m[off..off + SUPER_SIZE];
      s := ReadSuper(b);
      if !SuperHeaderOk(b) {
        return HeaderBad, s;
      }
      if s.generation == 0 || s.generation == U64_MAX || Field(b, 56, 8) != COMMIT || b[96..128] != Zeros(32) || !ChecksumOk(hash, b) {
        return SuperblockBad, s;
      }
      if s.dataHead < DATA0 || s.dataHead > SIZE || s.dataHead % 8 != 0 {
        return OffsetBad, s;
      }
      if s.snapOff != 0 && (s.snapOff < DATA0 || s.snapOff >= s.dataHead) {
        return OffsetBad, s;
      }
      if s.snapOff % 8 != 0 {
        return AlignmentBad, s;
      }
      r := WalkObjects(s);
    }

    /** The loop of `super_validate`. */
    method WalkObjects(s: Super) returns (r: Result)
      requires Valid() && s.dataHead >= DATA0
      ensures r == Walk(hash, window[..], s, FIRST)
    {
      hide WalkOne;
      var seen := FIRST;
      while seen.off < s.dataHead
        invariant Walk(hash, window[..], s, FIRST) == Walk(hash, window[..], s, seen)
        decreases s.dataHead - seen.off
      {
        var (one, next) := WalkOne(hash, window[..], s, seen);
        if one != ColdFormat.Valid {
          return one;
        }
        Onward(hash, window[..], s, seen);
        seen := next;
      }
      if seen.off != s.dataHead || seen.expected != s.generation + 1 || seen.logs != s.logCount
        || s.snapOff != seen.snapOff || s.snapGeneration != seen.snapGeneration {
        return GenerationBad;
      }
      return ColdFormat.Valid;
    }

    /** `select_super`. */
    method SelectSuper() returns (sel: Selection)
      requires Valid()
      modifies `selectedGeneration, `selectedDataHead, `lastResult
      ensures sel == Select(hash, window[..]) && lastResult == sel.result
      ensures sel.result == ColdFormat.Valid ==> selectedGeneration == sel.super.generation && selectedDataHead == sel.super.dataHead
      ensures sel.result == Empty ==> selectedGeneration == 0 == selectedDataHead
    {
      hide SuperValidate, ReadSuper, Field;
      var ra, a := SuperCheck(SLOT0);
      var rb, b := SuperCheck(SLOT1);
      var m := window[..];
      if ra == ColdFormat.Valid || rb == ColdFormat.Valid {
        if ra == ColdFormat.Valid && rb == ColdFormat.Valid && a.generation == b.generation && Block(m, 0) != Block(m, 1) {
          selectedGeneration, selectedDataHead, lastResult := 0, 0, Corrupt;
          return Selection(Corrupt, NOTHING, 0);
        }
        var slot, selected := 0, a;
        if ra != ColdFormat.Valid || (rb == ColdFormat.Valid && b.generation > a.generation) {
          slot, selected := 1, b;
        }
        selectedGeneration, selectedDataHead, lastResult := selected.generation, selected.dataHead, ColdFormat.Valid;
        return Selection(ColdFormat.Valid, selected, slot);
      }
      if m == Zeros(SIZE) {
        selectedGeneration, selectedDataHead, lastResult := 0, 0, Empty;
        return Selection(Empty, NOTHING, 0);
      }
      var (b0, b1) := (Block(m, 0), Block(m, 1));
      if (Field(b0, 0, 8) == MAGIC && Field(b0, 8, 4) != VERSION) || (Field(b1, 0, 8) == MAGIC && Field(b1, 8, 4) != VERSION) {
        lastResult := Unsupported;
        return Selection(Unsupported, NOTHING, 0);
      }
      lastResult := Corrupt;
      return Selection(Corrupt, NOTHING, 0);
    }

    /** The three writes of an object. */
    method ObjectWrite(generation: nat, off: nat, e: Entry) returns (done: bool)
      requires Valid() && off + OBJ_SIZE + |e.payload| <= SIZE
      modifies window, `fault
      ensures Written(window[..], fault, done) == WriteObject(hash, old(window[..]), old(fault), generation, off, e)
    {
      hide WritePhase, HeaderBytes, LE;
      done := PhaseWrite(ObjectHeader, off, HeaderBytes(hash, generation, e, 0));
      if !done { return; }
      done := PhaseWrite(Payload, off + OBJ_SIZE, e.payload);
      if !done { return; }
      done := PhaseWrite(ObjectCommit, off + 104, LE(8, COMMIT));
    }

    /** `append_obj`. */
    method AppendObj(e: Entry) returns (ok: bool)
      requires Valid()
      modifies this, window
      ensures Outcome(window[..], fault, lastResult) == Append(hash, old(window[..]), old(fault), e)
      ensures ok <==> lastResult == ColdFormat.Valid
    {
      hide WriteObject, WritePhase, Select, SuperBytes, NextSuper, Align8;
      if |e.payload| == 0 || |e.payload| > PAYLOAD_MAX {
        lastResult := LengthBad;
        return false;
      }
      var sel := SelectSuper();
      if sel.result != ColdFormat.Valid {
        return false;
      }
      var last := sel.super;
      var newHead := Align8(last.dataHead + OBJ_SIZE + |e.payload|);
      if last.generation == U64_MAX || newHead > SIZE {
        lastResult := LengthBad;
        return false;
      }
      var done := ObjectWrite(last.generation + 1, last.dataHead, e);
      if !done {
        lastResult := WriteFault;
        return false;
      }
      var next := NextSuper(last, e.kind, last.dataHead, newHead);
      done := PhaseWrite(Superblock, SlotOff(1 - Bit(sel.slot)), SuperBytes(hash, next));
      if !done {
        lastResult := WriteFault;
        return false;
      }
      selectedGeneration, selectedDataHead, lastResult := next.generation, newHead, ColdFormat.Valid;
      return true;
    }

    /** `cold_store_deployment`, on an inactive medium. */
    method StoreDeployment(pill: seq<Byte>, snap: seq<Byte>) returns (r: Deployed)
      requires Valid()
      modifies this, window
      ensures DeployOutcome(window[..], fault, r) == Deploy(hash, old(window[..]), old(fault), pill, snap)
    {
      hide WriteObject, WritePhase, Select, SuperBytes, Align8, ObjectValidate;
      var sel := SelectSuper();
      if sel.result != ColdFormat.Valid {
        return Rejected;
      }
      var last := sel.super;
      if !PlanOk(last, |pill|) {
        lastResult := LengthBad;
        return Rejected;
      }
      var afterPill := AfterPill(last, pill);
      if !PlanOk(afterPill, |snap|) {
        lastResult := LengthBad;
        return Rejected;
      }
      r := WriteDeployment(last, sel.slot, pill, snap);
    }

    method WriteDeployment(last: Super, slot: nat, pill: seq<Byte>, snap: seq<Byte>) returns (r: Deployed)
      requires Valid() && PlanOk(last, |pill|) && PlanOk(AfterPill(last, pill), |snap|)
      modifies this, window
      ensures DeployOutcome(window[..], fault, r) == DeployTo(hash, old(window[..]), old(fault), last, slot, pill, snap)
    {
      hide WriteObject, WritePhase, SuperBytes, Align8, ObjectValidate;
      var pillHead := AfterPill(last, pill).dataHead;
      var snapHead := Align8(pillHead + OBJ_SIZE + |snap|);
      var done := ObjectWrite(last.generation + 1, last.dataHead, Entry(BLOB, pill));
      if !done {
        lastResult := WriteFault;
        return Rejected;
      }
      if ObjectValidate(hash, window[..], pillHead, last.dataHead, BLOB, last.generation + 1) != ColdFormat.Valid {
        lastResult := PayloadDigestBad;
        return Rejected;
      }
      done := ObjectWrite(last.generation + 2, pillHead, Entry(SNAP, snap));
      if !done {
        lastResult := WriteFault;
        return Rejected;
      }
      if ObjectValidate(hash, window[..], snapHead, pillHead, SNAP, last.generation + 2) != ColdFormat.Valid {
        lastResult := PayloadDigestBad;
        return Rejected;
      }
      var next := Super(last.generation + 2, last.generation + 2, pillHead, snapHead, last.logCount);
      done := PhaseWrite(Superblock, SlotOff(1 - Bit(slot)), SuperBytes(hash, next));
      if !done {
        lastResult := WriteFault;
        return DurabilityUnknown;
      }
      selectedGeneration, selectedDataHead, lastResult := next.generation, next.dataHead, ColdFormat.Valid;
      return Committed;
    }

    /** `cold_format`. */
    method FormatWindow()
      requires Valid()
      modifies `selectedGeneration, `selectedDataHead, `lastResult, window
      ensures window[..] == Format(hash, old(window[..]))
      ensures selectedGeneration == 1 && selectedDataHead == DATA0 && lastResult == ColdFormat.Valid
    {
      hide SuperBytes;
      ghost var m := window[..];
      var off: nat := 0;
      while off < DATA0
        invariant off <= DATA0 && off % 256 == 0 && window[..] == Put(m, 0, Zeros(off))
      {
        WriteRaw(off, Zeros(256));
        off := off + 256;
      }
      WriteRaw(SLOT0, SuperBytes(hash, Super(1, 0, 0, DATA0, 0)));
      selectedGeneration, selectedDataHead, lastResult := 1, DATA0, ColdFormat.Valid;
    }

    /** `cold_log_at`, up to the decoding of the payload. */
    method LogEntry(index: nat) returns (payload: Option<seq<Byte>>)
      requires Valid()
      modifies `selectedGeneration, `selectedDataHead, `lastResult
      ensures payload == LogAt(hash, window[..], index)
    {
      hide Select, ObjectValidate, KindAt, NextOff, PayloadAt;
      var sel := SelectSuper();
      var s := sel.super;
      if sel.result != ColdFormat.Valid || index >= s.logCount || s.dataHead < DATA0 {
        return None;
      }
      var m := window[..];
      var off, seen := DATA0, 0;
      while off < s.dataHead
        invariant 0 <= seen
        invariant LogAt(hash, m, index) == LogWalk(hash, m, s, off, seen, index)
        decreases s.dataHead - off
      {
        var r := ObjectValidate(hash, m, s.dataHead, off, 0, 0);
        if r != ColdFormat.Valid {
          lastResult := r;
          return None;
        }
        WithinWindow(hash, m, s.dataHead, off);
        if KindAt(m, off) == LOG {
          if seen == index {
            return Some(PayloadAt(m, off));
          }
          seen := seen + 1;
        }
        off := NextOff(m, off);
      }
      return None;
    }
  }

  lemma Onward(h: Hash, m: seq<Byte>, s: Super, seen: Seen)
    requires |m| == SIZE && s.dataHead >= DATA0 && seen.off < s.dataHead && WalkOne(h, m, s, seen).0 == ColdFormat.Valid
    ensures Walk(h, m, s, seen) == Walk(h, m, s, WalkOne(h, m, s, seen).1) && WalkOne(h, m, s, seen).1.off > seen.off
  {
  }

  lemma WithinWindow(h: Hash, m: seq<Byte>, dataHead: nat, off: nat)
    requires |m| == SIZE && dataHead >= OBJ_SIZE && ObjectValidate(h, m, dataHead, off, 0, 0) == ColdFormat.Valid
    ensures off + OBJ_SIZE + LenAt(m, off) <= SIZE && NextOff(m, off) > off
  {
  }
}
