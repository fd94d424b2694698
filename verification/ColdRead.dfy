/** Reading a log back: the loops of `cold_log_at` and the snapshot lookup of src/cold.c, up to
    the decoding of the payload. */
module ColdRead {
  import opened Nouns
  import opened Bytes
  import opened ColdFormat
  import opened ColdChain

  function PayloadAt(m: seq<Byte>, off: nat): seq<Byte>
    requires off + OBJ_SIZE <= |m| && off + OBJ_SIZE + LenAt(m, off) <= |m|
  {
    m[off + OBJ_SIZE..off + OBJ_SIZE + LenAt(m, off)]
  }

  /** The loop of `cold_log_at`. */
  function LogWalk(h: Hash, m: seq<Byte>, s: Super, off: nat, seen: nat, index: nat): Option<seq<Byte>>
    requires |m| == SIZE && s.dataHead >= DATA0
    decreases s.dataHead - off
  {
    if off >= s.dataHead || ObjectValidate(h, m, s.dataHead, off, 0, 0) != Valid then None
    else if KindAt(m, off) == LOG && seen == index then Some(PayloadAt(m, off))
    else LogWalk(h, m, s, NextOff(m, off), if KindAt(m, off) == LOG then seen + 1 else seen, index)
  }

  /** `cold_log_at`. */
  function LogAt(h: Hash, m: seq<Byte>, index: nat): Option<seq<Byte>>
    requires |m| == SIZE
  {
    var sel := Select(h, m);
    if sel.result != Valid || index >= sel.super.logCount || sel.super.dataHead < DATA0 then None
    else LogWalk(h, m, sel.super, DATA0, 0, index)
  }

  /** `cold_snap_decode`, up to the decoding. */
  function SnapPayload(h: Hash, m: seq<Byte>): Option<seq<Byte>>
    requires |m| == SIZE
  {
    var sel := Select(h, m);
    if sel.result != Valid || sel.super.snapOff == 0 || sel.super.dataHead < DATA0 then None
    else if ObjectValidate(h, m, sel.super.dataHead, sel.super.snapOff, SNAP, 0) != Valid then None
    else Some(PayloadAt(m, sel.super.snapOff))
  }

  /** The payloads of the chain's log entries, in order. */
  function LogPayloads(chain: seq<Entry>): seq<seq<Byte>> {
    if chain == [] then [] else (if chain[0].kind == LOG then [chain[0].payload] else []) + LogPayloads(chain[1..])
  }

  /** The payload of the chain's last snapshot. */
  function LastSnapPayload(chain: seq<Entry>): Option<seq<Byte>> {
    if chain == [] then None
    else if chain[|chain| - 1].kind == SNAP then Some(chain[|chain| - 1].payload)
    else LastSnapPayload(chain[..|chain| - 1])
  }

  lemma {:induction false} LogCount(chain: seq<Entry>)
    ensures |LogPayloads(chain)| == Logs(chain)
  {
    if chain != [] {
      LogCount(chain[1..]);
    }
  }

  lemma {:induction false} LogWalkFinds(h: Hash, m: seq<Byte>, s: Super, off: nat, generation: nat, chain: seq<Entry>, seen: nat, index: nat)
    requires |m| == SIZE && EntriesOk(chain) && ChainAt(h, m, off, generation, chain)
    requires DATA0 <= off && off % 8 == 0 && off + Size(chain) == s.dataHead <= SIZE
    requires 0 < generation && generation + |chain| <= U64_MAX && seen <= index < seen + Logs(chain)
    ensures LogCountIs(chain) && LogWalk(h, m, s, off, seen, index) == Some(LogPayloads(chain)[index - seen])
    decreases |chain|
  {
    hide ObjectAt, Extent, ObjectValidate, EntryOk, KindAt, NextOff;
    LogCount(chain);
    if chain != [] {
      var e := chain[0];
      LogStep(h, m, s, off, generation, e, seen, index);
      LogCount(chain[1..]);
      if !(e.kind == LOG && seen == index) {
        var seen' := if e.kind == LOG then seen + 1 else seen;
        LogWalkFinds(h, m, s, off + Extent(e), generation + 1, chain[1..], seen', index);
      }
    }
  }

  predicate LogCountIs(chain: seq<Entry>) {
    |LogPayloads(chain)| == Logs(chain)
  }

  lemma LogStep(h: Hash, m: seq<Byte>, s: Super, off: nat, generation: nat, e: Entry, seen: nat, index: nat)
    requires |m| == SIZE && EntryOk(e) && ObjectAt(h, m, off, generation, e) && 0 < generation <= U64_MAX
    requires DATA0 <= off && off % 8 == 0 && off + Extent(e) <= s.dataHead <= SIZE
    ensures LogWalk(h, m, s, off, seen, index)
         == if e.kind == LOG && seen == index then Some(e.payload)
            else LogWalk(h, m, s, off + Extent(e), if e.kind == LOG then seen + 1 else seen, index)
  {
    hide ObjectValidate, ObjectAt, Extent, KindAt, NextOff, EntryOk, PayloadAt;
    ObjectValidates(h, m, s.dataHead, off, generation, e);
    PayloadIs(h, m, off, generation, e);
  }

  lemma PayloadIs(h: Hash, m: seq<Byte>, off: nat, generation: nat, e: Entry)
    requires ObjectAt(h, m, off, generation, e) && off + OBJ_SIZE <= |m| && LenAt(m, off) == |e.payload|
    ensures off + OBJ_SIZE + LenAt(m, off) <= |m| && PayloadAt(m, off) == e.payload
  {
  }

  /** `cold_log_at` returns exactly the log entries of the chain, in order, and nothing past them. */
  lemma LogReadsBack(h: Hash, m: seq<Byte>, chain: seq<Entry>, slot: nat, index: nat)
    requires Good(h, m, chain, slot)
    ensures |m| == SIZE && LogAt(h, m, index) == if index < |LogPayloads(chain)| then Some(LogPayloads(chain)[index]) else None
  {
    hide Select, LogWalk, Free, SuperBytes, LogPayloads, ChainAt;
    SelectFinds(h, m, chain, slot);
    LogCount(chain);
    SuperRanges(chain, DATA0, 2, (0, 0));
    if index < Logs(chain) {
      LogWalkFinds(h, m, SuperOf(chain), DATA0, 2, chain, 0, index);
    }
  }

  /** The object at any place of a chain. */
  lemma {:induction false} ObjectWithin(h: Hash, m: seq<Byte>, off: nat, generation: nat, chain: seq<Entry>, i: nat)
    requires ChainAt(h, m, off, generation, chain) && i < |chain|
    ensures ObjectAt(h, m, off + Size(chain[..i]), generation + i, chain[i])
    ensures Size(chain[..i]) + Extent(chain[i]) <= Size(chain)
    decreases i
  {
    hide ObjectAt, Extent;
    if i > 0 {
      ObjectWithin(h, m, off + Extent(chain[0]), generation + 1, chain[1..], i - 1);
      assert chain[1..][..i - 1] == chain[..i][1..];
    }
  }

  /** The last snapshot's place in the chain is where the superblock points. */
  lemma {:induction false} LastSnapIs(chain: seq<Entry>)
    ensures match LastSnapPayload(chain)
            case None => LastSnap(chain, DATA0, 2, (0, 0)) == (0, 0)
            case Some(p) => exists i: nat :: i < |chain| && chain[i] == Entry(SNAP, p) && LastSnap(chain, DATA0, 2, (0, 0)) == (DATA0 + Size(chain[..i]), 2 + i)
    decreases |chain|
  {
    if chain != [] {
      var k := |chain| - 1;
      var (front, e) := (chain[..k], chain[k]);
      assert chain == front + [e];
      LastSnapSnoc(front, e, DATA0, 2, (0, 0));
      hide LastSnap, Size;
      if e.kind == SNAP {
        assert chain[k] == Entry(SNAP, e.payload) && chain[..k] == front;
      } else {
        LastSnapIs(front);
        if LastSnapPayload(front).Some? {
          var p := LastSnapPayload(front).value;
          var i: nat :| i < |front| && front[i] == Entry(SNAP, p) && LastSnap(front, DATA0, 2, (0, 0)) == (DATA0 + Size(front[..i]), 2 + i);
          assert chain[i] == front[i] && chain[..i] == front[..i];
        }
      }
    }
  }

  /** The snapshot read back is the last one of the chain. */
  lemma SnapReadsBack(h: Hash, m: seq<Byte>, chain: seq<Entry>, slot: nat)
    requires Good(h, m, chain, slot)
    ensures |m| == SIZE && SnapPayload(h, m) == LastSnapPayload(chain)
  {
    hide Select, Free, SuperBytes, ChainAt, LastSnap, LastSnapPayload, ObjectValidate, ObjectAt, PayloadAt, LenAt;
    SelectFinds(h, m, chain, slot);
    HeldSuper(chain);
    LastSnapIs(chain);
    if LastSnapPayload(chain).Some? {
      var p := LastSnapPayload(chain).value;
      var i: nat :| i < |chain| && chain[i] == Entry(SNAP, p) && LastSnap(chain, DATA0, 2, (0, 0)) == (DATA0 + Size(chain[..i]), 2 + i);
      var off := DATA0 + Size(chain[..i]);
      ObjectWithin(h, m, DATA0, 2, chain, i);
      SuperRanges(chain, DATA0, 2, (0, 0));
      ObjectValidates(h, m, DATA0 + Size(chain), off, 2 + i, chain[i]);
      PayloadIs(h, m, off, 2 + i, chain[i]);
    }
  }
}
