/** The bounded decoder as the program runs it: the reader's counters, cursor and table changed in
    place, over the input bytes; atoms and cells made in noun memory, under a transaction. */
module BoundedReader {
  import opened Nouns
  import opened Arith
  import opened Bytes
  import opened Bits
  import opened Probe
  import opened BoundedCues
  import BoundedCueCounts
  import opened NounSpaces
  import AtomStore
  import Limbs

  /** What a probe of `cache_put` at this place of the table comes to, if it ends the search. */
  function Settled(r: Rd, max: nat, at: nat, pos: nat, n: Noun): Option<Rd>
    requires at < |r.table|
  {
    if r.table[at].Vacant? then
      Some(if r.entries >= max then Fail(r, CacheFull) else r.(table := r.table[at := Full(pos, n)], entries := r.entries + 1))
    else if r.table[at].key == pos then Some(r.(table := r.table[at := Full(pos, n)]))
    else None
  }

  lemma PutTurn(j: Job, r: Rd, pos: nat, n: Noun, i: nat)
    requires JobOk(j) && RdOk(r)
    ensures CachePut(j, r, pos, n, i) ==
            if i >= j.lim.maxEntries then Fail(r, CacheFull) else
            var r1 := Charge(j, r, 1);
            if !r1.status.Fine? then r1 else
            var settled := Settled(r1, j.lim.maxEntries, At(ShapeOf(j), pos, i), pos, n);
            if settled.Some? then settled.value else CachePut(j, r1, pos, n, i + 1)
  {
    hide At;
  }

  /** The bit the reader takes from a byte is the bit of the whole input. */
  lemma {:induction false} ByteBit(s: seq<Byte>, i: nat)
    requires i / 8 < |s|
    ensures BitAt(FromLE(s), i) == (s[i / 8] / Pow2(i % 8) % 2 == 1)
    decreases i
  {
    hide BitAt, Pow2;
    if i < 8 {
      LowByte(s[0], FromLE(s[1..]), i);
    } else {
      ByteBit(s[1..], i - 8);
      HighByte(s[0], FromLE(s[1..]), i);
    }
  }

  lemma LowByte(b: Byte, rest: nat, i: nat)
    requires i < 8
    ensures BitAt(b + 256 * rest, i) == (b / Pow2(i) % 2 == 1)
  {
    Pow2At8();
    Pow2Add(i, 8 - i);
    Half8(8 - i);
    hide Pow2;
    LowArith(b, rest, Pow2(i), Pow2(8 - i), Pow2(7 - i));
  }

  lemma Pow2At8()
    ensures Pow2(8) == 256
  {
    assert Pow2(4) == 16;
    Pow2Add(4, 4);
  }

  lemma Half8(n: nat)
    requires n > 0
    ensures Pow2(n) == 2 * Pow2(n - 1)
  {
  }

  lemma LowArith(b: Byte, rest: nat, p: nat, c: nat, k: nat)
    requires p > 0 && p * c == 256 && c == 2 * k
    ensures (b + 256 * rest) / p % 2 == b / p % 2
  {
    DivMod(b, p);
    LowSum(b / p, c, rest, p);
    QuotientUnique(b + 256 * rest, p, b / p + c * rest, b % p);
    Twice(k, rest);
    EvenAway(b / p, k * rest, c * rest);
  }

  lemma LowSum(q: nat, c: nat, rest: nat, p: nat)
    requires p * c == 256
    ensures (q + c * rest) * p == q * p + 256 * rest
  {
    assert (c * rest) * p == (p * c) * rest;
  }

  lemma Twice(k: nat, rest: nat)
    ensures (2 * k) * rest == 2 * (k * rest)
  {
  }

  lemma EvenAway(q: nat, k: nat, x: nat)
    requires x == 2 * k
    ensures (q + x) % 2 == q % 2
  {
  }

  lemma HighByte(b: Byte, rest: nat, i: nat)
    requires i >= 8
    ensures BitAt(b + 256 * rest, i) == BitAt(rest, i - 8)
  {
    Pow2At8();
    Pow2Add(8, i - 8);
    hide Pow2;
    DivDiv(b + 256 * rest, 256, Pow2(i - 8));
  }

  /** The table's words stand for the nouns of the table the specification has. */
  ghost predicate Backed(table: seq<Entry<Ref>>, view: seq<Entry<Noun>>, cells: seq<Pair>, m: map<nat, AtomStore.Stored>, lo: nat, hi: nat) {
    && |table| == |view| == TABLE_SIZE
    && forall i :: 0 <= i < TABLE_SIZE ==>
         if view[i].Vacant? then table[i].Vacant?
         else table[i].Full? && table[i].key == view[i].key && Stands(cells, m, table[i].val, view[i].val, lo, hi)
  }

  lemma BackedStill(table: seq<Entry<Ref>>, view: seq<Entry<Noun>>, scratch: bool, hi: nat, a: Moment, b: Moment)
    requires Backed(table, view, a.cells, a.atoms, a.Top(scratch), hi) && OnlyGrown(scratch, hi, a, b)
    ensures Backed(table, view, b.cells, b.atoms, b.Top(scratch), hi)
  {
    hide Stands, OnlyGrown;
    forall i | 0 <= i < TABLE_SIZE && view[i].Full?
      ensures Stands(b.cells, b.atoms, table[i].val, view[i].val, b.Top(scratch), hi)
    {
      StillStands(scratch, hi, a, b, table[i].val, view[i].val);
    }
  }

  lemma BackedPut(table: seq<Entry<Ref>>, view: seq<Entry<Noun>>, cells: seq<Pair>, m: map<nat, AtomStore.Stored>, lo: nat, hi: nat,
                  at: nat, key: nat, r: Ref, n: Noun)
    requires Backed(table, view, cells, m, lo, hi) && at < TABLE_SIZE && Stands(cells, m, r, n, lo, hi)
    ensures Backed(table[at := Full(key, r)], view[at := Full(key, n)], cells, m, lo, hi)
  {
    hide Stands;
  }

  class Reader {
    const bytes: seq<Byte>
    const lim: Limits
    const hash: nat -> nat
    const space: Space
    const table: array<Entry<Ref>>
    var cur: nat
    var status: Status
    var work: nat
    var atomBytes: nat
    var nodes: nat
    var cellCount: nat
    var backrefs: nat
    var entries: nat
    var depthHwm: nat
    // the memory the decode began with, and the nouns the table's words stand for
    ghost const mem: Memory
    ghost var view: seq<Entry<Noun>>

    ghost function TheJob(): Job {
      Job(FromLE(bytes), 8 * |bytes|, lim, hash, mem)
    }

    ghost predicate Ok() {
      table.Length == TABLE_SIZE && JobOk(TheJob())
    }

    ghost predicate Valid()
      reads `view, table, space, space.store, space.store.slots, space.store.logged, space.cells
    {
      && Ok() && |view| == TABLE_SIZE && space.Valid() && {this, table} !! space.Footprint() && space.store.live
      && mem.terms == space.store.TheTerms() && mem.limit == space.Limit()
      && Backed(table[..], view, space.cells[..], space.store.contents, space.Top(), space.Limit())
    }

    ghost function State(): Rd
      reads this, space, space.store
    {
      Rd(cur, status, work, atomBytes, nodes, cellCount, backrefs, entries, depthHwm, view, space.store.Books(), space.Top())
    }

    /** The cleared reader of `cue_bounded_bytes`. */
    constructor (bytes: seq<Byte>, lim: Limits, hash: nat -> nat, space: Space)
      requires 0 < lim.maxEntries <= TABLE_SIZE && space.Valid() && space.store.live
      ensures Valid() && fresh(table) && this.bytes == bytes && this.lim == lim && this.hash == hash && this.space == space
      ensures mem == Memory(space.store.TheTerms(), space.store.Books(), space.Top(), space.Limit(), false)
      ensures State() == Begin(TheJob())
    {
      this.bytes, this.lim, this.hash, this.space := bytes, lim, hash, space;
      mem := Memory(space.store.TheTerms(), space.store.Books(), space.Top(), space.Limit(), false);
      table := new Entry<Ref>[TABLE_SIZE](_ => Vacant);
      view := Vacants(TABLE_SIZE);
      cur, status, work, atomBytes, nodes, cellCount, backrefs, entries, depthHwm := 0, Fine, 0, 0, 0, 0, 0, 0, 0;
    }

    /** `charge`. */
    method Spend(n: nat) returns (ok: bool)
      requires Ok()
      modifies `status, `work
      ensures State() == Charge(TheJob(), old(State()), n) && ok == status.Fine?
    {
      if !status.Fine? {
        return false;
      }
      if n > lim.maxWork || work > lim.maxWork - n {
        status := Work(n);
        return false;
      }
      work := work + n;
      return true;
    }

    /** `read_bit`. */
    method NextBit() returns (ok: bool, bit: bool)
      requires Ok()
      modifies `status, `work, `cur
      ensures (State(), bit) == ReadBit(TheJob(), old(State())) && ok == status.Fine?
    {
      hide BitAt;
      bit := false;
      ok := Spend(1);
      if !ok {
        return;
      }
      if cur >= 8 * |bytes| {
        status := Truncated;
        return false, false;
      }
      ByteBit(bytes, cur);
      bit := bytes[cur / 8] / Pow2(cur % 8) % 2 == 1;
      cur := cur + 1;
    }

    /** `cache_put`. */
    method StoreAt(pos: nat, val: Ref, ghost n: Noun) returns (ok: bool)
      requires Valid() && status.Fine?
      requires space.Means(val, n)
      modifies `status, `work, `entries, `view, table
      ensures Valid() && State() == CachePut(TheJob(), old(State()), pos, n, 0) && ok == status.Fine?
    {
      hide Valid, Space.Means, CachePut, Settled;
      ValidIs();
      ghost var (t0, v0) := (table[..], view);
      BackedTable(t0, v0);
      var i := 0;
      while i < lim.maxEntries
        invariant 0 <= i <= lim.maxEntries && status.Fine? && Valid()
        invariant RdOk(State()) && CachePut(TheJob(), old(State()), pos, n, 0) == CachePut(TheJob(), State(), pos, n, i)
        invariant table[..] == t0 && view == v0 && entries == old(entries)
      {
        PutTurn(TheJob(), State(), pos, n, i);
        ok := Spend(1);
        if !ok {
          return;
        }
        var at := (hash(pos) + i) % TABLE_SIZE;
        assert at == At(ShapeOf(TheJob()), pos, i);
        hide At;
        assert table[at] == t0[at];
        var done;
        done, ok := Settle(at, pos, val, n);
        if done {
          return;
        }
        i := i + 1;
      }
      PutTurn(TheJob(), State(), pos, n, i);
      status := CacheFull;
      return false;
    }

    /** What one probe of `cache_put` does, if it ends the search. */
    method Settle(at: nat, pos: nat, val: Ref, ghost n: Noun) returns (done: bool, ok: bool)
      requires Valid() && status.Fine? && at < TABLE_SIZE && space.Means(val, n)
      modifies `status, `entries, `view, table
      ensures Valid() && ok == status.Fine?
      ensures Settled(old(State()), lim.maxEntries, at, pos, n) == if done then Some(State()) else None
      ensures !done ==> State() == old(State()) && table[..] == old(table[..])
    {
      hide Space.Means;
      ghost var (t0, v0) := (table[..], view);
      BackedTable(t0, v0);
      hide Valid;
      if table[at].Vacant? {
        if entries >= lim.maxEntries {
          status := CacheFull;
          ValidIs();
          return true, false;
        }
        Write(at, pos, val, n);
        entries := entries + 1;
        return true, true;
      }
      if table[at].key == pos {
        Write(at, pos, val, n);
        return true, true;
      }
      return false, true;
    }

    method Write(at: nat, pos: nat, val: Ref, ghost n: Noun)
      requires Valid() && at < TABLE_SIZE && space.Means(val, n)
      modifies `view, table
      ensures Valid() && table[..] == old(table[..])[at := Full(pos, val)] && view == old(view)[at := Full(pos, n)]
    {
      hide Backed, Stands;
      ghost var t0 := table[..];
      BackedPut(t0, view, space.cells[..], space.store.contents, space.Top(), space.Limit(), at, pos, val, n);
      table[at] := Full(pos, val);
      view := view[at := Full(pos, n)];
      assert table[..] == t0[at := Full(pos, val)];
    }

    lemma BackedTable(t: seq<Entry<Ref>>, v: seq<Entry<Noun>>)
      requires Valid() && t == table[..] && v == view
      ensures |t| == |v| == TABLE_SIZE && RdOk(State())
      ensures forall i :: 0 <= i < TABLE_SIZE ==> (t[i].Vacant? <==> v[i].Vacant?) && (t[i].Full? ==> t[i].key == v[i].key)
    {
      hide Stands;
    }

    /** `cache_get`. */
    method LoadAt(pos: nat) returns (ok: bool, val: Ref)
      requires Valid() && status.Fine?
      modifies `status, `work
      ensures Valid() && State() == CacheGet(TheJob(), old(State()), pos, 0).0 && ok == status.Fine?
      ensures ok ==> space.Means(val, CacheGet(TheJob(), old(State()), pos, 0).1)
    {
      hide Valid, Space.Means;
      ValidIs();
      ghost var (t0, v0) := (table[..], view);
      BackedTable(t0, v0);
      val := AtomRef(AtomStore.Direct(0));
      var i := 0;
      while i < lim.maxEntries
        invariant 0 <= i <= lim.maxEntries && status.Fine? && Valid()
        invariant CacheGet(TheJob(), old(State()), pos, 0) == CacheGet(TheJob(), State(), pos, i)
      {
        ok := Spend(1);
        if !ok {
          return;
        }
        var at := (hash(pos) + i) % TABLE_SIZE;
        assert at == At(ShapeOf(TheJob()), pos, i);
        hide At;
        assert table[at] == t0[at];
        if table[at].Vacant? {
          break;
        }
        if table[at].key == pos {
          StandsAt(at);
          return true, table[at].val;
        }
        i := i + 1;
      }
      status := BackrefBad;
      return false, val;
    }

    lemma StandsAt(at: nat)
      requires Valid() && at < TABLE_SIZE && table[at].Full?
      ensures |view| == TABLE_SIZE && view[at].Full?
      ensures space.Means(table[at].val, view[at].val)
    {
      hide Stands;
      assert table[..][at] == table[at];
    }

    /** The unary loop of `decode_mat`. */
    method CountZerosLoop() returns (ok: bool, zeros: nat)
      requires Ok() && status.Fine?
      modifies `status, `work, `cur
      ensures (State(), zeros) == MatZeros(TheJob(), old(State()), 0) && ok == status.Fine? && zeros <= 63
    {
      hide ReadBit;
      zeros := 0;
      while true
        invariant zeros <= 63 && status.Fine?
        invariant MatZeros(TheJob(), old(State()), 0) == MatZeros(TheJob(), State(), zeros)
        decreases 64 - zeros
      {
        var bit: bool;
        ok, bit := NextBit();
        if !ok || bit {
          return;
        }
        if zeros + 1 > 63 {
          status := AtomBad;
          return false, zeros;
        }
        zeros := zeros + 1;
      }
    }

    /** The loops that gather bits. */
    method GatherBits(n: nat) returns (ok: bool, value: nat)
      requires Ok() && status.Fine?
      modifies `status, `work, `cur
      ensures ok == status.Fine? && State() == ReadN(TheJob(), old(State()), n).0
      ensures ok ==> value == ReadN(TheJob(), old(State()), n).1
    {
      hide ReadBit;
      value := 0;
      ok := true;
      var i := 0;
      while i < n
        invariant 0 <= i <= n && ok && status.Fine?
        invariant ReadN(TheJob(), old(State()), n).0 == ReadN(TheJob(), State(), n - i).0
        invariant ReadN(TheJob(), State(), n - i).0.status.Fine? ==>
                    ReadN(TheJob(), old(State()), n).1 == value + Pow2(i) * ReadN(TheJob(), State(), n - i).1
      {
        ghost var before := State();
        var bit: bool;
        ok, bit := NextBit();
        if !ok {
          return;
        }
        Gathered(value, Pow2(i), bit, ReadN(TheJob(), State(), n - i - 1).1);
        if bit {
          value := value + Pow2(i);
        }
        i := i + 1;
      }
    }

    /** The first half of `decode_mat`: how many bits the number has. */
    method ReadLength() returns (ok: bool, bits: nat)
      requires Ok() && status.Fine?
      modifies `status, `work, `cur
      ensures (State(), bits) == MatHead(TheJob(), old(State())) && ok == status.Fine?
    {
      hide MatZeros, ReadN, Pow2;
      bits := 0;
      var zeros: nat;
      ok, zeros := CountZerosLoop();
      if !ok || zeros == 0 {
        return;
      }
      var low: nat;
      ok, low := GatherBits(zeros - 1);
      if ok {
        bits := Pow2(zeros - 1) + low;
      }
    }

    /** The limits on an atom of so many bytes, and the work it is charged. */
    method AdmitBytes(size: nat) returns (ok: bool)
      requires Ok() && status.Fine?
      modifies `status, `work, `atomBytes
      ensures State() == Admit(TheJob(), old(State()), size) && ok == status.Fine?
    {
      if size > lim.maxAtomBytes || size > 8 * MAX_LIMBS || atomBytes + size > lim.maxTotalAtomBytes {
        status := AtomLimit(size);
        return false;
      }
      atomBytes := atomBytes + size;
      ok := Spend(size);
    }

    /** `decode_mat`. */
    method ReadNumber() returns (ok: bool, w: AtomStore.Word)
      requires Valid() && status.Fine?
      modifies `status, `work, `cur, `atomBytes
      modifies space.store`used, space.store`occupancy, space.store`count, space.store`contents, space.store.slots, space.store.logged
      ensures Valid() && ok == status.Fine? && State() == DecodeMat(TheJob(), old(State())).0
      ensures Extends(old(space.store.contents), space.store.contents)
      ensures ok ==> var v := DecodeMat(TheJob(), old(State())).1;
                     && w == AtomStore.WordOf(space.store.hasher, v)
                     && AtomStore.Live(space.store.contents, w) && AtomStore.Meaning(space.store.contents, w) == Some(v)
    {
      hide MatHead, ReadN, Admit, Valid, TakeAtom, AtomStore.Made, AtomStore.Live, AtomStore.Meaning, AtomStore.WordOf, Extends;
      ValidIs();
      SameAtoms(space.store.contents);
      w := AtomStore.Direct(0);
      ZeroWord(space.store.hasher, space.store.contents);
      var bits: nat;
      ok, bits := ReadLength();
      if !ok || bits == 0 {
        return;
      }
      ok := AdmitBytes((bits + 7) / 8);
      if !ok {
        return;
      }
      var value: nat;
      ok, value := GatherBits(bits);
      if !ok {
        return;
      }
      ok, w := MakeNumber(value);
    }

    lemma SameAtoms(m: map<nat, AtomStore.Stored>)
      ensures Extends(m, m)
    {
    }

    /** The atom of a number that has been read. */
    method MakeNumber(value: nat) returns (ok: bool, w: AtomStore.Word)
      requires Valid() && status.Fine?
      modifies `status
      modifies space.store`used, space.store`occupancy, space.store`count, space.store`contents, space.store.slots, space.store.logged
      ensures Valid() && ok == status.Fine? && State() == TakeAtom(TheJob(), old(State()), value)
      ensures Extends(old(space.store.contents), space.store.contents)
      ensures ok ==> && w == AtomStore.WordOf(space.store.hasher, value)
                     && AtomStore.Live(space.store.contents, w) && AtomStore.Meaning(space.store.contents, w) == Some(value)
    {
      hide Backed, AtomStore.Made, AtomStore.Live, AtomStore.Meaning, AtomStore.WordOf, Limbs.ToLimbs, Limbs.Val;
      ghost var m0 := space.Now();
      var made := space.store.MakeAtom(Limbs.ToLimbs(value));
      GrownAtoms(space.scratchMode, space.Limit(), m0, space.store.contents);
      BackedStill(table[..], view, space.scratchMode, space.Limit(), m0, space.Now());
      if made.None? {
        status := NoAtom(value);
        return false, AtomStore.Direct(0);
      }
      return true, made.value;
    }

    /** The start of `decode_noun`: the depth, the node, and its work. */
    method EnterNode(depth: nat) returns (ok: bool)
      requires Ok() && status.Fine?
      modifies `depthHwm, `nodes, `status, `work
      ensures State() == Enter(TheJob(), old(State()), depth) && ok == status.Fine? && (ok ==> depth <= lim.maxDepth)
    {
      if depth > depthHwm {
        depthHwm := depth;
      }
      if depth > lim.maxDepth {
        status := Depth;
        return false;
      }
      nodes := nodes + 1;
      if nodes > lim.maxNodes {
        status := Nodes;
        return false;
      }
      ok := Spend(1);
    }

    /** `decode_noun`. */
    method DecodeNoun(depth: nat) returns (ok: bool, n: Ref)
      requires Valid() && status.Fine?
      modifies this, table, space`scratchTop, space`persistTop, space.cells
      modifies space.store`used, space.store`occupancy, space.store`count, space.store`contents, space.store.slots, space.store.logged
      ensures Valid() && ok == status.Fine? && State() == Decode(TheJob(), old(State()), depth).0
      ensures OnlyGrown(space.scratchMode, space.Limit(), old(space.Now()), space.Now())
      ensures ok ==> space.Means(n, Decode(TheJob(), old(State()), depth).1)
      decreases lim.maxDepth - depth, 2
    {
      hide DecodeNode, Enter, CachePut, Valid, OnlyGrown, Space.Means, Space.Now, Grown, Stands;
      n := AtomRef(AtomStore.Direct(0));
      ValidIs();
      GrownNot(space.scratchMode, space.Limit(), space.Now());
      ok := EnterNode(depth);
      if !ok {
        return;
      }
      var start := cur;
      ghost var r := State();
      ok, n := DecodeBody(depth);
      if !ok {
        return;
      }
      ok := StoreAt(start, n, DecodeNode(TheJob(), r, depth).1);
    }

    lemma ValidIs()
      requires Valid()
      ensures Ok() && RdOk(State()) && space.Valid() && space.store.live && mem.terms == space.store.TheTerms()
    {
    }

    /** The part of `decode_noun` before its result is stored. */
    method DecodeBody(depth: nat) returns (ok: bool, n: Ref)
      requires Valid() && status.Fine? && depth <= lim.maxDepth
      modifies this, table, space`scratchTop, space`persistTop, space.cells
      modifies space.store`used, space.store`occupancy, space.store`count, space.store`contents, space.store.slots, space.store.logged
      ensures Valid() && ok == status.Fine? && State() == DecodeNode(TheJob(), old(State()), depth).0
      ensures OnlyGrown(space.scratchMode, space.Limit(), old(space.Now()), space.Now())
      ensures ok ==> space.Means(n, DecodeNode(TheJob(), old(State()), depth).1)
      decreases lim.maxDepth - depth, 1
    {
      hide ReadBit, DecodeMat, Decode, DecodePair, DecodeBackref, Stands, Valid, OnlyGrown, AtomStore.Live, AtomStore.Meaning, AtomStore.WordOf;
      n := AtomRef(AtomStore.Direct(0));
      ValidIs();
      GrownNot(space.scratchMode, space.Limit(), space.Now());
      var start := cur;
      var tag0, tag1: bool;
      ok, tag0 := NextBit();
      if !ok {
        return;
      }
      if !tag0 {
        var w: AtomStore.Word;
        ok, w := ReadNumber();
        GrownAtoms(space.scratchMode, space.Limit(), old(space.Now()), space.store.contents);
        assert old(space.Now()).(atoms := space.store.contents) == space.Now();
        if ok {
          n := AtomRef(w);
          AtomStands(space.cells[..], space.store.contents, w, space.Top(), space.Limit());
        }
        return;
      }
      ok, tag1 := NextBit();
      if !ok {
        return;
      }
      if tag1 {
        ok, n := FollowBackref(start);
        GrownAtoms(space.scratchMode, space.Limit(), old(space.Now()), space.store.contents);
        assert old(space.Now()).(atoms := space.store.contents) == space.Now();
        return;
      }
      cellCount := cellCount + 1;
      if cellCount > lim.maxCells {
        status := Cells;
        return false, n;
      }
      if depth >= lim.maxDepth {
        status := Depth;
        return false, n;
      }
      ok, n := DecodeHalves(depth);
    }

    /** The branch for a back-reference, behind its tag. */
    method FollowBackref(start: nat) returns (ok: bool, n: Ref)
      requires Valid() && status.Fine?
      modifies `status, `work, `cur, `atomBytes, `backrefs
      modifies space.store`used, space.store`occupancy, space.store`count, space.store`contents, space.store.slots, space.store.logged
      ensures Valid() && ok == status.Fine? && State() == DecodeBackref(TheJob(), old(State()), start).0
      ensures Extends(old(space.store.contents), space.store.contents)
      ensures ok ==> space.Means(n, DecodeBackref(TheJob(), old(State()), start).1)
    {
      hide DecodeMat, CacheGet, Valid, AtomStore.Meaning, AtomStore.Live, Space.Means;
      ValidIs();
      n := AtomRef(AtomStore.Direct(0));
      backrefs := backrefs + 1;
      if backrefs > lim.maxBackrefs {
        status := BackrefLimit;
        return false, n;
      }
      var w: AtomStore.Word;
      ok, w := ReadNumber();
      if !ok {
        return;
      }
      if w.Indirect? || w.v >= start {
        status := BackrefBad;
        return false, n;
      }
      ok, n := LoadAt(w.v);
    }

    /** The halves of a cell, and the cell. */
    method DecodeHalves(depth: nat) returns (ok: bool, n: Ref)
      requires Valid() && status.Fine? && depth < lim.maxDepth
      modifies this, table, space`scratchTop, space`persistTop, space.cells
      modifies space.store`used, space.store`occupancy, space.store`count, space.store`contents, space.store.slots, space.store.logged
      ensures Valid() && ok == status.Fine? && State() == DecodePair(TheJob(), old(State()), depth).0
      ensures OnlyGrown(space.scratchMode, space.Limit(), old(space.Now()), space.Now())
      ensures ok ==> space.Means(n, DecodePair(TheJob(), old(State()), depth).1)
      decreases lim.maxDepth - depth, 0
    {
      hide Decode, Stands, Valid, OnlyGrown, TakeCell;
      ghost var (scratch, hi, m0) := (space.scratchMode, space.Limit(), space.Now());
      ValidIs();
      ghost var first := Decode(TheJob(), State(), depth + 1);
      var head, tail: Ref;
      ok, head := DecodeNoun(depth + 1);
      n := head;
      if !ok {
        return;
      }
      ghost var (m1, second) := (space.Now(), Decode(TheJob(), first.0, depth + 1));
      ok, tail := DecodeNoun(depth + 1);
      ghost var m2 := space.Now();
      GrownMore(scratch, hi, m0, m1, m2);
      if !ok {
        return;
      }
      StillStands(scratch, hi, m1, m2, head, first.1);
      ok, n := MakeCell(head, tail, first.1, second.1);
      GrownMore(scratch, hi, m0, m2, space.Now());
    }

    /** The cell of two halves that have been decoded. */
    method MakeCell(head: Ref, tail: Ref, ghost h: Noun, ghost t: Noun) returns (ok: bool, n: Ref)
      requires Valid() && status.Fine?
      requires space.Means(head, h)
      requires space.Means(tail, t)
      modifies `status, space`scratchTop, space`persistTop, space.cells
      ensures Valid() && ok == status.Fine? && State() == TakeCell(TheJob(), old(State()))
      ensures OnlyGrown(space.scratchMode, space.Limit(), old(space.Now()), space.Now())
      ensures ok ==> space.Means(n, Cell(h, t))
    {
      hide Backed, Stands, OnlyGrown;
      ghost var (scratch, hi, m0) := (space.scratchMode, space.Limit(), space.Now());
      GrownNot(scratch, hi, m0);
      var out := space.AllocCell(head, tail);
      if out.None? {
        status := NoCell;
        return false, head;
      }
      ghost var m1 := space.Now();
      GrownCell(scratch, hi, m0, m1, Pair(head, tail));
      BackedStill(table[..], view, scratch, hi, m0, m1);
      StillStands(scratch, hi, m0, m1, head, h);
      StillStands(scratch, hi, m0, m1, tail, t);
      NewCellStands(m1.cells, m1.atoms, m0.Top(scratch), head, tail, h, t, m1.Top(scratch), hi);
      return true, out.value;
    }

    /** The noun, and the check of what follows it. */
    method ReadWhole() returns (n: Ref)
      requires Valid() && status.Fine? && State() == Begin(TheJob())
      modifies this, table, space`scratchTop, space`persistTop, space.cells
      modifies space.store`used, space.store`occupancy, space.store`count, space.store`contents, space.store.slots, space.store.logged
      ensures Valid() && OnlyGrown(space.scratchMode, space.Limit(), old(space.Now()), space.Now())
      ensures status == Whole(TheJob()).0.status && (status.Fine? ==> space.Means(n, Whole(TheJob()).1))
    {
      hide Decode, Trail, Valid, OnlyGrown, Space.Means, Space.Now;
      ValidIs();
      var ok;
      ok, n := DecodeNoun(1);
      if !ok {
        return;
      }
      if cur + 7 < 8 * |bytes| {
        status := Trailing;
        return;
      }
      CheckTrail();
    }

    /** The check of the trailing bits. */
    method CheckTrail()
      requires Ok() && status.Fine?
      modifies `status, `work, `cur
      ensures State() == Trail(TheJob(), old(State()))
    {
      hide ReadBit;
      while cur < 8 * |bytes|
        invariant status.Fine? && Trail(TheJob(), old(State())) == Trail(TheJob(), State())
        decreases 8 * |bytes| - cur
      {
        BitMoves(TheJob(), State());
        var ok, bit := NextBit();
        if !ok {
          return;
        }
        if bit {
          status := Trailing;
          return;
        }
      }
    }
  }

  lemma BitMoves(j: Job, r: Rd)
    ensures ReadBit(j, r).0.status.Fine? ==> ReadBit(j, r).0.cur == r.cur + 1
  {
  }

  lemma Gathered(value: nat, p: nat, bit: bool, rest: nat)
    ensures value + p * ((if bit then 1 else 0) + 2 * rest) == (if bit then value + p else value) + (2 * p) * rest
  {
  }

  lemma AtomStands(cells: seq<Pair>, m: map<nat, AtomStore.Stored>, w: AtomStore.Word, lo: nat, hi: nat)
    requires AtomStore.Live(m, w)
    ensures AtomStore.Meaning(m, w).Some? && Stands(cells, m, AtomRef(w), Atom(AtomStore.Meaning(m, w).value), lo, hi)
  {
  }

  lemma ZeroWord(h: AtomStore.Hasher, m: map<nat, AtomStore.Stored>)
    ensures var w := AtomStore.Direct(0); w == AtomStore.WordOf(h, 0) && AtomStore.Live(m, w) && AtomStore.Meaning(m, w) == Some(0)
  {
  }

  lemma NewCellStands(cells: seq<Pair>, m: map<nat, AtomStore.Stored>, at: nat, head: Ref, tail: Ref, h: Noun, t: Noun, lo: nat, hi: nat)
    requires at < |cells| && cells[at] == Pair(head, tail) && !(lo <= at < hi)
    requires Stands(cells, m, head, h, lo, hi) && Stands(cells, m, tail, t, lo, hi)
    ensures Stands(cells, m, CellRef(at), Cell(h, t), lo, hi)
  {
  }

  /** The decode of these bytes, in noun memory as it is. */
  ghost function JobOn(space: Space, scratch: bool, bytes: seq<Byte>, lim: Limits, hash: nat -> nat): Job
    reads space, space.store
  {
    var s := space.store;
    Job(FromLE(bytes), 8 * |bytes|, lim, hash,
        Memory(AtomStore.Terms(s.hasher, s.capacity, s.noalloc, true), AtomStore.Ledger(s.contents, s.used, 0),
               if scratch then space.scratchTop else space.persistTop, if scratch then space.divide else space.persistLimit, s.live))
  }

  /** What the transaction will give back is what is there. */
  ghost predicate JustBegun(space: Space)
    reads space, space.store, space.store.slots
  {
    && space.store.live && space.store.before == space.store.slots[..] && space.store.contentsBefore == space.store.contents
    && space.store.mark == space.store.used && space.cellMark == space.Top() && space.txScratch == space.scratchMode && space.store.count == 0
  }

  /** The decode under a transaction that has just begun, and its end when the bytes are refused. */
  method Attempt(bytes: seq<Byte>, lim: Limits, hash: nat -> nat, space: Space) returns (status: Status, n: Ref)
    requires space.Valid() && JustBegun(space) && 0 < lim.maxEntries <= TABLE_SIZE
    modifies space`scratchTop, space`persistTop, space.cells
    modifies space.store`used, space.store`occupancy, space.store`count, space.store`contents, space.store`live, space.store.slots, space.store.logged
    ensures space.Valid() && OnlyGrown(space.scratchMode, space.Limit(), old(space.Now()), space.Now())
    ensures var j := Job(FromLE(bytes), 8 * |bytes|, lim, hash,
                         Memory(old(space.store.TheTerms()), old(space.store.Books()), old(space.Top()), space.Limit(), false));
            status == Whole(j).0.status && (status.Fine? ==> space.store.live && space.Means(n, Whole(j).1))
    ensures !status.Fine? ==>
              && space.store.slots[..] == old(space.store.slots[..]) && space.store.contents == old(space.store.contents)
              && space.store.used == old(space.store.used) && !space.store.live
              && space.scratchTop == old(space.scratchTop) && space.persistTop == old(space.persistTop)
  {
    hide Whole, OnlyGrown, Space.Means, Reader.Valid, Space.Valid, FromLE;
    ghost var (scratch, hi, m0) := (space.scratchMode, space.Limit(), space.Now());
    var r := new Reader(bytes, lim, hash, space);
    n := r.ReadWhole();
    r.ValidIs();
    status := r.status;
    if !status.Fine? {
      ghost var m1 := space.Now();
      OtherTop(scratch, hi, m0, m1);
      space.Abort();
      GivenBack(scratch, hi, m0, m1, space.Now());
    }
  }

  lemma OtherTop(scratch: bool, hi: nat, a: Moment, b: Moment)
    requires OnlyGrown(scratch, hi, a, b)
    ensures b.Top(!scratch) == a.Top(!scratch)
  {
  }

  /** `cue_bounded_bytes`.  A refusal leaves noun memory as it was; an acceptance leaves the
      transaction open, with the noun in new atoms and cells.  Every other word keeps its meaning. */
  method CueBoundedBytes(bytes: seq<Byte>, lim: Limits, hash: nat -> nat, space: Space, scratch: bool) returns (status: Status, n: Ref)
    requires space.Valid()
    modifies space, space.store, space.store.slots, space.store.logged, space.cells
    ensures space.Valid() && space.persistLimit == old(space.persistLimit)
    ensures status == Bounded(old(JobOn(space, scratch, bytes, lim, hash))).0.status
    ensures status.Fine? ==> space.store.live && space.scratchMode == space.txScratch == scratch
                             && space.Means(n, Bounded(old(JobOn(space, scratch, bytes, lim, hash))).1)
    ensures status.Fine? ==> BoundedCueCounts.TallyWithin(lim, 8 * |bytes|, BoundedCueCounts.Tallied(FromLE(bytes), 0, map[], 1))
    ensures !status.Fine? ==>
              && space.store.slots[..] == old(space.store.slots[..]) && space.store.contents == old(space.store.contents)
              && space.store.used == old(space.store.used) && space.store.live == old(space.store.live)
              && space.scratchTop == old(space.scratchTop) && space.persistTop == old(space.persistTop)
    ensures Kept(scratch, if scratch then space.divide else space.persistLimit, old(space.Now()), space.Now())
  {
    hide Whole, Begin, FromLE, Stands, OnlyGrown, Kept, Space.Means, Space.Valid, BoundedCueCounts.Tallied, BoundedCueCounts.TallyWithin;
    BoundedCueCounts.AcceptedTally(JobOn(space, scratch, bytes, lim, hash));
    ghost var (hi, m0) := (if scratch then space.divide else space.persistLimit, space.Now());
    GrownNot(scratch, hi, m0);
    GrownKeeps(scratch, hi, m0, m0);
    n := AtomRef(AtomStore.Direct(0));
    if |bytes| == 0 || |bytes| > lim.maxInputBytes || lim.maxEntries == 0 || lim.maxEntries > TABLE_SIZE {
      return Input, n;
    }
    var ok := space.Begin(scratch);
    if !ok {
      return Busy, n;
    }
    assert space.Now() == m0;
    status, n := Attempt(bytes, lim, hash, space);
    GrownKeeps(scratch, hi, m0, space.Now());
  }
}
