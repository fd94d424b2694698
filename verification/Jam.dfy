/** The noun encoder of src/jam.c, and the length-only traversal that predicts it. */
module Jams {
  import opened Nouns
  import opened Bits

  /** A noun as it lies in memory: every node has its word.  A direct atom's word is its value; an
      indirect atom's names its store entry; a cell's is its address. */
  datatype Wnoun = WAtom(word: nat, v: nat) | WCell(word: nat, head: Wnoun, tail: Wnoun)

  function Strip(n: Wnoun): Noun {
    match n
    case WAtom(_, v) => Atom(v)
    case WCell(_, h, t) => Cell(Strip(h), Strip(t))
  }

  /** One way of running the encoder: the probe start of a word, and whether cached nouns are
      compared by word or by structure. */
  datatype Config = Config(hash: nat -> nat, identity: bool)

  predicate Same(c: Config, x: Wnoun, y: Wnoun) {
    if c.identity then x.word == y.word else Strip(x) == Strip(y)
  }

  // ----- The cache: noun to bit position -----

  const CACHE_SIZE: nat := 131072
  const CACHE_ADMITTED: nat := 98304

  datatype Slot = Vacant | Used(key: Wnoun, pos: nat)

  function Vacants(n: nat): (t: seq<Slot>)
    ensures |t| == n
  {
    seq(n, _ => Vacant)
  }

  type Table = t: seq<Slot> | |t| == CACHE_SIZE witness Vacants(CACHE_SIZE)

  /** The probe loop: the first slot that is vacant or holds this noun. */
  function Find(c: Config, t: Table, n: Wnoun, i: nat): (r: Option<nat>)
    ensures r.Some? ==> r.value < CACHE_SIZE && (t[r.value].Used? ==> Same(c, t[r.value].key, n))
    decreases CACHE_SIZE - i
  {
    if i >= CACHE_SIZE then None
    else
      var at := (c.hash(n.word) + i) % CACHE_SIZE;
      if t[at].Vacant? || Same(c, t[at].key, n) then Some(at) else Find(c, t, n, i + 1)
  }

  /** `jcache_get`. */
  function Get(c: Config, t: Table, n: Wnoun): Option<nat> {
    var f := Find(c, t, n, 0);
    if f.Some? && t[f.value].Used? then Some(t[f.value].pos) else None
  }

  datatype Cache = Cache(table: Table, used: nat)

  /** `jcache_put`: a full cache loses the entry. */
  function Put(c: Config, m: Cache, n: Wnoun, pos: nat): Cache {
    var f := Find(c, m.table, n, 0);
    if f.None? then m
    else if m.table[f.value].Used? then m.(table := m.table[f.value := Used(m.table[f.value].key, pos)])
    else if m.used >= CACHE_ADMITTED then m
    else Cache(m.table[f.value := Used(n, pos)], m.used + 1)
  }

  // ----- The encoder -----

  datatype JamState = JamState(bits: seq<bool>, cache: Cache)

  /** `jb_init` and `jcache_init`. */
  function Start(): JamState {
    JamState([], Cache(Vacants(CACHE_SIZE), 0))
  }

  function Emit(s: JamState, bits: seq<bool>): JamState {
    s.(bits := s.bits + bits)
  }

  function Remember(c: Config, s: JamState, n: Wnoun): JamState {
    s.(cache := Put(c, s.cache, n, |s.bits|))
  }

  function Backref(pos: nat): seq<bool> {
    [true, true] + Mat(pos)
  }

  function AtomBits(v: nat): seq<bool> {
    [false] + Mat(v)
  }

  /** What to do with an atom, given where it was seen: write it and remember it, write it, or
      refer back. */
  datatype AtomChoice = Fresh | Again | Refer

  function Choose(c: Config, v: nat, found: Option<nat>): AtomChoice {
    if found.None? then Fresh
    else if c.identity then (if Met(v) < Met(found.value) then Fresh else Refer)
    else if 1 + MatLen(v) <= 2 + MatLen(found.value) then Again
    else Refer
  }

  /** `do_jam`. */
  function Jam(c: Config, n: Wnoun, s: JamState): JamState
    decreases n
  {
    var found := Get(c, s.cache.table, n);
    match n
    case WCell(_, h, t) =>
      if found.Some? then Emit(s, Backref(found.value))
      else Jam(c, t, Jam(c, h, Emit(Remember(c, s, n), [true, false])))
    case WAtom(_, v) =>
      match Choose(c, v, found)
      case Fresh => Emit(Remember(c, s, n), AtomBits(v))
      case Again => Emit(s, AtomBits(v))
      case Refer => Emit(s, Backref(found.value))
  }

  /** The encoder only adds bits. */
  lemma {:induction false} JamExtends(c: Config, n: Wnoun, s: JamState)
    ensures s.bits <= Jam(c, n, s).bits && |s.bits| < |Jam(c, n, s).bits|
    decreases n
  {
    if n.WCell? && Get(c, s.cache.table, n).None? {
      var s1 := Emit(Remember(c, s, n), [true, false]);
      JamExtends(c, n.head, s1);
      JamExtends(c, n.tail, Jam(c, n.head, s1));
    }
  }

  // ----- The length-only traversal -----

  datatype LenState = LenState(len: nat, ok: bool, cache: Cache)

  /** `jam_len_add`. */
  function LenAdd(max: nat, s: LenState, bits: nat): LenState {
    if !s.ok || s.len > max || bits > max - s.len then s.(ok := false) else s.(len := s.len + bits)
  }

  function LenRemember(c: Config, s: LenState, n: Wnoun): LenState {
    s.(cache := Put(c, s.cache, n, s.len))
  }

  /** `do_jam_len`. */
  function JamLen(c: Config, max: nat, n: Wnoun, s: LenState): LenState
    decreases n
  {
    if !s.ok then s else
    var found := Get(c, s.cache.table, n);
    match n
    case WCell(_, h, t) =>
      if found.Some? then LenAdd(max, s, 2 + MatLen(found.value))
      else JamLen(c, max, t, JamLen(c, max, h, LenAdd(max, LenRemember(c, s, n), 2)))
    case WAtom(_, v) =>
      if found.None? then LenAdd(max, LenRemember(c, s, n), 1 + MatLen(v))
      else if c.identity then
        if Met(v) < Met(found.value) then LenAdd(max, LenRemember(c, s, n), 1 + MatLen(v))
        else LenAdd(max, s, 2 + MatLen(found.value))
      else
        var (atomBits, refBits) := (1 + MatLen(v), 2 + MatLen(found.value));
        LenAdd(max, s, if atomBits <= refBits then atomBits else refBits)
  }

  /** Where the length-only traversal stands beside the encoder: in step, or past the limit. */
  predicate InStep(max: nat, l: LenState, s: JamState) {
    if |s.bits| <= max then l == LenState(|s.bits|, true, s.cache) else !l.ok
  }

  lemma AddInStep(max: nat, l: LenState, s: JamState, bits: seq<bool>)
    requires InStep(max, l, s)
    ensures InStep(max, LenAdd(max, l, |bits|), Emit(s, bits))
  {
  }

  lemma {:induction false} StaysOut(c: Config, max: nat, n: Wnoun, l: LenState, s: JamState)
    requires InStep(max, l, s) && !l.ok
    ensures InStep(max, JamLen(c, max, n, l), Jam(c, n, s))
  {
    JamExtends(c, n, s);
  }

  lemma BitCounts(v: nat, pos: nat)
    ensures |AtomBits(v)| == 1 + MatLen(v) && |Backref(pos)| == 2 + MatLen(pos)
  {
    MatLenIs(v);
    MatLenIs(pos);
    hide Mat, MatLen;
  }

  /** The traversal makes the encoder's choices: it stays in step until the limit is passed, in
      both key modes and whatever the cache has lost. */
  lemma {:induction false} JamLenInStep(c: Config, max: nat, n: Wnoun, l: LenState, s: JamState)
    requires InStep(max, l, s)
    ensures InStep(max, JamLen(c, max, n, l), Jam(c, n, s))
    decreases n
  {
    hide Mat, MatLen, Met, Find;
    if !l.ok {
      StaysOut(c, max, n, l, s);
    } else {
      var found := Get(c, s.cache.table, n);
      var pos := if found.Some? then found.value else 0;
      if n.WCell? {
        BitCounts(0, pos);
        if found.Some? {
          AddInStep(max, l, s, Backref(pos));
        } else {
          var (l1, s1) := (LenAdd(max, LenRemember(c, l, n), 2), Emit(Remember(c, s, n), [true, false]));
          AddInStep(max, LenRemember(c, l, n), Remember(c, s, n), [true, false]);
          JamLenInStep(c, max, n.head, l1, s1);
          JamLenInStep(c, max, n.tail, JamLen(c, max, n.head, l1), Jam(c, n.head, s1));
        }
      } else {
        BitCounts(n.v, pos);
        AddInStep(max, LenRemember(c, l, n), Remember(c, s, n), AtomBits(n.v));
        AddInStep(max, l, s, AtomBits(n.v));
        AddInStep(max, l, s, Backref(pos));
      }
    }
  }

  /** The bytes a bit string takes, at least one. */
  function ByteCount(bits: nat): nat {
    if bits == 0 then 1 else (bits + 7) / 8
  }

  /** `jam_size_checked`; no answer is the error return. */
  function SizeChecked(c: Config, n: Wnoun, maxBytes: nat): Option<nat> {
    if maxBytes == 0 || maxBytes > 0xFFFF_FFFF_FFFF_FFFF / 8 then None
    else
      var l := JamLen(c, maxBytes * 8, n, LenState(0, true, Start().cache));
      if l.ok && ByteCount(l.len) <= maxBytes then Some(ByteCount(l.len)) else None
  }

  /** The size check succeeds exactly when the encoder's output fits, and then gives its exact
      byte count. */
  lemma SizeCheckedExact(c: Config, n: Wnoun, maxBytes: nat)
    requires 0 < maxBytes <= 0xFFFF_FFFF_FFFF_FFFF / 8
    ensures var bits := |Jam(c, n, Start()).bits|;
            SizeChecked(c, n, maxBytes) == if bits <= maxBytes * 8 then Some(ByteCount(bits)) else None
  {
    JamLenInStep(c, maxBytes * 8, n, LenState(0, true, Start().cache), Start());
    hide Jam, JamLen;
  }

  // ----- The end of the stream -----

  lemma {:induction false} TopBitSet(k: nat)
    requires k > 0
    ensures LowBits(k, Met(k))[Met(k) - 1]
  {
    if k > 1 {
      TopBitSet(k / 2);
    }
  }

  lemma MatEndsInOne(k: nat)
    ensures Mat(k)[|Mat(k)| - 1]
  {
    if Met(k) > 0 {
      TopBitSet(k);
      MatIs(k, Met(k), Met(Met(k)));
    }
  }

  /** The stream ends in a 1 bit, so no zero byte is lost off its top when it is an atom. */
  lemma {:induction false} JamEndsInOne(c: Config, n: Wnoun, s: JamState)
    ensures var bits := Jam(c, n, s).bits; |bits| > 0 && bits[|bits| - 1]
    decreases n
  {
    hide Mat, Get, Put, Met, MatLen;
    var found := Get(c, s.cache.table, n);
    MatEndsInOne(if found.Some? then found.value else 0);
    if n.WCell? && found.None? {
      JamEndsInOne(c, n.tail, Jam(c, n.head, Emit(Remember(c, s, n), [true, false])));
    } else if n.WAtom? {
      MatEndsInOne(n.v);
    }
  }
}
