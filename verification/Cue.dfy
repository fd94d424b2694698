/** The noun decoder of src/jam.c, and the round trip through both. */
module Cues {
  import opened Nouns
  import opened Arith
  import opened Bits
  import opened Jams

  /** What a decoder takes: atoms of so many limbs, and so many table entries. */
  datatype Dims = Dims(limbs: nat, entries: nat, wraps: bool)

  const CUE: Dims := Dims(16384, 1048576, true)

  datatype Cued = Cued(noun: Noun, cur: nat, cache: map<nat, Noun>)

  /** `ccache_put`: no answer is the crash on a full table. */
  function Keep(d: Dims, cache: map<nat, Noun>, pos: nat, n: Noun): Option<map<nat, Noun>> {
    if pos !in cache && |cache| >= d.entries then None else Some(cache[pos := n])
  }

  /** `do_cue`: the noun whose encoding starts at `cur`, the cursor behind it, and the table of
      everything decoded; no answer is a crash. */
  function Cue(d: Dims, a: nat, cur: nat, cache: map<nat, Noun>): (r: Option<Cued>)
    ensures r.Some? ==> r.value.cur > cur
    decreases if BitAt(a, cur) then Met(a) - cur else 0
  {
    var node := CueNode(d, a, cur, cache);
    if node.None? then None else
    var kept := Keep(d, node.value.cache, cur, node.value.noun);
    if kept.None? then None else Some(node.value.(cache := kept.value))
  }

  function CueNode(d: Dims, a: nat, cur: nat, cache: map<nat, Noun>): (r: Option<Cued>)
    ensures r.Some? ==> r.value.cur > cur
    decreases if BitAt(a, cur) then Met(a) - cur else 0, 0
  {
    if !BitAt(a, cur) then
      var v := Rub(d.limbs, d.wraps, a, cur + 1);
      if v.None? then None else Some(Cued(Atom(v.value.0), v.value.1, cache))
    else if !BitAt(a, cur + 1) then
      BitBelowMet(a, cur);
      var head := Cue(d, a, cur + 2, cache);
      if head.None? then None else
      var tail := Cue(d, a, head.value.cur, head.value.cache);
      if tail.None? then None else
      Some(tail.value.(noun := Cell(head.value.noun, tail.value.noun)))
    else
      var ref := Rub(d.limbs, d.wraps, a, cur + 2);
      if ref.None? || ref.value.0 >= DIRECT_LIMIT || ref.value.0 !in cache then None
      else Some(Cued(cache[ref.value.0], ref.value.1, cache))
  }

  lemma BitBelowMet(a: nat, i: nat)
    requires BitAt(a, i)
    ensures i < Met(a)
  {
    if i >= Met(a) {
      MetBounds(a);
      Pow2Monotone(Met(a), i);
      QuotientUnique(a, Pow2(i), 0, a);
    }
  }

  /** `cue`. */
  function CueAtom(a: nat): Option<Noun> {
    var r := Cue(CUE, a, 0, map[]);
    if r.None? then None else Some(r.value.noun)
  }

  // ----- The round trip -----

  function Size(n: Noun): nat {
    match n
    case Atom(_) => 1
    case Cell(h, t) => 1 + Size(h) + Size(t)
  }

  /** A heap: closed under the halves of its cells, and one word names one noun. */
  predicate Heap(nouns: set<Wnoun>) {
    && (forall n :: n in nouns && n.WCell? ==> n.head in nouns && n.tail in nouns)
    && (forall x, y :: x in nouns && y in nouns && x.word == y.word ==> x == y)
  }

  /** A remembered entry is decoded already, with the right noun, or is one of the cells being
      written. */
  predicate EntrySound(e: Slot, nouns: set<Wnoun>, cache: map<nat, Noun>, open: set<(Wnoun, nat)>) {
    e.Used? ==>
      e.key in nouns && (((e.key, e.pos) in open) || (e.pos in cache && cache[e.pos] == Strip(e.key)))
  }

  predicate Sound(t: Table, nouns: set<Wnoun>, cache: map<nat, Noun>, open: set<(Wnoun, nat)>) {
    forall i :: 0 <= i < |t| ==> EntrySound(t[i], nouns, cache, open)
  }

  /** Every cell being written is larger than this noun. */
  predicate Enclosing(open: set<(Wnoun, nat)>, n: Wnoun) {
    forall o :: o in open ==> Size(Strip(o.0)) > Size(Strip(n))
  }

  /** The decoder's table covers only what is behind the cursor. */
  predicate Behind(cache: map<nat, Noun>, cur: nat) {
    forall p :: p in cache ==> p < cur
  }

  predicate Extends(cache: map<nat, Noun>, more: map<nat, Noun>) {
    forall p :: p in cache ==> p in more && more[p] == cache[p]
  }

  /** A noun found in the cache is equal to the one looked up, and is decoded already: it is never
      a cell still being written. */
  lemma FoundIsDecoded(c: Config, n: Wnoun, t: Table, nouns: set<Wnoun>, cache: map<nat, Noun>, open: set<(Wnoun, nat)>)
    requires Heap(nouns) && n in nouns && Sound(t, nouns, cache, open) && Enclosing(open, n)
    requires Get(c, t, n).Some?
    ensures var pos := Get(c, t, n).value; pos in cache && cache[pos] == Strip(n)
  {
    var f := Find(c, t, n, 0);
    assert EntrySound(t[f.value], nouns, cache, open);
    assert Same(c, t[f.value].key, n);
  }

  /** Remembering a noun at the cursor keeps the cache sound once the noun counts as open. */
  lemma RememberSound(c: Config, m: Cache, n: Wnoun, pos: nat, nouns: set<Wnoun>, cache: map<nat, Noun>, open: set<(Wnoun, nat)>)
    requires Heap(nouns) && n in nouns && Sound(m.table, nouns, cache, open) && Get(c, m.table, n).None?
    ensures Sound(Put(c, m, n, pos).table, nouns, cache, open + {(n, pos)})
  {
    var t := Put(c, m, n, pos).table;
    forall i | 0 <= i < |t|
      ensures EntrySound(t[i], nouns, cache, open + {(n, pos)})
    {
      assert EntrySound(m.table[i], nouns, cache, open);
    }
  }

  /** Once decoded, it is open no more. */
  lemma CloseSound(t: Table, n: Wnoun, pos: nat, nouns: set<Wnoun>, cache: map<nat, Noun>, more: map<nat, Noun>, open: set<(Wnoun, nat)>)
    requires Sound(t, nouns, cache, open + {(n, pos)}) && Extends(cache, more)
    requires pos in more && more[pos] == Strip(n)
    ensures Sound(t, nouns, more, open)
  {
    forall i | 0 <= i < |t|
      ensures EntrySound(t[i], nouns, more, open)
    {
      assert EntrySound(t[i], nouns, cache, open + {(n, pos)});
    }
  }

  /** Writing an atom again moves its entry. */
  lemma MoveSound(c: Config, m: Cache, n: Wnoun, pos: nat, nouns: set<Wnoun>, cache: map<nat, Noun>, more: map<nat, Noun>, open: set<(Wnoun, nat)>)
    requires Heap(nouns) && n in nouns && Sound(m.table, nouns, cache, open) && Extends(cache, more)
    requires pos in more && more[pos] == Strip(n)
    ensures Sound(Put(c, m, n, pos).table, nouns, more, open)
  {
    var t := Put(c, m, n, pos).table;
    forall i | 0 <= i < |t|
      ensures EntrySound(t[i], nouns, more, open)
    {
      assert EntrySound(m.table[i], nouns, cache, open);
      assert t[i] != m.table[i] && t[i].Used? ==> t[i].pos == pos && (t[i].key == n || Same(c, t[i].key, n));
    }
  }

  lemma ExtendSound(t: Table, nouns: set<Wnoun>, cache: map<nat, Noun>, more: map<nat, Noun>, open: set<(Wnoun, nat)>)
    requires Sound(t, nouns, cache, open) && Extends(cache, more)
    ensures Sound(t, nouns, more, open)
  {
    forall i | 0 <= i < |t|
      ensures EntrySound(t[i], nouns, more, open)
    {
      assert EntrySound(t[i], nouns, cache, open);
    }
  }

  lemma {:induction false} BelowCount(keys: set<nat>, n: nat)
    requires forall p :: p in keys ==> p < n
    ensures |keys| <= n
  {
    if n > 0 {
      var rest := keys - {n - 1};
      BelowCount(rest, n - 1);
      assert keys <= rest + {n - 1};
      assert |rest| + 1 >= |keys| by {
        if n - 1 in keys {
          assert keys == rest + {n - 1};
        } else {
          assert keys == rest;
        }
      }
    } else {
      assert keys == {};
    }
  }

  const MAX_BITS: nat := 1048576

  predicate Roomy(d: Dims) {
    MAX_BITS <= 64 * d.limbs <= 64 * MAX_LIMBS && MAX_BITS <= d.entries
  }

  lemma SmallMet(x: nat)
    requires x < MAX_BITS
    ensures Met(x) <= MAX_BITS
  {
    Pow2At20();
    MetMonotone(x, 20);
  }

  lemma AtomRound(d: Dims, a: nat, cur: nat, v: nat, cache: map<nat, Noun>)
    requires Roomy(d) && Holds(a, cur, AtomBits(v)) && Met(v) <= MAX_BITS
    ensures CueNode(d, a, cur, cache) == Some(Cued(Atom(v), cur + |AtomBits(v)|, cache))
  {
    hide Holds, Rub, Mat, BitAt, Met, CueNode;
    HoldsNext(a, cur, false, Mat(v));
    RubOfMat(d.limbs, d.wraps, a, cur + 1, v);
    AtomNode(d, a, cur, cache, v, cur + 1 + |Mat(v)|);
  }

  lemma AtomNode(d: Dims, a: nat, cur: nat, cache: map<nat, Noun>, v: nat, end: nat)
    requires !BitAt(a, cur) && Rub(d.limbs, d.wraps, a, cur + 1) == Some((v, end))
    ensures CueNode(d, a, cur, cache) == Some(Cued(Atom(v), end, cache))
  {
    hide Rub, BitAt, Cue;
  }

  lemma BackrefRound(d: Dims, a: nat, cur: nat, pos: nat, cache: map<nat, Noun>)
    requires Roomy(d) && Holds(a, cur, Backref(pos)) && pos < MAX_BITS && pos in cache
    ensures CueNode(d, a, cur, cache) == Some(Cued(cache[pos], cur + |Backref(pos)|, cache))
  {
    hide Holds, Rub, Mat, BitAt, Met, CueNode;
    assert Backref(pos) == [true] + ([true] + Mat(pos));
    HoldsNext(a, cur, true, [true] + Mat(pos));
    HoldsNext(a, cur + 1, true, Mat(pos));
    SmallMet(pos);
    RubOfMat(d.limbs, d.wraps, a, cur + 2, pos);
    BackrefNode(d, a, cur, cache, pos, cur + 2 + |Mat(pos)|);
  }

  lemma BackrefNode(d: Dims, a: nat, cur: nat, cache: map<nat, Noun>, pos: nat, end: nat)
    requires BitAt(a, cur) && BitAt(a, cur + 1) && Rub(d.limbs, d.wraps, a, cur + 2) == Some((pos, end))
    requires pos < MAX_BITS && pos in cache
    ensures CueNode(d, a, cur, cache) == Some(Cued(cache[pos], end, cache))
  {
    hide Rub, BitAt, Cue;
  }

  /** A node that is decoded is kept. */
  lemma CueKeeps(d: Dims, a: nat, cur: nat, cache: map<nat, Noun>, node: Cued)
    requires Roomy(d) && CueNode(d, a, cur, cache) == Some(node) && Behind(node.cache, node.cur) && cur !in node.cache
    requires cur < node.cur <= MAX_BITS
    ensures Cue(d, a, cur, cache) == Some(node.(cache := node.cache[cur := node.noun]))
    ensures Extends(node.cache, node.cache[cur := node.noun]) && Behind(node.cache[cur := node.noun], node.cur)
  {
    hide CueNode;
    BelowCountExcept(node.cache, node.cur, cur);
  }

  /** Positions below the cursor, without one of them, are fewer than the cursor. */
  lemma BelowCountExcept(cache: map<nat, Noun>, cur: nat, hole: nat)
    requires Behind(cache, cur) && hole < cur && hole !in cache
    ensures |cache| < cur
  {
    BelowCount(cache.Keys + {hole}, cur);
    assert |cache.Keys + {hole}| == |cache.Keys| + 1;
    assert |cache| == |cache.Keys|;
  }

  /** What is new in the table lies at the cursor or behind it. */
  predicate NewFrom(cache: map<nat, Noun>, more: map<nat, Noun>, cur: nat) {
    forall p :: p in more ==> p in cache || p >= cur
  }

  lemma MetFits(v: nat)
    ensures Met(v) <= |Mat(v)|
  {
    MatLenIs(v);
  }

  lemma PrefixHeld(a: nat, s: seq<bool>, t: seq<bool>)
    requires s <= t && Holds(a, 0, t)
    ensures Holds(a, 0, s) && Holds(a, |s|, t[|s|..])
  {
    assert t == s + t[|s|..];
    HoldsSplit(a, 0, s, t[|s|..]);
  }

  lemma BehindSteps(cache: map<nat, Noun>, cur: nat, later: nat)
    requires Behind(cache, cur) && cur <= later
    ensures Behind(cache, later) && cur !in cache && Extends(cache, cache)
  {
  }

  /** The decoder reads back whatever the encoder wrote, at the place where it wrote it, and both
      caches stay in agreement. */
  lemma {:induction false} Round(d: Dims, c: Config, n: Wnoun, s: JamState, a: nat, nouns: set<Wnoun>, cache: map<nat, Noun>,
                                 open: set<(Wnoun, nat)>) returns (more: map<nat, Noun>)
    requires Roomy(d) && Heap(nouns) && n in nouns && Sound(s.cache.table, nouns, cache, open) && Enclosing(open, n)
    requires Behind(cache, |s.bits|) && |Jam(c, n, s).bits| <= MAX_BITS && Holds(a, 0, Jam(c, n, s).bits)
    ensures Cue(d, a, |s.bits|, cache) == Some(Cued(Strip(n), |Jam(c, n, s).bits|, more))
    ensures Sound(Jam(c, n, s).cache.table, nouns, more, open)
    ensures Extends(cache, more) && Behind(more, |Jam(c, n, s).bits|) && NewFrom(cache, more, |s.bits|)
    decreases n, 1
  {
    hide *;
    if n.WCell? && Get(c, s.cache.table, n).None? {
      more := CellRound(d, c, n, s, a, nouns, cache, open);
    } else {
      more := LeafRound(d, c, n, s, a, nouns, cache, open);
    }
  }

  /** What the encoder writes for an atom or a noun seen before. */
  function LeafBits(c: Config, n: Wnoun, found: Option<nat>): seq<bool>
    requires n.WCell? ==> found.Some?
  {
    if n.WAtom? && !Choose(c, n.v, found).Refer? then AtomBits(n.v) else if found.Some? then Backref(found.value) else []
  }

  lemma JamLeaf(c: Config, n: Wnoun, s: JamState)
    requires n.WCell? ==> Get(c, s.cache.table, n).Some?
    ensures var found := Get(c, s.cache.table, n);
            Jam(c, n, s) == Emit(if n.WAtom? && Choose(c, n.v, found).Fresh? then Remember(c, s, n) else s, LeafBits(c, n, found))
    ensures n.WAtom? && Choose(c, n.v, Get(c, s.cache.table, n)).Refer? ==> Get(c, s.cache.table, n).Some?
  {
    hide Get, Put, Mat, Met, MatLen;
  }

  /** The node at a leaf's place. */
  lemma LeafNode(d: Dims, c: Config, n: Wnoun, a: nat, cur: nat, found: Option<nat>, cache: map<nat, Noun>)
    requires Roomy(d) && (n.WCell? ==> found.Some?)
    requires n.WAtom? && Choose(c, n.v, found).Refer? ==> found.Some?
    requires found.Some? ==> found.value in cache && cache[found.value] == Strip(n)
    requires Behind(cache, cur) && cur + |LeafBits(c, n, found)| <= MAX_BITS && Holds(a, cur, LeafBits(c, n, found))
    ensures CueNode(d, a, cur, cache) == Some(Cued(Strip(n), cur + |LeafBits(c, n, found)|, cache))
  {
    hide Holds, Mat, Met, MatLen, CueNode, Backref;
    if n.WAtom? && !Choose(c, n.v, found).Refer? {
      MetFits(n.v);
      AtomRound(d, a, cur, n.v, cache);
    } else {
      BackrefRound(d, a, cur, found.value, cache);
    }
  }

  lemma {:induction false} LeafRound(d: Dims, c: Config, n: Wnoun, s: JamState, a: nat, nouns: set<Wnoun>, cache: map<nat, Noun>,
                                     open: set<(Wnoun, nat)>) returns (more: map<nat, Noun>)
    requires Roomy(d) && Heap(nouns) && n in nouns && Sound(s.cache.table, nouns, cache, open) && Enclosing(open, n)
    requires Behind(cache, |s.bits|) && |Jam(c, n, s).bits| <= MAX_BITS && Holds(a, 0, Jam(c, n, s).bits)
    requires n.WCell? ==> Get(c, s.cache.table, n).Some?
    ensures Cue(d, a, |s.bits|, cache) == Some(Cued(Strip(n), |Jam(c, n, s).bits|, more))
    ensures Sound(Jam(c, n, s).cache.table, nouns, more, open)
    ensures Extends(cache, more) && Behind(more, |Jam(c, n, s).bits|) && NewFrom(cache, more, |s.bits|)
  {
    hide Heap, Sound, Enclosing, Holds, Mat, Met, MatLen, Cue, CueNode, Jam, Get, Put, Choose, LeafBits, Strip, Behind, Extends;
    var (cur, found) := (|s.bits|, Get(c, s.cache.table, n));
    if found.Some? {
      FoundIsDecoded(c, n, s.cache.table, nouns, cache, open);
    }
    JamExtends(c, n, s);
    JamLeaf(c, n, s);
    HoldsSplit(a, 0, s.bits, LeafBits(c, n, found));
    LeafNode(d, c, n, a, cur, found, cache);
    BehindSteps(cache, cur, |Jam(c, n, s).bits|);
    CueKeeps(d, a, cur, cache, Cued(Strip(n), |Jam(c, n, s).bits|, cache));
    more := cache[cur := Strip(n)];
    if n.WAtom? && Choose(c, n.v, found).Fresh? {
      MoveSound(c, s.cache, n, cur, nouns, cache, more, open);
    } else {
      ExtendSound(s.cache.table, nouns, cache, more, open);
    }
  }

  lemma EnclosingHalf(open: set<(Wnoun, nat)>, n: Wnoun, pos: nat)
    requires n.WCell? && Enclosing(open, n)
    ensures Enclosing(open + {(n, pos)}, n.head) && Enclosing(open + {(n, pos)}, n.tail)
  {
  }

  lemma HalvesIn(nouns: set<Wnoun>, n: Wnoun)
    requires Heap(nouns) && n in nouns && n.WCell?
    ensures n.head in nouns && n.tail in nouns
  {
  }

  lemma ExtendsTwice(cache: map<nat, Noun>, m1: map<nat, Noun>, m2: map<nat, Noun>, cur: nat, mid: nat, at: nat)
    requires Extends(cache, m1) && Extends(m1, m2) && Behind(cache, at) && at < cur <= mid
    requires NewFrom(cache, m1, cur) && NewFrom(m1, m2, mid)
    ensures Extends(cache, m2) && NewFrom(cache, m2, at) && at !in m2
  {
  }

  lemma Closed(cache: map<nat, Noun>, m2: map<nat, Noun>, at: nat, n: Noun)
    requires Extends(cache, m2) && NewFrom(cache, m2, at) && at !in m2
    ensures Extends(cache, m2[at := n]) && NewFrom(cache, m2[at := n], at)
  {
  }

  lemma CellBits(a: nat, s: seq<bool>)
    requires Holds(a, 0, s + [true, false])
    ensures BitAt(a, |s|) && !BitAt(a, |s| + 1)
  {
    HoldsSplit(a, 0, s, [true, false]);
    assert [true, false] == [true] + [false];
    HoldsNext(a, |s|, true, [false]);
    assert [false] == [false] + [];
    HoldsNext(a, |s| + 1, false, []);
  }

  /** A cell's node, from those of its halves. */
  lemma CellNode(d: Dims, a: nat, cur: nat, cache: map<nat, Noun>, head: Cued, tail: Cued)
    requires BitAt(a, cur) && !BitAt(a, cur + 1)
    requires Cue(d, a, cur + 2, cache) == Some(head) && Cue(d, a, head.cur, head.cache) == Some(tail)
    ensures CueNode(d, a, cur, cache) == Some(tail.(noun := Cell(head.noun, tail.noun)))
  {
    hide Cue, BitAt;
  }

  /** What the encoder does with a cell it has not seen. */
  lemma JamCell(c: Config, n: Wnoun, s: JamState)
    requires n.WCell? && Get(c, s.cache.table, n).None?
    ensures var s1 := Emit(Remember(c, s, n), [true, false]);
            && Jam(c, n, s) == Jam(c, n.tail, Jam(c, n.head, s1)) && Strip(n) == Cell(Strip(n.head), Strip(n.tail))
            && s1.bits == s.bits + [true, false] && s1.cache == Put(c, s.cache, n, |s.bits|)
  {
    hide Get, Put;
  }

  lemma {:induction false} CellRound(d: Dims, c: Config, n: Wnoun, s: JamState, a: nat, nouns: set<Wnoun>, cache: map<nat, Noun>,
                                     open: set<(Wnoun, nat)>) returns (more: map<nat, Noun>)
    requires Roomy(d) && Heap(nouns) && n in nouns && Sound(s.cache.table, nouns, cache, open) && Enclosing(open, n)
    requires Behind(cache, |s.bits|) && |Jam(c, n, s).bits| <= MAX_BITS && Holds(a, 0, Jam(c, n, s).bits)
    requires n.WCell? && Get(c, s.cache.table, n).None?
    ensures Cue(d, a, |s.bits|, cache) == Some(Cued(Strip(n), |Jam(c, n, s).bits|, more))
    ensures Sound(Jam(c, n, s).cache.table, nouns, more, open)
    ensures Extends(cache, more) && Behind(more, |Jam(c, n, s).bits|) && NewFrom(cache, more, |s.bits|)
    decreases n, 0
  {
    hide Heap, Sound, Enclosing, Holds, Mat, Met, MatLen, Cue, CueNode, Jam, Get, Put, Strip, Behind, Extends, NewFrom, BitAt,
         Emit, Remember;
    var (cur, s1) := (|s.bits|, Emit(Remember(c, s, n), [true, false]));
    var s2 := Jam(c, n.head, s1);
    var s3 := Jam(c, n.tail, s2);
    JamCell(c, n, s);
    JamExtends(c, n.head, s1);
    JamExtends(c, n.tail, s2);
    PrefixHeld(a, s2.bits, s3.bits);
    PrefixHeld(a, s1.bits, s2.bits);
    CellBits(a, s.bits);
    var open' := open + {(n, cur)};
    RememberSound(c, s.cache, n, cur, nouns, cache, open);
    EnclosingHalf(open, n, cur);
    HalvesIn(nouns, n);
    BehindSteps(cache, cur, |s1.bits|);
    var m1 := Round(d, c, n.head, s1, a, nouns, cache, open');
    var m2 := Round(d, c, n.tail, s2, a, nouns, m1, open');
    CellNode(d, a, cur, cache, Cued(Strip(n.head), |s2.bits|, m1), Cued(Strip(n.tail), |s3.bits|, m2));
    ExtendsTwice(cache, m1, m2, |s1.bits|, |s2.bits|, cur);
    CueKeeps(d, a, cur, cache, Cued(Strip(n), |s3.bits|, m2));
    more := m2[cur := Strip(n)];
    Closed(cache, m2, cur, Strip(n));
    CloseSound(s3.cache.table, n, cur, nouns, m2, more, open);
  }

  /** `cue(jam(n))` is `n`, for every noun whose encoding fits the buffer, in both key modes and
      whatever sharing the encoder's cache finds or loses. */
  lemma CueOfJam(c: Config, n: Wnoun, nouns: set<Wnoun>)
    requires Heap(nouns) && n in nouns && |Jam(c, n, Start()).bits| <= MAX_BITS
    ensures CueAtom(FromBits(Jam(c, n, Start()).bits)) == Some(Strip(n))
  {
    var bits := Jam(c, n, Start()).bits;
    HoldsAll(bits);
    assert Sound(Start().cache.table, nouns, map[], {});
    hide Sound, Heap, Jam, Cue, Holds, Strip;
    var more := Round(CUE, c, n, Start(), FromBits(bits), nouns, map[], {});
  }
}
