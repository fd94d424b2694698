/** The encoder with its hashed cache against the encoder with a plain map of what was written where. */
module JamIdeal {
  import opened Nouns
  import opened Bits
  import opened Jams
  import opened Cues
  import P = Probe

  /** Equal words, equal nouns: the cache cannot tell a word from a noun. */
  predicate WordsTell(c: Config, nouns: set<Wnoun>) {
    forall x, y :: x in nouns && y in nouns ==> (Same(c, x, y) <==> x.word == y.word)
  }

  function AllWords(n: Wnoun): set<nat> {
    match n
    case WAtom(w, _) => {w}
    case WCell(w, h, t) => {w} + AllWords(h) + AllWords(t)
  }

  /** Write a noun behind the bits, given where each word was first written: a cell seen before is a
      back-reference; an atom seen before is whichever of its two forms is the shorter, and itself if
      they are as long, or, with keys by identity, itself exactly if it has fewer bits than the
      position, which then moves. */
  function Ideal(identity: bool, n: Wnoun, bits: seq<bool>, seen: map<nat, nat>): (seq<bool>, map<nat, nat>)
    decreases n
  {
    match n
    case WCell(w, h, t) =>
      if w in seen then (bits + Backref(seen[w]), seen)
      else
        var (b, m) := Ideal(identity, h, bits + [true, false], seen[w := |bits|]);
        Ideal(identity, t, b, m)
    case WAtom(w, v) =>
      if w !in seen then (bits + AtomBits(v), seen[w := |bits|])
      else if identity then
        if Met(v) < Met(seen[w]) then (bits + AtomBits(v), seen[w := |bits|]) else (bits + Backref(seen[w]), seen)
      else if |AtomBits(v)| <= |Backref(seen[w])| then (bits + AtomBits(v), seen)
      else (bits + Backref(seen[w]), seen)
  }

  // ----- The cache is the map -----

  function ShapeOf(c: Config): P.Shape {
    P.Shape(c.hash, CACHE_SIZE, CACHE_SIZE)
  }

  function View(t: Table): (v: seq<P.Entry<nat>>)
    ensures |v| == CACHE_SIZE
  {
    seq(CACHE_SIZE, i requires 0 <= i < CACHE_SIZE => match t[i] case Vacant => P.Vacant case Used(key, pos) => P.Full(key.word, pos))
  }

  predicate KeysIn(t: Table, nouns: set<Wnoun>) {
    forall i :: 0 <= i < CACHE_SIZE && t[i].Used? ==> t[i].key in nouns
  }

  /** The cache holds exactly what the map holds. */
  ghost predicate Mirror(c: Config, m: Cache, seen: map<nat, nat>, nouns: set<Wnoun>) {
    KeysIn(m.table, nouns) && P.Represents(ShapeOf(c), View(m.table), seen) && m.used == |seen|
  }

  lemma ViewAt(c: Config, t: Table, n: Wnoun, nouns: set<Wnoun>, at: nat)
    requires KeysIn(t, nouns) && n in nouns && WordsTell(c, nouns) && at < CACHE_SIZE
    ensures View(t)[at].Vacant? <==> t[at].Vacant?
    ensures t[at].Used? ==> (Same(c, t[at].key, n) <==> View(t)[at].key == n.word)
  {
    hide Same;
  }

  lemma {:induction false} FindView(c: Config, t: Table, n: Wnoun, nouns: set<Wnoun>, i: nat)
    requires KeysIn(t, nouns) && n in nouns && WordsTell(c, nouns) && i <= CACHE_SIZE
    ensures var f := P.Find(ShapeOf(c), View(t), n.word, i);
            Find(c, t, n, i) == if f.None? then None else Some(P.At(ShapeOf(c), n.word, f.value))
    decreases CACHE_SIZE - i
  {
    hide Same, View, KeysIn, WordsTell;
    if i < CACHE_SIZE {
      ViewAt(c, t, n, nouns, P.At(ShapeOf(c), n.word, i));
      FindView(c, t, n, nouns, i + 1);
    }
  }

  lemma GetIdeal(c: Config, m: Cache, seen: map<nat, nat>, nouns: set<Wnoun>, n: Wnoun)
    requires Mirror(c, m, seen, nouns) && n in nouns && WordsTell(c, nouns)
    ensures Get(c, m.table, n) == if n.word in seen then Some(seen[n.word]) else None
  {
    FindView(c, m.table, n, nouns, 0);
    P.GetIs(ShapeOf(c), View(m.table), seen, n.word);
    hide P.Represents, KeysIn, WordsTell, P.Find, Find;
  }

  /** Below the limit of entries a store is an update of the map. */
  lemma PutIdeal(c: Config, m: Cache, seen: map<nat, nat>, nouns: set<Wnoun>, n: Wnoun, pos: nat)
    requires Mirror(c, m, seen, nouns) && n in nouns && WordsTell(c, nouns) && (n.word in seen || |seen| < CACHE_ADMITTED)
    ensures Mirror(c, Put(c, m, n, pos), seen[n.word := pos], nouns)
  {
    var (p, v) := (ShapeOf(c), View(m.table));
    FindView(c, m.table, n, nouns, 0);
    P.GetIs(p, v, seen, n.word);
    var f := P.Find(p, v, n.word, 0);
    if f.None? {
      P.FullIs(p, v, seen, n.word);
    } else {
      P.PutIs(p, v, seen, n.word, pos);
      var at := P.At(p, n.word, f.value);
      assert View(Put(c, m, n, pos).table) == v[at := P.Full(n.word, pos)];
      hide P.Represents, WordsTell, P.Find, Find;
    }
  }

  lemma SubsetBelow(a: set<nat>, b: set<nat>, x: nat)
    requires a <= b && x in b && x !in a
    ensures |a| < |b|
  {
    P.KeysWithin(a + {x}, b);
  }

  lemma RoomLeft(seen: map<nat, nat>, words: set<nat>, w: nat)
    requires seen.Keys <= words && w in words && |words| <= CACHE_ADMITTED
    ensures w in seen || |seen| < CACHE_ADMITTED
  {
    assert |seen| == |seen.Keys|;
    if w !in seen {
      SubsetBelow(seen.Keys, words, w);
    }
  }

  lemma {:induction false} IdealKeys(identity: bool, n: Wnoun, bits: seq<bool>, seen: map<nat, nat>, words: set<nat>)
    requires seen.Keys <= words && AllWords(n) <= words
    ensures Ideal(identity, n, bits, seen).1.Keys <= words
    decreases n
  {
    if n.WCell? && n.word !in seen {
      var (b, m) := Ideal(identity, n.head, bits + [true, false], seen[n.word := |bits|]);
      IdealKeys(identity, n.head, bits + [true, false], seen[n.word := |bits|], words);
      IdealKeys(identity, n.tail, b, m, words);
    }
  }

  lemma JamAtomIdeal(c: Config, n: Wnoun, s: JamState, seen: map<nat, nat>, nouns: set<Wnoun>)
    requires n.WAtom? && n in nouns && WordsTell(c, nouns) && Mirror(c, s.cache, seen, nouns)
    requires n.word in seen || |seen| < CACHE_ADMITTED
    ensures var (b, m) := Ideal(c.identity, n, s.bits, seen); Jam(c, n, s).bits == b && Mirror(c, Jam(c, n, s).cache, m, nouns)
  {
    hide Mirror, WordsTell, Get, Put, Mat, MatLen, Met;
    GetIdeal(c, s.cache, seen, nouns, n);
    PutIdeal(c, s.cache, seen, nouns, n, |s.bits|);
    if n.word in seen {
      BitCounts(n.v, seen[n.word]);
    }
  }

  /** A noun of at most 98304 distinct words is written as with the plain map. */
  lemma {:induction false} JamIdealFrom(c: Config, n: Wnoun, s: JamState, seen: map<nat, nat>, nouns: set<Wnoun>, words: set<nat>)
    requires Heap(nouns) && n in nouns && WordsTell(c, nouns) && Mirror(c, s.cache, seen, nouns)
    requires seen.Keys <= words && AllWords(n) <= words && |words| <= CACHE_ADMITTED
    ensures var (b, m) := Ideal(c.identity, n, s.bits, seen); Jam(c, n, s).bits == b && Mirror(c, Jam(c, n, s).cache, m, nouns)
    decreases n
  {
    hide Mirror, WordsTell, Get, Put, Mat, MatLen, Met, Backref, AtomBits;
    RoomLeft(seen, words, n.word);
    match n
    case WAtom(_, _) => JamAtomIdeal(c, n, s, seen, nouns);
    case WCell(w, h, t) =>
      GetIdeal(c, s.cache, seen, nouns, n);
      if w !in seen {
        PutIdeal(c, s.cache, seen, nouns, n, |s.bits|);
        var s1 := Emit(Remember(c, s, n), [true, false]);
        JamIdealFrom(c, h, s1, seen[w := |s.bits|], nouns, words);
        var (b, m) := Ideal(c.identity, h, s1.bits, seen[w := |s.bits|]);
        IdealKeys(c.identity, h, s1.bits, seen[w := |s.bits|], words);
        JamIdealFrom(c, t, Jam(c, h, s1), m, nouns, words);
      }
  }

  lemma EmptyMirror(c: Config, nouns: set<Wnoun>)
    ensures Mirror(c, Start().cache, map[], nouns)
  {
    assert forall i :: 0 <= i < CACHE_SIZE ==> View(Start().cache.table)[i] == P.Vacant;
  }

  /** `jam` writes what the plain encoder writes, whatever the hash, as long as the noun has at most
      98304 distinct words. */
  lemma JamIsIdeal(c: Config, n: Wnoun, nouns: set<Wnoun>)
    requires Heap(nouns) && n in nouns && WordsTell(c, nouns) && |AllWords(n)| <= CACHE_ADMITTED
    ensures Jam(c, n, Start()).bits == Ideal(c.identity, n, [], map[]).0
  {
    hide Mirror, Jam, Ideal, Heap, WordsTell;
    EmptyMirror(c, nouns);
    JamIdealFrom(c, n, Start(), map[], nouns, AllWords(n));
  }
}
