/** `ska_nock`: scan, cook, cache by formula, run. */
module SkaEngine {
  import opened Nouns
  import opened Nock
  import opened Socks
  import opened Ska
  import opened Nomm1s
  import opened SkaBack
  import opened SkaSound
  import opened SkaScanner

  /** A noun as the machine holds it.  Equal words are the same noun. */
  type Word = bv64

  const ARENA_BYTES: nat := 262144
  const MAX_RETRIES: nat := 8
  const MAX_BLOCK: nat := 64
  const SLOTS: nat := 64

  function Fhash(w: Word): (h: nat)
    ensures h < SLOTS
  {
    var h := w ^ (w >> 32);
    var h := h ^ (h >> 16);
    (h & 63) as nat % SLOTS
  }

  datatype Entry = Empty | Full(fml: Word, tree: Nomm1)

  // ----- The cache by formula -----

  function SlotAt(w: Word, i: nat): (s: nat)
    ensures s < SLOTS
  {
    (Fhash(w) + i) % SLOTS
  }

  /** The first slot of the probe, from its step `i` on, that is empty or the formula's. */
  function Probed(table: seq<Entry>, w: Word, i: nat): (r: Option<nat>)
    requires |table| == SLOTS
    ensures r.Some? ==> r.value < SLOTS && (table[r.value].Full? ==> table[r.value].fml == w)
    decreases SLOTS - i
  {
    if i >= SLOTS then None
    else if table[SlotAt(w, i)].Empty? || table[SlotAt(w, i)].fml == w then Some(SlotAt(w, i))
    else Probed(table, w, i + 1)
  }

  function Cached(table: seq<Entry>, w: Word): Option<Nomm1>
    requires |table| == SLOTS
  {
    var s := Probed(table, w, 0);
    if s.Some? && table[s.value].Full? then Some(table[s.value].tree) else None
  }

  function FirstEmpty(table: seq<Entry>, w: Word, i: nat): (r: Option<nat>)
    requires |table| == SLOTS
    ensures r.Some? ==> r.value < SLOTS && table[r.value].Empty?
    decreases SLOTS - i
  {
    if i >= SLOTS then None
    else if table[SlotAt(w, i)].Empty? then Some(SlotAt(w, i))
    else FirstEmpty(table, w, i + 1)
  }

  function Inserted(table: seq<Entry>, w: Word, t: Nomm1): (after: seq<Entry>)
    requires |table| == SLOTS
    ensures |after| == SLOTS
  {
    var s := FirstEmpty(table, w, 0);
    if s.Some? then table[s.value := Full(w, t)] else table
  }

  /** An insertion after a miss, into a cache with room, is found; and it hides nothing that was
      found before. */
  lemma InsertedIsCached(table: seq<Entry>, w: Word, t: Nomm1, x: Word)
    requires |table| == SLOTS && Cached(table, w).None?
    ensures FirstEmpty(table, w, 0).Some? ==> Cached(Inserted(table, w, t), w) == Some(t)
    ensures Cached(table, x).Some? ==> Cached(Inserted(table, w, t), x) == Cached(table, x)
  {
    hide Probed, FirstEmpty, SlotAt;
    var s := FirstEmpty(table, w, 0);
    if s.Some? {
      ProbeStops(table, w, t, s.value, 0);
      if Cached(table, x).Some? {
        ProbePasses(table, w, t, s.value, x, 0);
      }
    }
  }

  lemma {:induction false} ProbeStops(table: seq<Entry>, w: Word, t: Nomm1, s: nat, i: nat)
    requires |table| == SLOTS && FirstEmpty(table, w, i) == Some(s)
    requires var p := Probed(table, w, i); p.None? || table[p.value].Empty?
    ensures Probed(table[s := Full(w, t)], w, i) == Some(s)
    decreases SLOTS - i
  {
    if !table[SlotAt(w, i)].Empty? {
      ProbeStops(table, w, t, s, i + 1);
    }
  }

  lemma {:induction false} ProbePasses(table: seq<Entry>, w: Word, t: Nomm1, s: nat, x: Word, i: nat)
    requires |table| == SLOTS && s < SLOTS && table[s].Empty?
    requires var p := Probed(table, x, i); p.Some? && table[p.value].Full?
    ensures Probed(table[s := Full(w, t)], x, i) == Probed(table, x, i)
    decreases SLOTS - i
  {
    if table[SlotAt(x, i)].fml != x {
      ProbePasses(table, w, t, s, x, i + 1);
    }
  }

  // ----- Copies into the cache arena -----

  function Weight(t: Nomm1): nat {
    1 + match t
    case M3(p) => Weight(p)
    case M4(p) => Weight(p)
    case M5(p, q) => Weight(p) + Weight(q)
    case M6(c, y, n) => Weight(c) + Weight(y) + Weight(n)
    case M7(p, q) => Weight(p) + Weight(q)
    case M8(p, q) => Weight(p) + Weight(q)
    case M10(_, p, q) => Weight(p) + Weight(q)
    case M11(_, m) => Weight(m)
    case M11Clue(_, p, m) => Weight(p) + Weight(m)
    case M12(p, q) => Weight(p) + Weight(q)
    case MDist(p, q) => Weight(p) + Weight(q)
    case M2(p, q, _, _) => Weight(p) + Weight(q)
    case _ => 0
  }

  /** Trees lighter than `bound`. */
  predicate Lighter(ks: seq<Nomm1>, bound: nat) {
    forall j :: 0 <= j < |ks| ==> Weight(ks[j]) < bound
  }

  function Kids(t: Nomm1): (ts: seq<Nomm1>)
    ensures Lighter(ts, Weight(t))
  {
    match t
    case M3(p) => [p]
    case M4(p) => [p]
    case M5(p, q) => [p, q]
    case M6(c, y, n) => [c, y, n]
    case M7(p, q) => [p, q]
    case M8(p, q) => [p, q]
    case M10(_, p, q) => [p, q]
    case M11(_, m) => [m]
    case M11Clue(_, p, m) => [p, m]
    case M12(p, q) => [p, q]
    case MDist(p, q) => [p, q]
    case M2(p, q, _, _) => [p, q]
    case _ => []
  }

  /** The node `t` with other children. */
  function Rebuild(t: Nomm1, ks: seq<Nomm1>): Nomm1
    requires |ks| == |Kids(t)|
  {
    match t
    case M3(_) => M3(ks[0])
    case M4(_) => M4(ks[0])
    case M5(_, _) => M5(ks[0], ks[1])
    case M6(_, _, _) => M6(ks[0], ks[1], ks[2])
    case M7(_, _) => M7(ks[0], ks[1])
    case M8(_, _) => M8(ks[0], ks[1])
    case M10(ax, _, _) => M10(ax, ks[0], ks[1])
    case M11(tag, _) => M11(tag, ks[0])
    case M11Clue(tag, _, _) => M11Clue(tag, ks[0], ks[1])
    case M12(_, _) => M12(ks[0], ks[1])
    case MDist(_, _) => MDist(ks[0], ks[1])
    case M2(_, _, arm, bell) => M2(ks[0], ks[1], arm, bell)
    case _ => t
  }

  /** `nomm1_copy` with `left` bytes of cache arena: as in cooking, what does not fit is a null
      pointer inside a tree that is otherwise there. */
  function CopyIn(t: Nomm1, left: nat): (r: (Nomm1, nat))
    ensures r.1 <= left
    decreases Weight(t), 1, 0
  {
    if t.Null? || left < NOMM1_BYTES then (Null, left) else
    var (ks, left) := CopyAll(Kids(t), Weight(t), left - NOMM1_BYTES);
    (Rebuild(t, ks), left)
  }

  function CopyAll(ks: seq<Nomm1>, bound: nat, left: nat): (r: (seq<Nomm1>, nat))
    requires Lighter(ks, bound)
    ensures |r.0| == |ks| && r.1 <= left
    decreases bound, 0, |ks|
  {
    if ks == [] then ([], left) else
    var (k, left) := CopyIn(ks[0], left);
    var (rest, left) := CopyAll(ks[1..], bound, left);
    ([k] + rest, left)
  }

  function Size(t: Nomm1): nat
    decreases Weight(t), 1, 0
  {
    if t.Null? then 0 else NOMM1_BYTES + SizeAll(Kids(t), Weight(t))
  }

  function SizeAll(ks: seq<Nomm1>, bound: nat): nat
    requires Lighter(ks, bound)
    decreases bound, 0, |ks|
  {
    if ks == [] then 0 else Size(ks[0]) + SizeAll(ks[1..], bound)
  }

  lemma RebuildSame(t: Nomm1, ks: seq<Nomm1>)
    requires |ks| == |Kids(t)|
    ensures Rebuild(t, ks) == t <==> ks == Kids(t)
  {
  }

  /** The copy is the tree exactly when the cache arena holds it. */
  lemma {:induction false} CopyFits(t: Nomm1, left: nat)
    ensures CopyIn(t, left).0 == t <==> Size(t) <= left
    ensures Size(t) <= left ==> CopyIn(t, left).1 == left - Size(t)
    decreases Weight(t), 1, 0
  {
    if !t.Null? && left >= NOMM1_BYTES {
      CopyAllFits(Kids(t), Weight(t), left - NOMM1_BYTES);
      RebuildSame(t, CopyAll(Kids(t), Weight(t), left - NOMM1_BYTES).0);
    }
  }

  lemma CopyRoot(t: Nomm1, left: nat)
    ensures CopyIn(t, left).0.Null? <==> t.Null? || left < NOMM1_BYTES
  {
  }

  lemma {:induction false} CopyAllFits(ks: seq<Nomm1>, bound: nat, left: nat)
    requires Lighter(ks, bound)
    ensures CopyAll(ks, bound, left).0 == ks <==> SizeAll(ks, bound) <= left
    ensures SizeAll(ks, bound) <= left ==> CopyAll(ks, bound, left).1 == left - SizeAll(ks, bound)
    decreases bound, 0, |ks|
  {
    if ks != [] {
      CopyFits(ks[0], left);
      var (k, left') := CopyIn(ks[0], left);
      CopyAllFits(ks[1..], bound, left');
      var rest := CopyAll(ks[1..], bound, left').0;
      assert ([k] + rest)[0] == k && ([k] + rest)[1..] == rest;
      assert ks == [ks[0]] + ks[1..];
    }
  }

  // ----- The engine -----

  /** Code that answers whatever Nock answers, on any subject, and nothing else unless it strays. */
  ghost predicate CompilesTo(t: Nomm1, f: Noun) {
    forall n: Noun, r: Noun :: (Returns(n, f, r) ==> RunReturns(t, n, r)) && (RunReturns(t, n, r) ==> Back(t, f, n, r))
  }

  /** Code that leaves nothing out answers exactly what Nock answers. */
  lemma WholeIsNock(t: Nomm1, f: Noun, n: Noun, r: Noun)
    requires CompilesTo(t, f) && Whole(t, f)
    ensures RunReturns(t, n, r) <==> Returns(n, f, r)
  {
    WholeNeverStrays(t, f, n);
    hide RunReturns, Returns, Strays, Whole;
  }

  /** An outcome with `n` ticks that no budget turns into a wrong answer, and that answers only what
      Nock answers unless the code that gave it strayed; no code is the plain evaluator. */
  ghost predicate Faithful(o: Outcome<Noun>, s: Noun, f: Noun, n: nat, code: Option<Nomm1>) {
    && (forall r: Noun :: Returns(s, f, r) ==> exists c: nat :: AnswerAt(o, r, n, c))
    && (o.Done? ==> Returns(s, f, o.val) || (code.Some? && Strays(code.value, f, s)))
  }

  /** The outcome with `n` ticks of a computation that answers `r` after `c`. */
  predicate AnswerAt(o: Outcome<Noun>, r: Noun, n: nat, c: nat) {
    o == if n < c then Abort else Done(r, n - c)
  }

  lemma EvalFaithful(s: Noun, f: Noun, n: nat)
    ensures Faithful(Eval(s, f, n), s, f, n, None)
  {
    hide Eval;
    if Eval(s, f, n).Done? {
      Returned(s, f, n);
    }
    forall r: Noun | Returns(s, f, r)
      ensures exists c: nat :: AnswerAt(Eval(s, f, n), r, n, c)
    {
      var c := Cost(s, f, r);
      assert AnswerAt(Eval(s, f, n), r, n, c);
    }
  }

  lemma RunFaithful(t: Nomm1, s: Noun, f: Noun, n: nat)
    requires CompilesTo(t, f)
    ensures Faithful(Run(t, s, n), s, f, n, Some(t))
  {
    hide Run, Strays;
    if Run(t, s, n).Done? {
      RunReturned(t, s, n);
      assert Back(t, f, s, Run(t, s, n).val);
    }
    forall r: Noun | Returns(s, f, r)
      ensures exists c: nat :: AnswerAt(Run(t, s, n), r, n, c)
    {
      var c := RunCost(t, s, r);
      assert AnswerAt(Run(t, s, n), r, n, c);
    }
  }

  /** The tree of a whole formula is good for every subject, not only for the one it was scanned
      with: nothing about that subject is taken as known.  With the memo test turned round this
      holds of every scan; as the test is written, of every scan that no memo misled. */
  lemma ScannedForAll(turned: bool, st: Pass, s: Noun, f: Noun)
    requires st.memo == [] && !st.misled
    requires var (t, st') := Scan(turned, st, Sock(Wild, s), f); t.Some? && (turned || !st'.misled)
    ensures CompilesTo(Cook(Scan(turned, st, Sock(Wild, s), f).0.value), f)
  {
    ScanSound(turned, st, Sock(Wild, s), f);
    var t := Scan(turned, st, Sock(Wild, s), f).0.value;
    hide Scan, RunReturns, Returns, Back;
    forall n: Noun, r: Noun
      ensures Returns(n, f, r) ==> RunReturns(Cook(t), n, r)
      ensures RunReturns(Cook(t), n, r) ==> Back(Cook(t), f, n, r)
    {
      assert Covers(Sock(Wild, s), n);
    }
  }

  lemma FrondsHoldNext(fronds: seq<Frond>, j: nat)
    requires j < |fronds|
    ensures FrondsHold(fronds[..j + 1]) <==> FrondsHold(fronds[..j]) && SockHuge(fronds[j].parSub, fronds[j].kidSub)
  {
    assert fronds[..j + 1] == fronds[..j] + [fronds[j]];
  }

  /** The state every attempt starts from; only the block list survives between attempts. */
  function StartPass(block: seq<(nat, nat)>): Pass {
    Pass(ARENA_BYTES, [], 0, [], [], block, false)
  }

  /** The first attempt is the last: no loop assumption a scan records ever fails its check. */
  lemma NeverRetries(block: seq<(nat, nat)>, sub: Sock, f: Noun)
    ensures FrondsHold(Scan(false, StartPass(block), sub, f).1.fronds)
  {
    hide Scan;
    assert FrondsHold(StartPass(block).fronds);
  }

  /** No memo misleads the scan of `f`, and both arenas hold what they are asked to hold (a
      cache arena without room for a single node just skips the caching). */
  ghost predicate Undisturbed(s: Noun, f: Noun, block: seq<(nat, nat)>, copyLeft: nat) {
    var (t, st) := Scan(false, StartPass(block), Sock(Wild, s), f);
    t.Some? ==>
      && !st.misled
      && NOMM1_BYTES * Nodes(t.value) <= st.arena
      && (Size(Cook(t.value)) <= copyLeft || copyLeft < NOMM1_BYTES)
  }

  /** The code is in the cache now, if there was room for a copy of it. */
  predicate CachedAfter(before: seq<Entry>, after: seq<Entry>, w: Word, t: Nomm1, left: nat)
    requires |before| == SLOTS
  {
    after == if left < NOMM1_BYTES then before else Inserted(before, w, t)
  }

  /** Code cached for a word that comes to name another formula answers wrongly: here the code of
      `[1 7]`, met under a word that now names `[1 9]`. */
  lemma StaleEntry(s: Noun)
    ensures var (seven, nine) := (Cell(Atom(1), Atom(7)), Cell(Atom(1), Atom(9)));
            CompilesTo(M1(Atom(7)), seven) && !CompilesTo(M1(Atom(7)), nine) && Returns(s, nine, Atom(9)) && RunReturns(M1(Atom(7)), s, Atom(7))
  {
    var (seven, nine, t) := (Cell(Atom(1), Atom(7)), Cell(Atom(1), Atom(9)), M1(Atom(7)));
    forall n: Noun, r: Noun
      ensures (Returns(n, seven, r) ==> RunReturns(t, n, r)) && (RunReturns(t, n, r) ==> Back(t, seven, n, r))
    {
      Answered(n, seven, [], Atom(7));
      RunNode(t, n, [], Atom(7));
      if Returns(n, seven, r) {
        ReturnsOnce(n, seven, r, Atom(7));
      }
      if RunReturns(t, n, r) {
        RunReturnsOnce(t, n, r, Atom(7));
      }
    }
    Answered(s, nine, [], Atom(9));
    RunNode(t, s, [], Atom(7));
    if CompilesTo(t, nine) {
      RunReturnsOnce(t, s, Atom(7), Atom(9));
    }
  }

  class Engine {
    // what the words name; a cell's word may come to name another noun when its heap is reused
    var nounOf: Word -> Noun
    const cacheBytes: nat
    const scanner: Scanner
    const table: array<Entry>
    var copyLeft: nat
    // No arena has given out and no memo has misled a scan since the cache was cleared.
    ghost var intact: bool

    ghost predicate Valid()
      reads this, table
    {
      table.Length == SLOTS &&
      (intact ==> forall s :: 0 <= s < SLOTS && table[s].Full? ==> CompilesTo(table[s].tree, nounOf(table[s].fml)))
    }

    constructor (nounOf: Word -> Noun, copyBytes: nat)
      ensures Valid() && fresh(table) && fresh(scanner) && intact && this.nounOf == nounOf && copyLeft == cacheBytes == copyBytes
    {
      this.nounOf, cacheBytes := nounOf, copyBytes;
      scanner := new Scanner();
      table := new Entry[SLOTS](_ => Empty);
      copyLeft, intact := copyBytes, true;
    }

    /** `ska_cache_clear`: after it nothing stale is left, whatever the words name now. */
    method CacheClear()
      requires table.Length == SLOTS
      modifies `copyLeft, `intact, table
      ensures Valid() && intact && copyLeft == cacheBytes && forall s :: 0 <= s < SLOTS ==> table[s].Empty?
    {
      copyLeft := cacheBytes;
      for i := 0 to SLOTS
        invariant copyLeft == cacheBytes && forall s :: 0 <= s < i ==> table[s].Empty?
      {
        table[i] := Empty;
      }
      intact := true;
    }

    /** The heap is reset or flipped, and words come to name other nouns.  The cache stays right if
        every cached formula's word still names what it named; otherwise it must be cleared. */
    method Rename(names: Word -> Noun)
      requires Valid()
      modifies `nounOf, `intact
      ensures Valid() && nounOf == names
      ensures intact <==> old(intact) && forall s :: 0 <= s < SLOTS && table[s].Full? ==> names(table[s].fml) == old(nounOf)(table[s].fml)
    {
      intact := intact && forall s :: 0 <= s < SLOTS && table[s].Full? ==> names(table[s].fml) == nounOf(table[s].fml);
      nounOf := names;
    }

    method Lookup(w: Word) returns (r: Option<Nomm1>)
      requires Valid()
      ensures r == Cached(table[..], w)
    {
      for i := 0 to SLOTS
        invariant Probed(table[..], w, 0) == Probed(table[..], w, i)
      {
        var s := SlotAt(w, i);
        if table[s].Empty? { return None; }
        if table[s].fml == w { return Some(table[s].tree); }
      }
      return None;
    }

    /** A full cache drops the entry. */
    method Insert(w: Word, t: Nomm1)
      requires Valid() && (intact ==> CompilesTo(t, nounOf(w)))
      modifies table
      ensures Valid() && table[..] == Inserted(old(table[..]), w, t)
    {
      for i := 0 to SLOTS
        invariant table[..] == old(table[..]) && FirstEmpty(table[..], w, 0) == FirstEmpty(table[..], w, i)
      {
        var s := SlotAt(w, i);
        if table[s].Empty? {
          table[s] := Full(w, t);
          return;
        }
      }
    }

    /** Put each loop assumption of the scan to its test again; a failure is blocked. */
    method CheckFronds() returns (redo: bool)
      modifies scanner`block
      ensures redo == !FrondsHold(scanner.fronds)
      ensures !redo ==> scanner.block == old(scanner.block)
    {
      redo := false;
      for j := 0 to |scanner.fronds|
        invariant redo == !FrondsHold(scanner.fronds[..j])
        invariant !redo ==> scanner.block == old(scanner.block)
      {
        var f := scanner.fronds[j];
        FrondsHoldNext(scanner.fronds, j);
        if !SockHuge(f.parSub, f.kidSub) {
          if |scanner.block| < MAX_BLOCK {
            scanner.block := scanner.block + [(f.par, f.kid)];
          }
          redo := true;
        }
      }
      assert scanner.fronds[..|scanner.fronds|] == scanner.fronds;
    }

    /** Answer as Nock answers: from the cache, or by a scan whose code is cached, or by plain
        evaluation.  When not even the root of the cooked tree fits, the source interprets the
        scanned tree instead; that outcome is the parameter `uncooked`. */
    method SkaNock(subject: Noun, w: Word, n: nat, uncooked: Outcome<Noun>) returns (o: Outcome<Noun>, ghost code: Option<Nomm1>)
      requires Valid()
      modifies this`copyLeft, this`intact, table, scanner
      ensures Valid() && (intact ==> old(intact))
      ensures intact ==> Faithful(o, subject, nounOf(w), n, code)
      ensures intact && code.Some? ==> CompilesTo(code.value, nounOf(w))
      ensures intact ==> o == if code.Some? then Run(code.value, subject, n) else Eval(subject, nounOf(w), n)
      ensures old(Cached(table[..], w)).Some? ==> code == old(Cached(table[..], w)) && table[..] == old(table[..])
      ensures var (t, st) := Scan(false, StartPass([]), Sock(Wild, subject), nounOf(w));
              old(Cached(table[..], w)).None? && FrondsHold(st.fronds) ==>
                && (t.None? ==> code.None? && table[..] == old(table[..]))
                && (t.Some? && intact ==> code == Some(Cook(t.value)) && CachedAfter(old(table[..]), table[..], w, code.value, old(copyLeft)))
      ensures old(intact) && (forall block :: Undisturbed(subject, nounOf(w), block, old(copyLeft))) ==> intact
    {
      hide FrondsHold, SockHuge, Eval, Run, Scan;
      var formula := nounOf(w);
      var cached := Lookup(w);
      if cached.Some? {
        if intact { RunFaithful(cached.value, subject, formula, n); }
        return Run(cached.value, subject, n), cached;
      }
      EvalFaithful(subject, formula, n);
      scanner.block := [];
      for attempt := 0 to MAX_RETRIES + 1
        invariant Valid() && intact == old(intact) && copyLeft == old(copyLeft) && table[..] == old(table[..])
        invariant if attempt == 0 then scanner.block == [] else
                  !FrondsHold(Scan(false, StartPass([]), Sock(Wild, subject), formula).1.fronds)
      {
        scanner.Reset(ARENA_BYTES);
        ghost var st := scanner.State();
        var nomm := scanner.ScanFormula(Sock(Wild, subject), formula);
        if nomm.None? {
          return Eval(subject, formula, n), None;
        }
        var redo := CheckFronds();
        if !redo {
          o, code := Finish(subject, w, nomm.value, st, n, uncooked);
          return;
        }
      }
      return Eval(subject, formula, n), None;
    }

    /** Cook, cache a copy, run. */
    method Finish(subject: Noun, w: Word, nomm: Nomm, ghost st: Pass, n: nat, uncooked: Outcome<Noun>)
      returns (o: Outcome<Noun>, ghost code: Option<Nomm1>)
      requires Valid() && st == StartPass(st.block)
      requires var r := Scan(false, st, Sock(Wild, subject), nounOf(w));
               r.0 == Some(nomm) && r.1.misled == scanner.misled && r.1.arena == scanner.arena
      modifies this`copyLeft, this`intact, table, scanner`arena
      ensures Valid() && (intact ==> old(intact))
      ensures intact ==> Faithful(o, subject, nounOf(w), n, code)
      ensures intact && code.Some? ==> CompilesTo(code.value, nounOf(w))
      ensures intact ==> code.Some? && code == Some(Cook(nomm)) && o == Run(code.value, subject, n)
                         && CachedAfter(old(table[..]), table[..], w, code.value, old(copyLeft))
      ensures old(intact) && Undisturbed(subject, nounOf(w), st.block, old(copyLeft)) ==> intact
    {
      hide FrondsHold, SockHuge, Eval, Run, Scan, Cook, CookIn, CopyIn, Nodes, Size;
      CookFits(nomm, scanner.arena);
      var (tree, left) := CookIn(nomm, scanner.arena);
      scanner.arena := left;
      if tree.Null? {
        intact := false;
        return uncooked, None;
      }
      var (copy, rest) := CopyIn(tree, copyLeft);
      CopyFits(tree, copyLeft);
      CopyRoot(tree, copyLeft);
      copyLeft := rest;
      intact := intact && !scanner.misled && tree == Cook(nomm) && (copy == tree || copy.Null?);
      if intact {
        ScannedForAll(false, st, subject, nounOf(w));
        RunFaithful(tree, subject, nounOf(w), n);
      }
      if !copy.Null? {
        Insert(w, copy);
      }
      return Run(tree, subject, n), Some(tree);
    }
  }
}
