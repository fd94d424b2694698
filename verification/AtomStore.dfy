/** The interning atom store of src/noun.c, with its transactions. */
module AtomStore {
  import opened Nouns
  import opened Arith
  import opened Limbs
  import opened Probe

  const SLOTS: nat := 65536
  const DIRECT: nat := 0x8000_0000_0000_0000

  /** A noun word that is an atom: the value itself, or the 62-bit hash of a stored atom. */
  datatype Word = Direct(v: nat) | Indirect(hash: nat)

  /** A stored atom: its limbs, and the 256-bit hash kept beside them. */
  datatype Stored = Stored(limbs: seq<Limb>, digest: nat)

  /** BLAKE3 of the canonical bytes of a limb string, whole and cut to 62 bits; nothing is assumed
      of it. */
  datatype Hasher = Hasher(full: seq<Limb> -> nat, short: seq<Limb> -> nat)

  /** The limbs without zeros on top, at least one. */
  function Trimmed(s: seq<Limb>): (t: seq<Limb>)
    requires |s| > 0
    ensures 0 < |t| <= |s| && Val(t) == Val(s) && (|t| > 1 ==> t[|t| - 1] != 0)
    decreases |s|
  {
    if |s| > 1 && s[|s| - 1] == 0 then
      assert s == s[..|s| - 1] + [0];
      ValSnoc(s[..|s| - 1], 0);
      Trimmed(s[..|s| - 1])
    else s
  }

  /** The word of a value: its own, or the name of its limbs. */
  function WordOf(h: Hasher, v: nat): Word {
    if v < DIRECT then Direct(v) else Indirect(h.short(ToLimbs(v)))
  }

  /** Trimmed limbs are the limbs of their value. */
  lemma TrimmedAre(s: seq<Limb>)
    requires |s| > 0 && (|s| > 1 ==> s[|s| - 1] != 0)
    ensures ToLimbs(Val(s)) == s
  {
    var t := ToLimbs(Val(s));
    SameCount(s, t);
    ValInjective(s, t);
  }

  lemma SameCount(s: seq<Limb>, t: seq<Limb>)
    requires |s| > 0 && (|s| > 1 ==> s[|s| - 1] != 0) && |t| > 0 && (|t| > 1 ==> t[|t| - 1] != 0) && Val(s) == Val(t)
    ensures |s| == |t|
  {
    if |s| < |t| {
      Longer(s, t);
    } else if |t| < |s| {
      Longer(t, s);
    }
  }

  lemma Longer(s: seq<Limb>, t: seq<Limb>)
    requires |s| < |t| && t[|t| - 1] != 0
    ensures Val(s) < Val(t)
  {
    hide Val, BPow;
    var k := |t| - 1;
    ValBound(s);
    BPowMonotone(|s|, k);
    assert t == t[..k] + [t[k]];
    ValSnoc(t[..k], t[k]);
    MulLe(1, t[k], BPow(k));
  }

  // ----- The index -----

  function ShapeOf(): Shape {
    Shape(k => k, SLOTS, SLOTS)
  }

  /** Every stored atom is canonical, does not fit a direct word, and is filed under its own hash. */
  predicate Filed(h: Hasher, m: map<nat, Stored>) {
    forall k :: k in m ==> && |m[k].limbs| > 0 && m[k].limbs == ToLimbs(Val(m[k].limbs)) && Val(m[k].limbs) >= DIRECT
                           && k == h.short(m[k].limbs) && m[k].digest == h.full(m[k].limbs)
  }

  /** What a word means: no meaning for a hash that is not in the store. */
  function Meaning(m: map<nat, Stored>, w: Word): Option<nat> {
    match w
    case Direct(v) => Some(v)
    case Indirect(k) => if k in m then Some(Val(m[k].limbs)) else None
  }

  /** A word that the program holds: direct ones are below 2^63, and indirect ones are stored. */
  predicate Live(m: map<nat, Stored>, w: Word) {
    match w
    case Direct(v) => v < DIRECT
    case Indirect(k) => k in m
  }

  // ----- What making an atom comes to -----

  /** What the store holds, the bytes used, and the slots logged. */
  datatype Ledger = Ledger(atoms: map<nat, Stored>, used: nat, logged: nat)

  /** What stays the same while atoms are made: the hashes, the room, whether allocation is shut
      off, and whether a transaction is live. */
  datatype Terms = Terms(hasher: Hasher, capacity: nat, noalloc: bool, live: bool)

  /** The store after an atom of this value is made; no answer is the refusal: another atom has its
      name, or there is no place for it. */
  function Made(t: Terms, l: Ledger, v: nat): Option<Ledger> {
    if v < DIRECT then Some(l) else
    var s := ToLimbs(v);
    var k := t.hasher.short(s);
    if k in l.atoms then
      if l.atoms[k].limbs == s then Some(l) else None
    else if t.noalloc || |l.atoms| >= SLOTS || l.used + AtomBytes(|s|) > t.capacity || (t.live && l.logged >= SLOTS) then None
    else Some(Ledger(l.atoms[k := Stored(s, t.hasher.full(s))], l.used + AtomBytes(|s|), if t.live then l.logged + 1 else l.logged))
  }

  /** Making an atom gives its word a meaning and leaves every other word its own. */
  lemma MadeMeans(t: Terms, l: Ledger, v: nat, w: Word)
    requires Filed(t.hasher, l.atoms) && Made(t, l, v).Some?
    ensures var more := Made(t, l, v).value.atoms;
            && Filed(t.hasher, more) && Live(more, WordOf(t.hasher, v)) && Meaning(more, WordOf(t.hasher, v)) == Some(v)
            && (Live(l.atoms, w) ==> Live(more, w) && Meaning(more, w) == Meaning(l.atoms, w))
  {
    hide Val;
    var s := ToLimbs(v);
    if v >= DIRECT && t.hasher.short(s) !in l.atoms {
      FiledMore(t.hasher, l.atoms, t.hasher.short(s), Stored(s, t.hasher.full(s)));
    }
  }

  /** An atom is refused exactly when its word already means another value, or when it means none yet
      and there is no place for it; and a place is used exactly for a value that had none. */
  lemma RefusedExactly(t: Terms, l: Ledger, v: nat)
    requires Filed(t.hasher, l.atoms)
    ensures var meant := Meaning(l.atoms, WordOf(t.hasher, v)); var bytes := AtomBytes(|ToLimbs(v)|);
            var room := !t.noalloc && |l.atoms| < SLOTS && l.used + bytes <= t.capacity && (t.live ==> l.logged < SLOTS);
            && (Made(t, l, v).None? <==> (meant.Some? && meant.value != v) || (meant.None? && !room))
            && (Made(t, l, v).Some? ==>
                  var m := Made(t, l, v).value;
                  m.used == l.used + (if meant.None? then bytes else 0) && |m.atoms| == |l.atoms| + (if meant.None? then 1 else 0))
  {
  }

  /** Two words are equal exactly when their values are. */
  lemma WordsAreValues(h: Hasher, m: map<nat, Stored>, x: Word, y: Word)
    requires Filed(h, m) && Live(m, x) && Live(m, y)
    ensures x == y <==> Meaning(m, x) == Meaning(m, y)
    ensures Meaning(m, x).Some? && x == WordOf(h, Meaning(m, x).value)
  {
  }

  /** The logged slots are what has changed since the transaction began, and were vacant then. */
  ghost predicate Undoable(slots: seq<Entry<Stored>>, before: seq<Entry<Stored>>, log: seq<nat>) {
    && |slots| == |before|
    && (forall i :: 0 <= i < |log| ==> log[i] < |slots| && before[log[i]].Vacant? && slots[log[i]].Full?)
    && (forall s :: 0 <= s < |slots| && s !in log ==> slots[s] == before[s])
  }

  lemma UndoMore(slots: seq<Entry<Stored>>, before: seq<Entry<Stored>>, log: seq<nat>, s: nat, e: Entry<Stored>)
    requires Undoable(slots, before, log) && s < |slots| && slots[s].Vacant? && e.Full?
    ensures Undoable(slots[s := e], before, log + [s])
  {
    assert s !in log;
  }

  class Store {
    const hasher: Hasher
    const slots: array<Entry<Stored>>
    const capacity: nat
    var used: nat
    var occupancy: nat
    // `heap_noalloc`, which the cell heaps obey as well
    var noalloc: bool
    // the transaction: whether one is live, the bump mark, and the slots it has filled
    var live: bool
    var mark: nat
    const logged: array<nat>
    var count: nat
    ghost var contents: map<nat, Stored>
    // the index as it was when the transaction began
    ghost var before: seq<Entry<Stored>>
    ghost var contentsBefore: map<nat, Stored>

    /** The index stands for the map of stored atoms; a live transaction can take it back. */
    ghost predicate Valid()
      reads this, slots, logged
    {
      && slots.Length == SLOTS && logged.Length == SLOTS
      && Represents(ShapeOf(), slots[..], contents) && Filed(hasher, contents)
      && used <= capacity
      && (live ==>
            && Represents(ShapeOf(), before, contentsBefore) && Filed(hasher, contentsBefore)
            && count <= SLOTS && mark <= used && Undoable(slots[..], before, logged[..count])
            && (forall k :: k in contentsBefore ==> k in contents && contents[k] == contentsBefore[k]))
    }

    /** `atom_store_init`. */
    constructor (hasher: Hasher, capacity: nat)
      ensures Valid() && contents == map[] && !live && this.hasher == hasher && fresh(slots) && fresh(logged)
    {
      this.hasher, this.capacity := hasher, capacity;
      slots := new Entry<Stored>[SLOTS](_ => Vacant);
      logged := new nat[SLOTS];
      used, occupancy, noalloc, live, mark, count := 0, 0, false, false, 0, 0;
      contents, contentsBefore, before := map[], map[], [];
    }

    /** `atom_store_get`. */
    method Get(k: nat) returns (r: Option<Stored>)
      requires Valid()
      ensures r == if k in contents then Some(contents[k]) else None
    {
      hide Represents, Filed;
      ghost var p := ShapeOf();
      GetIs(p, slots[..], contents, k);
      var i := 0;
      while i < SLOTS
        invariant 0 <= i <= SLOTS && Find(p, slots[..], k, 0) == Find(p, slots[..], k, i)
      {
        var at := (k + i) % SLOTS;
        assert at == At(p, k, i);
        hide At;
        if slots[at].Vacant? {
          return None;
        }
        if slots[at].key == k {
          return Some(slots[at].val);
        }
        i := i + 1;
      }
      return None;
    }

    ghost function TheTerms(): Terms
      reads this
    {
      Terms(hasher, capacity, noalloc, live)
    }

    ghost function Books(): Ledger
      reads this
    {
      Ledger(contents, used, count)
    }

    /** `make_atom_checked`: the word of the value, or a refusal when another atom has its name or
        there is no place for it. */
    method MakeAtom(limbs: seq<Limb>) returns (w: Option<Word>)
      requires Valid()
      modifies `used, `occupancy, `count, `contents, slots, logged
      ensures Valid() && TheTerms() == old(TheTerms())
      ensures var made := if |limbs| == 0 then None else Made(TheTerms(), old(Books()), Val(limbs));
              if made.None? then w == None && Books() == old(Books()) && slots[..] == old(slots[..])
              else w == Some(WordOf(hasher, Val(limbs))) && Books() == made.value
      ensures w.Some? ==> Live(contents, w.value) && Meaning(contents, w.value) == Some(Val(limbs))
      ensures forall k :: k in old(contents) ==> k in contents && contents[k] == old(contents[k])
    {
      hide Represents, Val, ToLimbs, Filed;
      if |limbs| == 0 {
        return None;
      }
      var t := Trimmed(limbs);
      TrimmedAre(t);
      SmallIs(t);
      if |t| == 1 && t[0] < DIRECT {
        return Some(Direct(t[0]));
      }
      var (full, k) := (hasher.full(t), hasher.short(t));
      var existing := Get(k);
      if existing.Some? {
        FiledAt(hasher, contents, k);
        if existing.value.limbs != t || existing.value.digest != full {
          return None;
        }
        return Some(Indirect(k));
      }
      var ok := Insert(k, Stored(t, full));
      if !ok {
        return None;
      }
      return Some(Indirect(k));
    }

    /** The tail of `make_atom_checked`: a vacant slot, room for the atom, and the log entry. */
    method Insert(k: nat, a: Stored) returns (ok: bool)
      requires Valid() && k !in contents
      requires |a.limbs| > 0 && a.limbs == ToLimbs(Val(a.limbs)) && Val(a.limbs) >= DIRECT
      requires k == hasher.short(a.limbs) && a.digest == hasher.full(a.limbs)
      modifies `used, `occupancy, `count, `contents, slots, logged
      ensures Valid() && TheTerms() == old(TheTerms())
      ensures ok <==> !(noalloc || |old(contents)| >= SLOTS || old(used) + AtomBytes(|a.limbs|) > capacity || (live && old(count) >= SLOTS))
      ensures Books() == if !ok then old(Books())
                         else Ledger(old(contents)[k := a], old(used) + AtomBytes(|a.limbs|), if live then old(count) + 1 else old(count))
      ensures !ok ==> slots[..] == old(slots[..])
    {
      hide Represents, Val, ToLimbs, Filed, Undoable, At;
      var vacant := FindVacant(k);
      if vacant.None? {
        FullIs(ShapeOf(), slots[..], contents, k);
        return false;
      }
      VacantIs(ShapeOf(), slots[..], contents, vacant.value);
      if noalloc || used + AtomBytes(|a.limbs|) > capacity {
        return false;
      }
      if live && count >= SLOTS {
        return false;
      }
      var at := vacant.value;
      PutIs(ShapeOf(), slots[..], contents, k, a);
      FiledMore(hasher, contents, k, a);
      if live {
        UndoMore(slots[..], before, logged[..count], at, Full(k, a));
        logged[count] := at;
        assert logged[..count + 1] == logged[..count] + [at];
        count := count + 1;
      }
      used := used + AtomBytes(|a.limbs|);
      slots[at] := Full(k, a);
      contents := contents[k := a];
      occupancy := occupancy + 1;
      return true;
    }

    /** The search for a vacant slot of a hash that is not in the index. */
    method FindVacant(k: nat) returns (r: Option<nat>)
      requires Valid() && k !in contents
      ensures var f := Find(ShapeOf(), slots[..], k, 0);
              if f.None? then r == None else r == Some(At(ShapeOf(), k, f.value)) && slots[r.value].Vacant?
    {
      hide Represents, Filed, Undoable;
      ghost var p := ShapeOf();
      GetIs(p, slots[..], contents, k);
      var i := 0;
      while i < SLOTS
        invariant 0 <= i <= SLOTS && Find(p, slots[..], k, 0) == Find(p, slots[..], k, i)
      {
        var at := (k + i) % SLOTS;
        assert at == At(p, k, i);
        hide At;
        if slots[at].Vacant? {
          return Some(at);
        }
        i := i + 1;
      }
      return None;
    }

    /** `noun_tx_begin`, for the atom store. */
    method Begin() returns (ok: bool)
      requires Valid()
      modifies `live, `mark, `count, `before, `contentsBefore
      ensures Valid() && ok == !old(live) && live
      ensures ok ==> before == slots[..] && contentsBefore == contents && mark == used && count == 0
      ensures !ok ==> before == old(before) && contentsBefore == old(contentsBefore) && mark == old(mark) && count == old(count)
    {
      hide Represents, Filed;
      if live {
        return false;
      }
      live, mark, count := true, used, 0;
      before, contentsBefore := slots[..], contents;
      return true;
    }

    /** `noun_tx_commit`. */
    method Commit()
      requires Valid()
      modifies `live, `count
      ensures Valid() && !live
    {
      live, count := false, 0;
    }

    /** `noun_tx_abort`: the index is, slot for slot, what it was at the beginning, so every lookup
        answers as it did then. */
    method Abort()
      requires Valid()
      modifies `used, `occupancy, `live, `count, `contents, slots
      ensures Valid() && !live
      ensures old(live) ==> slots[..] == before && contents == contentsBefore && used == mark
      ensures !old(live) ==> slots[..] == old(slots[..]) && contents == old(contents) && used == old(used)
    {
      hide Represents, Filed;
      if !live {
        return;
      }
      UndoAll();
      contents := contentsBefore;
      used, live, count := mark, false, 0;
    }

    /** The loop of `noun_tx_abort`. */
    method UndoAll()
      requires slots.Length == SLOTS && logged.Length == SLOTS && count <= SLOTS && Undoable(slots[..], before, logged[..count])
      modifies `occupancy, slots
      ensures slots[..] == before
    {
      ghost var log := logged[..count];
      var i := 0;
      while i < count
        invariant 0 <= i <= count && slots.Length == SLOTS
        invariant forall s :: 0 <= s < SLOTS && s !in log[i..] ==> slots[s] == before[s]
      {
        var at := logged[i];
        assert at == log[i] && log[i..] == [at] + log[i + 1..];
        slots[at] := Vacant;
        if occupancy > 0 {
          occupancy := occupancy - 1;
        }
        i := i + 1;
      }
    }
  }

  function AtomBytes(limbs: nat): nat {
    40 + 8 * limbs
  }

  lemma SmallIs(t: seq<Limb>)
    requires |t| > 0 && (|t| > 1 ==> t[|t| - 1] != 0)
    ensures Val(t) < DIRECT <==> |t| == 1 && t[0] < DIRECT
    ensures |t| == 1 ==> Val(t) == t[0]
  {
    if |t| > 1 {
      Longer(t[..1], t);
      LongIsLarge(t);
    } else {
      assert t[1..] == [];
    }
  }

  lemma LongIsLarge(t: seq<Limb>)
    requires |t| > 1 && t[|t| - 1] != 0
    ensures Val(t) >= B
  {
    hide Val, BPow;
    var k := |t| - 1;
    assert t == t[..k] + [t[k]];
    ValSnoc(t[..k], t[k]);
    BPowMonotone(1, k);
    OneLimb();
    MulLe(1, t[k], BPow(k));
  }

  lemma OneLimb()
    ensures BPow(1) == B
  {
    assert BPow(0) == 1;
  }

  lemma FiledAt(h: Hasher, m: map<nat, Stored>, k: nat)
    requires Filed(h, m) && k in m
    ensures |m[k].limbs| > 0 && m[k].limbs == ToLimbs(Val(m[k].limbs)) && m[k].digest == h.full(m[k].limbs)
  {
  }

  lemma FiledMore(h: Hasher, m: map<nat, Stored>, k: nat, a: Stored)
    requires Filed(h, m) && |a.limbs| > 0 && a.limbs == ToLimbs(Val(a.limbs)) && Val(a.limbs) >= DIRECT
    requires k == h.short(a.limbs) && a.digest == h.full(a.limbs)
    ensures Filed(h, m[k := a])
  {
  }
}
