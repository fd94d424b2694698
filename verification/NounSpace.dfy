/** Noun memory as src/noun.c keeps it: the atom store, the two cell heaps, and a transaction over
    all of them. */
module NounSpaces {
  import opened Nouns
  import opened AtomStore

  /** A noun word: an atom's, or the address of a cell. */
  datatype Ref = AtomRef(w: Word) | CellRef(at: nat)

  datatype Pair = Pair(head: Ref, tail: Ref)

  /** The word stands for the noun, and no cell of it lies in the free room from `lo` to `hi`. */
  predicate Stands(cells: seq<Pair>, m: map<nat, Stored>, r: Ref, n: Noun, lo: nat, hi: nat)
    decreases n
  {
    match n
    case Atom(v) => r.AtomRef? && Live(m, r.w) && Meaning(m, r.w) == Some(v)
    case Cell(h, t) =>
      r.CellRef? && r.at < |cells| && !(lo <= r.at < hi)
      && Stands(cells, m, cells[r.at].head, h, lo, hi) && Stands(cells, m, cells[r.at].tail, t, lo, hi)
  }

  predicate Extends(m: map<nat, Stored>, more: map<nat, Stored>) {
    forall k :: k in m ==> k in more && more[k] == m[k]
  }

  /** Atoms have only been added, and cells only been written in the free room. */
  predicate Grown(cells: seq<Pair>, m: map<nat, Stored>, lo: nat, cells': seq<Pair>, m': map<nat, Stored>, lo': nat, hi: nat) {
    && |cells'| == |cells| && lo <= lo' && Extends(m, m')
    && forall i :: 0 <= i < |cells| && !(lo <= i < hi) ==> cells'[i] == cells[i]
  }

  lemma GrownTwice(c0: seq<Pair>, m0: map<nat, Stored>, lo0: nat, c1: seq<Pair>, m1: map<nat, Stored>, lo1: nat,
                   c2: seq<Pair>, m2: map<nat, Stored>, lo2: nat, hi: nat)
    requires Grown(c0, m0, lo0, c1, m1, lo1, hi) && Grown(c1, m1, lo1, c2, m2, lo2, hi)
    ensures Grown(c0, m0, lo0, c2, m2, lo2, hi)
  {
  }

  /** A word keeps standing for its noun when memory has grown. */
  lemma {:induction false} StandsStill(cells: seq<Pair>, m: map<nat, Stored>, lo: nat, cells': seq<Pair>, m': map<nat, Stored>, lo': nat,
                                       hi: nat, r: Ref, n: Noun)
    requires Grown(cells, m, lo, cells', m', lo', hi) && Stands(cells, m, r, n, lo, hi)
    ensures Stands(cells', m', r, n, lo', hi)
    decreases n
  {
    if n.Cell? {
      StandsStill(cells, m, lo, cells', m', lo', hi, cells[r.at].head, n.head);
      StandsStill(cells, m, lo, cells', m', lo', hi, cells[r.at].tail, n.tail);
    }
  }

  /** A word stands for one noun only. */
  lemma {:induction false} StandsForOne(cells: seq<Pair>, m: map<nat, Stored>, r: Ref, n: Noun, n': Noun, lo: nat, hi: nat)
    requires Stands(cells, m, r, n, lo, hi) && Stands(cells, m, r, n', lo, hi)
    ensures n == n'
    decreases n
  {
    if n.Cell? {
      StandsForOne(cells, m, cells[r.at].head, n.head, n'.head, lo, hi);
      StandsForOne(cells, m, cells[r.at].tail, n.tail, n'.tail, lo, hi);
    }
  }

  /** Noun memory at one moment: the cells, the atoms, the two tops. */
  datatype Moment = Moment(cells: seq<Pair>, atoms: map<nat, Stored>, scratchTop: nat, persistTop: nat) {
    function Top(scratch: bool): nat {
      if scratch then scratchTop else persistTop
    }
  }

  /** Memory has only grown, and only in one of the heaps. */
  predicate OnlyGrown(scratch: bool, hi: nat, a: Moment, b: Moment) {
    Grown(a.cells, a.atoms, a.Top(scratch), b.cells, b.atoms, b.Top(scratch), hi) && b.Top(!scratch) == a.Top(!scratch)
  }

  lemma GrownNot(scratch: bool, hi: nat, a: Moment)
    ensures OnlyGrown(scratch, hi, a, a)
  {
  }

  lemma GrownMore(scratch: bool, hi: nat, a: Moment, b: Moment, c: Moment)
    requires OnlyGrown(scratch, hi, a, b) && OnlyGrown(scratch, hi, b, c)
    ensures OnlyGrown(scratch, hi, a, c)
  {
    hide Grown;
    GrownTwice(a.cells, a.atoms, a.Top(scratch), b.cells, b.atoms, b.Top(scratch), c.cells, c.atoms, c.Top(scratch), hi);
  }

  lemma GrownAtoms(scratch: bool, hi: nat, a: Moment, more: map<nat, Stored>)
    requires Extends(a.atoms, more)
    ensures OnlyGrown(scratch, hi, a, a.(atoms := more))
  {
  }

  lemma GrownCell(scratch: bool, hi: nat, a: Moment, b: Moment, cell: Pair)
    requires a.Top(scratch) < hi && a.Top(scratch) < |a.cells| && b.atoms == a.atoms
    requires b.cells == a.cells[a.Top(scratch) := cell] && b.Top(scratch) == a.Top(scratch) + 1 && b.Top(!scratch) == a.Top(!scratch)
    ensures OnlyGrown(scratch, hi, a, b)
  {
  }

  /** A word keeps standing for its noun, from one moment to a later one. */
  lemma StillStands(scratch: bool, hi: nat, a: Moment, b: Moment, r: Ref, n: Noun)
    requires OnlyGrown(scratch, hi, a, b) && Stands(a.cells, a.atoms, r, n, a.Top(scratch), hi)
    ensures Stands(b.cells, b.atoms, r, n, b.Top(scratch), hi)
  {
    hide Grown, Stands;
    StandsStill(a.cells, a.atoms, a.Top(scratch), b.cells, b.atoms, b.Top(scratch), hi, r, n);
  }

  /** Every word that stood for a noun still stands for it. */
  ghost predicate Kept(scratch: bool, hi: nat, a: Moment, b: Moment) {
    forall r: Ref, n: Noun :: Stands(a.cells, a.atoms, r, n, a.Top(scratch), hi) ==> Stands(b.cells, b.atoms, r, n, b.Top(scratch), hi)
  }

  lemma GrownKeeps(scratch: bool, hi: nat, a: Moment, b: Moment)
    requires OnlyGrown(scratch, hi, a, b)
    ensures Kept(scratch, hi, a, b)
  {
    hide Stands, OnlyGrown;
    forall r: Ref, n: Noun | Stands(a.cells, a.atoms, r, n, a.Top(scratch), hi)
      ensures Stands(b.cells, b.atoms, r, n, b.Top(scratch), hi)
    {
      StillStands(scratch, hi, a, b, r, n);
    }
  }

  /** Giving back what was made leaves at most the free room changed. */
  lemma GivenBack(scratch: bool, hi: nat, a: Moment, b: Moment, c: Moment)
    requires OnlyGrown(scratch, hi, a, b) && c == a.(cells := b.cells)
    ensures OnlyGrown(scratch, hi, a, c)
  {
  }

  class Space {
    const store: Store
    const cells: array<Pair>
    // the scratch heap lies below this address, the persistent one above
    const divide: nat
    var persistLimit: nat
    var scratchMode: bool
    var scratchTop: nat
    var persistTop: nat
    // the transaction's heap and its mark
    var txScratch: bool
    var cellMark: nat

    constructor (store: Store, size: nat, divide: nat)
      requires store.Valid() && !store.live && divide <= size
      ensures Valid() && this.store == store && fresh(cells) && Top() == divide
    {
      this.store, this.divide := store, divide;
      cells := new Pair[size](_ => Pair(AtomRef(Direct(0)), AtomRef(Direct(0))));
      persistLimit, scratchMode, scratchTop, persistTop, txScratch, cellMark := size, false, 0, divide, false, 0;
    }

    function Top(): nat
      reads this
    {
      if scratchMode then scratchTop else persistTop
    }

    function Limit(): nat
      reads this
    {
      if scratchMode then divide else persistLimit
    }

    ghost function Now(): Moment
      reads this, store, cells
    {
      Moment(cells[..], store.contents, scratchTop, persistTop)
    }

    /** The word stands for the noun now. */
    ghost predicate Means(r: Ref, n: Noun)
      reads this, store, cells
    {
      Stands(cells[..], store.contents, r, n, Top(), Limit())
    }

    ghost function Footprint(): set<object>
      reads this
    {
      {this, store, store.slots, store.logged, cells}
    }

    ghost predicate Valid()
      reads this, store, store.slots, store.logged
    {
      && store.Valid() && scratchTop <= divide <= persistTop <= persistLimit <= cells.Length
      && (store.live ==> if txScratch then cellMark <= scratchTop else divide <= cellMark <= persistTop)
    }

    /** `noun_tx_begin`. */
    method Begin(scratch: bool) returns (ok: bool)
      requires Valid()
      modifies `scratchMode, `txScratch, `cellMark, store`live, store`mark, store`count, store`before, store`contentsBefore
      ensures Valid() && store.live && ok == !old(store.live)
      ensures ok ==> scratchMode == txScratch == scratch && cellMark == Top() && store.mark == store.used && store.count == 0
                     && store.before == store.slots[..] && store.contentsBefore == store.contents
      ensures !ok ==> scratchMode == old(scratchMode) && txScratch == old(txScratch) && cellMark == old(cellMark)
                      && store.mark == old(store.mark) && store.count == old(store.count)
    {
      ok := store.Begin();
      if ok {
        scratchMode, txScratch := scratch, scratch;
        cellMark := Top();
      }
    }

    /** `noun_tx_commit`. */
    method Commit()
      requires Valid()
      modifies store`live, store`count
      ensures Valid() && !store.live
    {
      store.Commit();
    }

    /** `noun_tx_abort`: the atoms and the cells made since the transaction began are given back. */
    method Abort()
      requires Valid()
      modifies `scratchTop, `persistTop, store`used, store`occupancy, store`live, store`count, store`contents, store.slots
      ensures Valid() && !store.live
      ensures old(store.live) ==>
                && store.slots[..] == store.before && store.contents == store.contentsBefore && store.used == store.mark
                && scratchTop == (if txScratch then cellMark else old(scratchTop))
                && persistTop == (if txScratch then old(persistTop) else cellMark)
      ensures !old(store.live) ==>
                && store.slots[..] == old(store.slots[..]) && store.contents == old(store.contents)
                && store.used == old(store.used) && scratchTop == old(scratchTop) && persistTop == old(persistTop)
    {
      var wasLive := store.live;
      store.Abort();
      if wasLive {
        if txScratch {
          scratchTop := cellMark;
        } else {
          persistTop := cellMark;
        }
      }
    }

    /** `alloc_cell_checked`, without its reference counts. */
    method AllocCell(head: Ref, tail: Ref) returns (out: Option<Ref>)
      requires Valid()
      modifies `scratchTop, `persistTop, cells
      ensures Valid() && (scratchMode ==> persistTop == old(persistTop)) && (!scratchMode ==> scratchTop == old(scratchTop))
      ensures out == if store.noalloc || old(Top()) >= Limit() then None else Some(CellRef(old(Top())))
      ensures Top() == if out.Some? then old(Top()) + 1 else old(Top())
      ensures out.Some? ==> old(Top()) < cells.Length
      ensures cells[..] == if out.Some? then old(cells[..])[old(Top()) := Pair(head, tail)] else old(cells[..])
    {
      var at := Top();
      if store.noalloc || at >= Limit() {
        return None;
      }
      cells[at] := Pair(head, tail);
      if scratchMode {
        scratchTop := at + 1;
      } else {
        persistTop := at + 1;
      }
      return Some(CellRef(at));
    }
  }
}
