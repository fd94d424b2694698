/** The sharing-preserving copier of src/noun.c. */
module NounCopy {
  import opened Nouns
  import opened Probe

  const MAP_SIZE: nat := 131072
  const MAP_ADMITTED: nat := 98304
  const DEPTH_MAX: nat := 256

  /** A noun word: an atom, or the address of a cell. */
  datatype Word = AtomWord(v: nat) | CellWord(at: nat)

  datatype Cell = Cell(refcount: nat, head: Word, tail: Word)

  /** An acyclic noun as it lies in memory, unfolded, with the address of every cell. */
  datatype Tree = Leaf(v: nat) | Node(at: nat, head: Tree, tail: Tree)

  function Root(t: Tree): Word {
    match t
    case Leaf(v) => AtomWord(v)
    case Node(at, _, _) => CellWord(at)
  }

  /** The memory holds the tree. */
  predicate Lies(cells: seq<Cell>, t: Tree) {
    match t
    case Leaf(_) => true
    case Node(at, h, u) => at < |cells| && cells[at].head == Root(h) && cells[at].tail == Root(u) && Lies(cells, h) && Lies(cells, u)
  }

  /** The noun without its addresses. */
  function NounOf(t: Tree): Noun {
    match t
    case Leaf(v) => Atom(v)
    case Node(_, h, u) => Noun.Cell(NounOf(h), NounOf(u))
  }

  function Addresses(t: Tree): set<nat> {
    match t
    case Leaf(_) => {}
    case Node(at, h, u) => {at} + Addresses(h) + Addresses(u)
  }

  /** The new word of an old one. */
  function Image(m: map<nat, Word>, w: Word): Word {
    match w
    case AtomWord(_) => w
    case CellWord(at) => if at in m then m[at] else w
  }

  /** The same noun at the new addresses. */
  function Moved(m: map<nat, Word>, t: Tree): Tree {
    match t
    case Leaf(_) => t
    case Node(at, h, u) => Node(if at in m && m[at].CellWord? then m[at].at else at, Moved(m, h), Moved(m, u))
  }

  lemma {:induction false} MovedNoun(m: map<nat, Word>, t: Tree)
    ensures NounOf(Moved(m, t)) == NounOf(t)
  {
    if t.Node? {
      MovedNoun(m, t.head);
      MovedNoun(m, t.tail);
    }
  }

  function Height(t: Tree): nat {
    match t
    case Leaf(_) => 0
    case Node(_, h, u) => 1 + if Height(h) > Height(u) then Height(h) else Height(u)
  }

  /** What lies at an address is one tree. */
  lemma {:induction false} OneTree(cells: seq<Cell>, t: Tree, u: Tree)
    requires Lies(cells, t) && Lies(cells, u) && Root(t) == Root(u)
    ensures t == u
  {
    if t.Node? {
      OneTree(cells, t.head, u.head);
      OneTree(cells, t.tail, u.tail);
    }
  }

  /** The tree at an address within a tree. */
  lemma {:induction false} TreeAt(cells: seq<Cell>, t: Tree, at: nat) returns (u: Tree)
    requires Lies(cells, t) && at in Addresses(t)
    ensures u.Node? && u.at == at && Lies(cells, u) && Height(u) <= Height(t)
    ensures Addresses(u) <= Addresses(t)
  {
    if t.at == at {
      u := t;
    } else if at in Addresses(t.head) {
      u := TreeAt(cells, t.head, at);
    } else {
      u := TreeAt(cells, t.tail, at);
    }
  }

  /** No cell is inside itself. */
  lemma NotInside(cells: seq<Cell>, t: Tree)
    requires Lies(cells, t) && t.Node?
    ensures t.at !in Addresses(t.head) && t.at !in Addresses(t.tail)
  {
    if t.at in Addresses(t.head) {
      var u := TreeAt(cells, t.head, t.at);
      OneTree(cells, t, u);
    }
    if t.at in Addresses(t.tail) {
      var u := TreeAt(cells, t.tail, t.at);
      OneTree(cells, t, u);
    }
  }

  /** Where new cells are allocated, up to `top` so far. */
  datatype Room = Room(base: nat, top: nat, limit: nat)

  /** An old cell's copy: allocated since the start, holding the images of what the old one holds. */
  predicate Copied(cells: seq<Cell>, was: seq<Cell>, r: Room, m: map<nat, Word>, k: nat)
    requires |cells| == |was|
  {
    k in m && k < |was| && !(r.base <= k < r.limit) && m[k].CellWord? && r.base <= m[k].at < r.top <= |cells|
    && (was[k].head.CellWord? ==> was[k].head.at in m) && (was[k].tail.CellWord? ==> was[k].tail.at in m)
    && cells[m[k].at].head == Image(m, was[k].head) && cells[m[k].at].tail == Image(m, was[k].tail)
  }

  predicate Injective(m: map<nat, Word>) {
    forall k, l :: k in m && l in m && m[k] == m[l] ==> k == l
  }

  /** The map sends old cells, one to one, to all the cells allocated since the start; and outside
      the room nothing has changed. */
  ghost predicate Copies(cells: seq<Cell>, was: seq<Cell>, r: Room, m: map<nat, Word>) {
    && r.base <= r.top <= r.limit <= |cells| && |cells| == |was|
    && (forall k :: k in m ==> Copied(cells, was, r, m, k))
    && Injective(m) && |m| == r.top - r.base
    && (forall i :: 0 <= i < |cells| && !(r.base <= i < r.limit) ==> cells[i] == was[i])
  }

  /** Allocating the copy of one more cell, whose halves are copied already. */
  lemma OneMore(cells: seq<Cell>, was: seq<Cell>, r: Room, m: map<nat, Word>, at: nat, cells': seq<Cell>)
    requires Copies(cells, was, r, m) && at !in m && at < |was| && !(r.base <= at < r.limit) && r.top < r.limit
    requires (was[at].head.CellWord? ==> was[at].head.at in m) && (was[at].tail.CellWord? ==> was[at].tail.at in m)
    requires |cells'| == |cells| && cells'[r.top].head == Image(m, was[at].head) && cells'[r.top].tail == Image(m, was[at].tail)
    requires forall i :: 0 <= i < |cells| && i != r.top ==> cells'[i].head == cells[i].head && cells'[i].tail == cells[i].tail
    requires forall i :: 0 <= i < |cells| && !(r.base <= i < r.limit) ==> cells'[i] == cells[i]
    ensures Copies(cells', was, r.(top := r.top + 1), m[at := CellWord(r.top)])
  {
    hide Copied;
    var (r', m') := (r.(top := r.top + 1), m[at := CellWord(r.top)]);
    forall k | k in m'
      ensures Copied(cells', was, r', m', k)
    {
      if k == at {
        NewCopied(cells', was, r, m, at);
      } else {
        StaysCopied(cells, was, r, m, at, cells', k);
      }
    }
    InjectiveMore(cells, was, r, m, at);
  }

  lemma NewCopied(cells: seq<Cell>, was: seq<Cell>, r: Room, m: map<nat, Word>, at: nat)
    requires |cells| == |was| && at !in m && at < |was| && !(r.base <= at < r.limit) && r.base <= r.top < r.limit <= |cells|
    requires (was[at].head.CellWord? ==> was[at].head.at in m) && (was[at].tail.CellWord? ==> was[at].tail.at in m)
    requires cells[r.top].head == Image(m, was[at].head) && cells[r.top].tail == Image(m, was[at].tail)
    ensures Copied(cells, was, r.(top := r.top + 1), m[at := CellWord(r.top)], at)
  {
  }

  lemma StaysCopied(cells: seq<Cell>, was: seq<Cell>, r: Room, m: map<nat, Word>, at: nat, cells': seq<Cell>, k: nat)
    requires |cells| == |cells'| == |was| && at !in m && r.top < r.limit <= |cells| && Copied(cells, was, r, m, k)
    requires forall i :: 0 <= i < |cells| && i != r.top ==> cells'[i].head == cells[i].head && cells'[i].tail == cells[i].tail
    ensures Copied(cells', was, r.(top := r.top + 1), m[at := CellWord(r.top)], k)
  {
  }

  lemma InjectiveMore(cells: seq<Cell>, was: seq<Cell>, r: Room, m: map<nat, Word>, at: nat)
    requires Injective(m) && at !in m && |cells| == |was| && forall k :: k in m ==> Copied(cells, was, r, m, k)
    ensures Injective(m[at := CellWord(r.top)])
  {
    var m' := m[at := CellWord(r.top)];
    forall k, l | k in m' && l in m' && m'[k] == m'[l]
      ensures k == l
    {
      if k in m { assert Copied(cells, was, r, m, k); }
      if l in m { assert Copied(cells, was, r, m, l); }
    }
  }

  function CountedUp(s: seq<Cell>, w: Word): (t: seq<Cell>)
    ensures |t| == |s|
  {
    if w.CellWord? && w.at < |s| then s[w.at := s[w.at].(refcount := s[w.at].refcount + 1)] else s
  }

  /** The memory with a new cell, and its halves' reference counts one up. */
  function Linked(s: seq<Cell>, at: nat, head: Word, tail: Word): (t: seq<Cell>)
    requires at < |s|
    ensures |t| == |s|
  {
    CountedUp(CountedUp(s[at := Cell.Cell(1, head, tail)], head), tail)
  }

  /** A new cell over new halves is one more copy. */
  lemma LinkedCopy(cells: seq<Cell>, was: seq<Cell>, r: Room, m: map<nat, Word>, at: nat, head: Word, tail: Word)
    requires Copies(cells, was, r, m) && at !in m && at < |was| && !(r.base <= at < r.limit) && r.top < r.limit
    requires (was[at].head.CellWord? ==> was[at].head.at in m) && (was[at].tail.CellWord? ==> was[at].tail.at in m)
    requires head == Image(m, was[at].head) && tail == Image(m, was[at].tail)
    requires (head.CellWord? ==> r.base <= head.at < r.top) && (tail.CellWord? ==> r.base <= tail.at < r.top)
    ensures Copies(Linked(cells, r.top, head, tail), was, r.(top := r.top + 1), m[at := CellWord(r.top)])
  {
    hide Copied, Injective;
    var one := cells[r.top := Cell.Cell(1, head, tail)];
    var two := CountedUp(one, head);
    OneMore(cells, was, r, m, at, Linked(cells, r.top, head, tail));
  }

  /** Why a copy failed. */
  datatype Reason = Depth | Memory | MapFull | Injected

  datatype Outcome = Done(word: Word) | Failed(reason: Reason)

  class Heap {
    const cells: array<Cell>
    var room: Room
    var table: Table<Word>
    var entries: nat
    var failAfter: int

    /** The state of a copy that began with the given memory. */
    ghost predicate Copying(was: seq<Cell>, base: nat, limit: nat)
      reads this, cells, table, table.slots
    {
      && table.slots.Length == MAP_SIZE && table.Valid(MAP_SIZE) && entries == |table.contents|
      && room.base == base && room.limit == limit && Copies(cells[..], was, room, table.contents)
    }

    ghost predicate Valid()
      reads this
    {
      room.base <= room.top <= room.limit <= cells.Length
    }

    constructor (size: nat, base: nat, limit: nat, hash: nat -> nat)
      requires base <= limit <= size
      ensures Valid() && room == Room(base, base, limit) && cells.Length == size && fresh(cells)
    {
      cells := new Cell[size](_ => Cell.Cell(0, AtomWord(0), AtomWord(0)));
      room := Room(base, base, limit);
      table := new Table<Word>(hash, MAP_SIZE);
      entries, failAfter := 0, -1;
    }

    /** `cell_inc`. */
    method CountUp(w: Word)
      requires w.CellWord? ==> w.at < cells.Length
      modifies cells
      ensures cells[..] == CountedUp(old(cells[..]), w)
    {
      if w.CellWord? {
        cells[w.at] := cells[w.at].(refcount := cells[w.at].refcount + 1);
      }
    }

    /** `alloc_cell_checked`. */
    method AllocCell(head: Word, tail: Word) returns (out: Option<Word>)
      requires Valid()
      requires head.CellWord? ==> head.at < room.top
      requires tail.CellWord? ==> tail.at < room.top
      modifies `room, cells
      ensures out.None? ==> old(room.top) == room.limit && room == old(room) && cells[..] == old(cells[..])
      ensures out.Some? ==> old(room.top) < room.limit && out.value == CellWord(old(room.top))
                            && room == old(room).(top := old(room.top) + 1) && cells[..] == Linked(old(cells[..]), old(room.top), head, tail)
    {
      if room.top >= room.limit {
        return None;
      }
      var at := room.top;
      room := room.(top := at + 1);
      cells[at] := Cell.Cell(1, head, tail);
      CountUp(head);
      CountUp(tail);
      return Some(CellWord(at));
    }

    /** Outside the room nothing has changed. */
    ghost predicate Untouched(was: seq<Cell>, base: nat, limit: nat)
      reads this, cells
    {
      && room.base == base <= room.top <= room.limit == limit <= cells.Length == |was|
      && (forall i :: 0 <= i < |was| && !(base <= i < limit) ==> cells[i] == was[i])
    }

    /** `noun_copy_checked_rec`. */
    method CopyRec(n: Word, depth: nat, ghost t: Tree, ghost was: seq<Cell>, ghost base: nat, ghost limit: nat) returns (o: Outcome)
      requires Copying(was, base, limit) && Lies(was, t) && Root(t) == n && Outside(t, base, limit)
      modifies `room, `entries, `failAfter, cells, table, table.slots
      ensures Untouched(was, base, limit)
      ensures Grown(old(table.contents), table.contents, t)
      ensures o.Done? ==> Copying(was, base, limit) && Addresses(t) <= table.contents.Keys && o.word == Image(table.contents, n)
      ensures o == Failed(Depth) ==> depth + Height(t) > DEPTH_MAX
      ensures o == Failed(Memory) ==> room.top == limit
      ensures o == Failed(MapFull) ==> |table.contents| >= MAP_ADMITTED
      ensures o == Failed(Injected) ==> failAfter == 0
      decreases t
    {
      hide Copies, Copied, Injective, Represents, Lies, Outside, Grown;
      CopiesRoom(cells[..], was, room, table.contents);
      GrownNothing(table.contents, t);
      if n.AtomWord? {
        return Done(n);
      }
      if depth >= DEPTH_MAX {
        return Failed(Depth);
      }
      var at := n.at;
      var found := table.Get(at, MAP_SIZE);
      if found.Some? {
        AllCopied(cells[..], was, room, table.contents, t);
        return Done(found.value);
      }
      NodeOutside(was, t, base, limit);
      NotInside(was, t);
      ghost var m0 := table.contents;
      var h := CopyRec(cells[at].head, depth + 1, t.head, was, base, limit);
      GrownHalf(m0, table.contents, t.head, t);
      if h.Failed? {
        return h;
      }
      ghost var m1 := table.contents;
      CopiesRoom(cells[..], was, room, m1);
      var u := CopyRec(cells[at].tail, depth + 1, t.tail, was, base, limit);
      GrownTwice(m0, m1, table.contents, t.tail, t);
      if u.Failed? {
        return u;
      }
      GrownKeeps(m0, m1, table.contents, t);
      ghost var m2 := table.contents;
      o := Finish(at, h.word, u.word, t, was, base, limit);
      GrownFinally(m0, m2, table.contents, t);
    }

    /** The tail of `noun_copy_checked_rec`: the new cell, and its entry in the map. */
    method Finish(at: nat, head: Word, tail: Word, ghost t: Tree, ghost was: seq<Cell>, ghost base: nat, ghost limit: nat) returns (o: Outcome)
      requires Copying(was, base, limit) && Lies(was, t) && Root(t) == CellWord(at) && Outside(t, base, limit) && at !in table.contents
      requires Addresses(t.head) <= table.contents.Keys && Addresses(t.tail) <= table.contents.Keys
      requires head == Image(table.contents, was[at].head) && tail == Image(table.contents, was[at].tail)
      modifies `room, `entries, `failAfter, cells, table, table.slots
      ensures Untouched(was, base, limit)
      ensures Grown(old(table.contents), table.contents, t)
      ensures o.Done? ==> Copying(was, base, limit) && Addresses(t) <= table.contents.Keys && o.word == Image(table.contents, CellWord(at))
      ensures o != Failed(Depth)
      ensures o == Failed(Memory) ==> room.top == limit
      ensures o == Failed(MapFull) ==> |table.contents| >= MAP_ADMITTED
      ensures o == Failed(Injected) ==> failAfter == 0
    {
      hide Copies, Copied, Injective, Represents, Lies, Outside, Grown, Addresses, Height;
      ghost var m := table.contents;
      CopiesRoom(cells[..], was, room, m);
      NodeOutside(was, t, base, limit);
      HalfCopied(cells[..], was, room, m, t.head);
      HalfCopied(cells[..], was, room, m, t.tail);
      GrownNothing(m, t);
      if failAfter == 0 {
        return Failed(Injected);
      }
      if failAfter > 0 {
        failAfter := failAfter - 1;
      }
      var neu := AllocCopy(at, head, tail, was, m);
      if neu.None? {
        return Failed(Memory);
      }
      CopiesRoom(cells[..], was, room, m[at := neu.value]);
      GrownOne(m, t, neu.value);
      o := Record(at, neu.value, was, base, limit);
      if o.Done? {
        AddressesAre(t, table.contents);
      }
    }

    /** The allocation of a copy. */
    method AllocCopy(at: nat, head: Word, tail: Word, ghost was: seq<Cell>, ghost m: map<nat, Word>) returns (out: Option<Word>)
      requires Copies(cells[..], was, room, m) && at !in m && at < |was| && !(room.base <= at < room.limit)
      requires (was[at].head.CellWord? ==> was[at].head.at in m) && (was[at].tail.CellWord? ==> was[at].tail.at in m)
      requires head == Image(m, was[at].head) && tail == Image(m, was[at].tail)
      requires (head.CellWord? ==> room.base <= head.at < room.top) && (tail.CellWord? ==> room.base <= tail.at < room.top)
      modifies `room, cells
      ensures room.base == old(room.base) && room.limit == old(room.limit)
      ensures out.None? ==> room.top == room.limit && room == old(room) && cells[..] == old(cells[..])
      ensures out.Some? ==> Copies(cells[..], was, room, m[at := out.value])
    {
      hide Copies, Linked, Image;
      CopiesRoom(cells[..], was, room, m);
      if room.top < room.limit {
        LinkedCopy(cells[..], was, room, m, at, head, tail);
      }
      out := AllocCell(head, tail);
    }

    /** The entry of a new cell in the map. */
    method Record(at: nat, neu: Word, ghost was: seq<Cell>, ghost base: nat, ghost limit: nat) returns (o: Outcome)
      requires table.slots.Length == MAP_SIZE && table.Valid(MAP_SIZE) && entries == |table.contents| && at !in table.contents
      requires room.base == base && room.limit == limit && Copies(cells[..], was, room, table.contents[at := neu])
      modifies `entries, table, table.slots
      ensures o == (if old(entries) >= MAP_ADMITTED then Failed(MapFull) else Done(neu))
      ensures o.Done? ==> Copying(was, base, limit) && table.contents == old(table.contents)[at := neu]
      ensures o.Failed? ==> table.contents == old(table.contents)
    {
      hide Copies, Represents;
      if entries >= MAP_ADMITTED {
        return Failed(MapFull);
      }
      var ok := table.Put(at, neu, MAP_SIZE);
      entries := entries + 1;
      return Done(neu);
    }

    /** `noun_copy_checked`: an equal noun at new addresses, one new cell for each distinct cell
        of the old one, and every old cell as it was. */
    method CopyChecked(n: Word, hash: nat -> nat, ghost t: Tree) returns (o: Outcome)
      requires Valid() && Lies(cells[..], t) && Root(t) == n
      requires Outside(t, room.top, room.limit)
      modifies this, cells
      ensures Valid() && room.base == old(room.base) && room.limit == old(room.limit) && old(room.top) <= room.top
      ensures forall i :: 0 <= i < cells.Length && !(old(room.top) <= i < room.limit) ==> cells[i] == old(cells[i])
      ensures o.Done? ==>
                && Lies(cells[..], Moved(table.contents, t)) && o.word == Root(Moved(table.contents, t))
                && NounOf(Moved(table.contents, t)) == NounOf(t)
                && (forall k :: k in Addresses(Moved(table.contents, t)) ==> old(room.top) <= k < room.top)
                && table.contents.Keys == Addresses(t) && Injective(table.contents)
                && room.top - old(room.top) == |Addresses(t)|
      ensures o == Failed(Depth) ==> Height(t) >= DEPTH_MAX
      ensures o == Failed(Memory) ==> room.top == room.limit
      ensures o == Failed(MapFull) ==> |table.contents| >= MAP_ADMITTED
      ensures o == Failed(Injected) ==> failAfter == 0
    {
      hide Copies, Copied, Injective;
      hide Represents, Lies, Moved, Outside;
      ghost var was := cells[..];
      var (base, start) := (room.base, room.top);
      room := Room(start, start, room.limit);
      table := new Table<Word>(hash, MAP_SIZE);
      entries := 0;
      NothingCopied(was, room);
      o := CopyRec(n, 1, t, was, start, room.limit);
      if o.Done? {
        assert table.contents.Keys == Addresses(t);
        CopiedTree(cells[..], was, room, table.contents, t);
        CopiesRoom(cells[..], was, room, table.contents);
        KeyCount(table.contents);
        MovedNoun(table.contents, t);
      }
      room := room.(base := base);
    }
  }

  predicate Outside(t: Tree, base: nat, limit: nat) {
    forall k :: k in Addresses(t) ==> !(base <= k < limit)
  }

  /** A map that has only grown, and only by addresses of the tree. */
  predicate Grown(m: map<nat, Word>, more: map<nat, Word>, t: Tree) {
    (forall k :: k in m ==> k in more && more[k] == m[k]) && more.Keys <= m.Keys + Addresses(t)
  }

  lemma AddressesAre(t: Tree, m: map<nat, Word>)
    requires t.Node? && t.at in m && Addresses(t.head) <= m.Keys && Addresses(t.tail) <= m.Keys
    ensures Addresses(t) <= m.Keys
  {
  }

  lemma KeyCount(m: map<nat, Word>)
    ensures |m| == |m.Keys|
  {
  }

  lemma NothingCopied(was: seq<Cell>, r: Room)
    requires r.base == r.top <= r.limit <= |was|
    ensures Copies(was, was, r, map[])
  {
  }

  lemma CopiesRoom(cells: seq<Cell>, was: seq<Cell>, r: Room, m: map<nat, Word>)
    requires Copies(cells, was, r, m)
    ensures r.base <= r.top <= r.limit <= |cells| == |was| && |m| == r.top - r.base && Injective(m)
    ensures forall i :: 0 <= i < |cells| && !(r.base <= i < r.limit) ==> cells[i] == was[i]
  {
  }

  lemma CopiedAt(cells: seq<Cell>, was: seq<Cell>, r: Room, m: map<nat, Word>, k: nat)
    requires Copies(cells, was, r, m) && k in m
    ensures |cells| == |was| && Copied(cells, was, r, m, k)
  {
  }

  /** Where the root is copied, everything below is. */
  lemma {:induction false} AllCopied(cells: seq<Cell>, was: seq<Cell>, r: Room, m: map<nat, Word>, t: Tree)
    requires Copies(cells, was, r, m) && Lies(was, t) && (t.Node? ==> t.at in m)
    ensures Addresses(t) <= m.Keys
  {
    if t.Node? {
      assert Copied(cells, was, r, m, t.at);
      AllCopied(cells, was, r, m, t.head);
      AllCopied(cells, was, r, m, t.tail);
    }
  }

  /** The image of a copied tree's root is among the new cells. */
  lemma HalfCopied(cells: seq<Cell>, was: seq<Cell>, r: Room, m: map<nat, Word>, t: Tree)
    requires Copies(cells, was, r, m) && Addresses(t) <= m.Keys
    ensures var w := Root(t);
            if w.CellWord? then w.at in m && Image(m, w) == m[w.at] && m[w.at].CellWord? && r.base <= m[w.at].at < r.top
            else Image(m, w) == w
  {
    if t.Node? { assert Copied(cells, was, r, m, t.at); }
  }

  lemma NodeOutside(was: seq<Cell>, t: Tree, base: nat, limit: nat)
    requires Lies(was, t) && t.Node? && Outside(t, base, limit)
    ensures t.at < |was| && was[t.at].head == Root(t.head) && was[t.at].tail == Root(t.tail) && !(base <= t.at < limit)
    ensures Lies(was, t.head) && Lies(was, t.tail) && Outside(t.head, base, limit) && Outside(t.tail, base, limit)
  {
    assert Addresses(t) == {t.at} + Addresses(t.head) + Addresses(t.tail);
  }

  lemma GrownNothing(m: map<nat, Word>, t: Tree)
    ensures Grown(m, m, t)
  {
  }

  lemma GrownOne(m: map<nat, Word>, t: Tree, w: Word)
    requires t.Node? && t.at !in m
    ensures Grown(m, m[t.at := w], t)
  {
  }

  lemma GrownHalf(m: map<nat, Word>, more: map<nat, Word>, half: Tree, t: Tree)
    requires Grown(m, more, half) && t.Node? && (half == t.head || half == t.tail)
    ensures Grown(m, more, t)
  {
  }

  lemma GrownTwice(m: map<nat, Word>, m1: map<nat, Word>, m2: map<nat, Word>, half: Tree, t: Tree)
    requires Grown(m, m1, t) && Grown(m1, m2, half) && t.Node? && (half == t.head || half == t.tail)
    ensures Grown(m, m2, t)
  {
  }

  lemma GrownFinally(m: map<nat, Word>, m2: map<nat, Word>, m3: map<nat, Word>, t: Tree)
    requires Grown(m, m2, t) && Grown(m2, m3, t)
    ensures Grown(m, m3, t)
  {
  }

  /** What was copied before the tail still is, and the cell itself is not copied yet. */
  lemma GrownKeeps(m: map<nat, Word>, m1: map<nat, Word>, m2: map<nat, Word>, t: Tree)
    requires t.Node? && t.at !in m && t.at !in Addresses(t.head) && t.at !in Addresses(t.tail)
    requires Grown(m, m1, t.head) && Grown(m1, m2, t.tail) && Addresses(t.head) <= m1.Keys
    ensures t.at !in m2 && Addresses(t.head) <= m2.Keys
    ensures Image(m1, Root(t.head)) == Image(m2, Root(t.head))
  {
  }

  /** The copies of a tree's cells make up the tree at the new addresses. */
  lemma {:induction false} CopiedTree(cells: seq<Cell>, was: seq<Cell>, r: Room, m: map<nat, Word>, t: Tree)
    requires Copies(cells, was, r, m) && Lies(was, t) && Addresses(t) <= m.Keys
    ensures Lies(cells, Moved(m, t)) && Root(Moved(m, t)) == Image(m, Root(t))
    ensures forall k :: k in Addresses(Moved(m, t)) ==> r.base <= k < r.top
  {
    hide Copies, Injective;
    if t.Node? {
      CopiedTree(cells, was, r, m, t.head);
      CopiedTree(cells, was, r, m, t.tail);
      CopiedAt(cells, was, r, m, t.at);
    }
  }
}
