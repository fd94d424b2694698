/** Nouns, axes, and the two tree operators of Nock 4K: `/` (slot) and `#` (edit). */
module Nouns {

  datatype Option<+T> = None | Some(value: T)

  datatype Noun = Atom(v: nat) | Cell(head: Noun, tail: Noun)

  // A direct atom fits in 63 bits; the noun word is then the value itself.
  const DIRECT_LIMIT: nat := 0x8000_0000_0000_0000

  const YES: Noun := Atom(0)
  const NO: Noun := Atom(1)

  predicate IsDirect(n: Noun) {
    n.Atom? && n.v < DIRECT_LIMIT
  }

  /** The head or tail of a noun that is there and is a cell. */
  function Half(n: Option<Noun>, tail: bool): Option<Noun> {
    if n.Some? && n.value.Cell? then Some(if tail then n.value.tail else n.value.head) else None
  }

  /** The cell `n` with one half replaced. */
  function Refit(n: Option<Noun>, tail: bool, half: Option<Noun>): Option<Noun> {
    if n.Some? && n.value.Cell? && half.Some?
    then Some(if tail then Cell(n.value.head, half.value) else Cell(half.value, n.value.tail))
    else None
  }

  /** `/[a n]` by the reduction rules, from the last axis bit up. */
  function Slot(a: nat, n: Noun): Option<Noun> {
    if a == 0 then None
    else if a == 1 then Some(n)
    else Half(Slot(a / 2, n), a % 2 == 1)
  }

  /** `#[a v n]` by the reduction rules: an edit at an axis is an edit of its parent
      whose other half is read back with `/`. */
  function Edit(a: nat, v: Noun, n: Noun): Option<Noun> {
    if a == 0 then None
    else if a == 1 then Some(v)
    else if a % 2 == 0 then
      match Slot(a + 1, n)
      case Some(t) => Edit(a / 2, Cell(v, t), n)
      case None => None
    else
      match Slot(a - 1, n)
      case Some(h) => Edit(a / 2, Cell(h, v), n)
      case None => None
  }

  /** Axis composition: walk `a`, then `b`. */
  function Peg(a: nat, b: nat): nat
    requires b != 0
  {
    if b == 1 then a
    else if b == 2 then 2 * a
    else if b == 3 then 2 * a + 1
    else
      var c := Peg(a, b / 2);
      if b % 2 == 1 then 2 * c + 1 else 2 * c
  }

  /** The side of the root an axis lies on: 2 for the head, 3 for the tail. */
  function Cap(a: nat): nat
    requires a >= 2
  {
    if a <= 3 then a else Cap(a / 2)
  }

  /** The axis within that side. */
  function Mas(a: nat): (m: nat)
    requires a >= 2
    ensures m != 0
  {
    if a <= 3 then 1 else 2 * Mas(a / 2) + a % 2
  }

  lemma {:induction false} PegZero(a: nat, b: nat)
    requires a != 0 && b != 0
    ensures Peg(a, b) != 0
  {
    if b > 3 {
      PegZero(a, b / 2);
    }
  }

  /** Walking a composed axis is walking its parts. */
  lemma {:induction false} SlotPeg(a: nat, b: nat, n: Noun)
    requires a != 0 && b != 0
    ensures Slot(Peg(a, b), n) ==
            match Slot(a, n) { case Some(m) => Slot(b, m) case None => None }
  {
    if b > 3 {
      SlotPeg(a, b / 2, n);
      PegZero(a, b / 2);
    } else if b > 1 {
      assert b / 2 == 1;
    }
  }

  /** Every axis past the root is its side composed with the axis within that side. */
  lemma {:induction false} PegCapMas(a: nat)
    requires a >= 2
    ensures (Cap(a) == 2 || Cap(a) == 3) && Mas(a) < a && Peg(Cap(a), Mas(a)) == a
  {
    if a > 3 {
      PegCapMas(a / 2);
      assert Mas(a) / 2 == Mas(a / 2);
    }
  }

  lemma {:induction false} SlotCell(a: nat, n: Noun)
    requires a >= 2
    ensures Slot(a, n) ==
            if n.Cell? then Slot(Mas(a), if Cap(a) == 2 then n.head else n.tail) else None
  {
    PegCapMas(a);
    SlotPeg(Cap(a), Mas(a), n);
  }

  /** One step of the edit rules: the cell at the parent axis is rebuilt with one half replaced. */
  lemma EditStep(p: nat, tail: bool, v: Noun, n: Noun)
    requires p != 0
    ensures Edit(2 * p + (if tail then 1 else 0), v, n) ==
            var parent := Refit(Slot(p, n), tail, Some(v));
            if parent.Some? then Edit(p, parent.value, n) else None
  {
    var a := 2 * p + (if tail then 1 else 0);
    var other := 2 * p + (if tail then 0 else 1);
    assert a / 2 == p && other / 2 == p;
    assert other == if tail then a - 1 else a + 1;
  }

  /** The edit rules read bottom-up agree with an edit that walks down from the root. */
  lemma {:induction false} EditPeg(side: nat, b: nat, v: Noun, n: Noun)
    requires side == 2 || side == 3
    requires b != 0
    ensures Edit(Peg(side, b), v, n) ==
            if n.Cell?
            then Refit(Some(n), side == 3, Edit(b, v, if side == 2 then n.head else n.tail))
            else None
    decreases b
  {
    if b == 1 {
      EditStep(1, side == 3, v, n);
    } else {
      var child := if !n.Cell? then n else if side == 2 then n.head else n.tail;
      var tail := b % 2 == 1;
      PegZero(side, b / 2);
      var p := Peg(side, b / 2);
      assert Peg(side, b) == 2 * p + (if tail then 1 else 0);
      EditStep(p, tail, v, n);
      EditStep(b / 2, tail, v, child);
      SlotPeg(side, b / 2, n);
      SlotSide(side, n);
      var parent := Refit(Slot(p, n), tail, Some(v));
      if parent.Some? {
        EditPeg(side, b / 2, parent.value, n);
      }
    }
  }

  lemma SlotSide(side: nat, n: Noun)
    requires side == 2 || side == 3
    ensures Slot(side, n) ==
            if n.Cell? then Some(if side == 2 then n.head else n.tail) else None
  {
    assert Slot(1, n) == Some(n);
  }

  lemma {:induction false} EditCell(a: nat, v: Noun, n: Noun)
    requires a >= 2
    ensures Edit(a, v, n) ==
            if n.Cell?
            then Refit(Some(n), Cap(a) == 3,
                       Edit(Mas(a), v, if Cap(a) == 2 then n.head else n.tail))
            else None
  {
    PegCapMas(a);
    EditPeg(Cap(a), Mas(a), v, n);
  }

  /** What was written is read back at the edited axis. */
  lemma {:induction false} SlotOfEdit(a: nat, v: Noun, n: Noun)
    requires Edit(a, v, n).Some?
    ensures Slot(a, Edit(a, v, n).value) == Some(v)
  {
    if a >= 2 {
      EditCell(a, v, n);
      PegCapMas(a);
      SlotOfEdit(Mas(a), v, if Cap(a) == 2 then n.head else n.tail);
      SlotCell(a, Edit(a, v, n).value);
    }
  }

  /** True when neither axis lies on the path to the other. */
  predicate Apart(a: nat, b: nat)
    decreases a
  {
    a >= 2 && b >= 2 && (Cap(a) != Cap(b) || (PegCapMas(a); Apart(Mas(a), Mas(b))))
  }

  /** An edit leaves every axis apart from the edited one as it was. */
  lemma {:induction false} SlotOfEditElsewhere(a: nat, b: nat, v: Noun, n: Noun)
    requires Apart(a, b) && Edit(a, v, n).Some?
    ensures Slot(b, Edit(a, v, n).value) == Slot(b, n)
    decreases a
  {
    EditCell(a, v, n);
    PegCapMas(a);
    PegCapMas(b);
    SlotCell(b, n);
    SlotCell(b, Edit(a, v, n).value);
    if Cap(a) == Cap(b) {
      SlotOfEditElsewhere(Mas(a), Mas(b), v, if Cap(a) == 2 then n.head else n.tail);
    }
  }
}
