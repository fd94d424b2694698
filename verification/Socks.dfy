/** Partial nouns ("socks") of src/ska.c: what the scanner knows about a value. */
module Socks {
  import opened Nouns
  import opened Nock
  import opened Arith
  import opened NockMachine

  datatype Cape = Known | Wild | CapeCell(head: Cape, tail: Cape)

  datatype Sock = Sock(cape: Cape, data: Noun)

  const DUNNO: Sock := Sock(Wild, Atom(0))

  function SockKnown(n: Noun): Sock {
    Sock(Known, n)
  }

  /** The nouns a sock stands for, as `sock_match` tests them. */
  predicate Matches(c: Cape, d: Noun, n: Noun) {
    match c
    case Known => d == n
    case Wild => true
    case CapeCell(ch, ct) =>
      n.Cell? && d.Cell? && Matches(ch, d.head, n.head) && Matches(ct, d.tail, n.tail)
  }

  predicate Covers(s: Sock, n: Noun) {
    Matches(s.cape, s.data, n)
  }

  /** A cape never branches where its data does not. */
  predicate Fits(c: Cape, d: Noun) {
    c.CapeCell? ==> d.Cell? && Fits(c.head, d.head) && Fits(c.tail, d.tail)
  }

  predicate WF(s: Sock) {
    Fits(s.cape, s.data)
  }

  function CapeHalf(c: Cape, tail: bool): Cape {
    if c.CapeCell? then (if tail then c.tail else c.head) else c
  }

  /** `cape_pull` at a direct axis other than 0: an atomic cape spreads to its children. */
  function CapePull(c: Cape, a: nat): Cape {
    if a <= 1 then c else CapeHalf(CapePull(c, a / 2), a % 2 == 1)
  }

  /** `sock_pull`: the sub-sock at an axis, nothing known when the data has no such axis. */
  function SockPull(s: Sock, ax: Noun): Sock {
    var d := SlotNoun(ax, s.data);
    if d.Some? then Sock(CapePull(s.cape, ax.v), d.value) else DUNNO
  }

  /** The walk of `cape_pull`: path bits, most significant first. */
  method CapePullWalk(c: Cape, a: nat) returns (r: Cape)
    requires 0 < a
    ensures r == CapePull(c, a)
  {
    var depth, tmp := 0, a;
    while tmp > 1
      invariant tmp >= 1 && depth + Depth(tmp) == Depth(a)
    {
      tmp, depth := tmp / 2, depth + 1;
    }
    TopBit(a);
    r := c;
    while depth > 0
      invariant a / Pow2(depth) >= 1 && r == CapePull(c, a / Pow2(depth))
    {
      ShiftStep(a, depth - 1);
      if !r.CapeCell? {
        CapeAtomSpreads(c, a, depth);
        return;
      }
      r := if a / Pow2(depth - 1) % 2 == 1 then r.tail else r.head;
      depth := depth - 1;
    }
  }

  lemma {:induction false} CapeAtomSpreads(c: Cape, a: nat, i: nat)
    requires a / Pow2(i) >= 1 && !CapePull(c, a / Pow2(i)).CapeCell?
    ensures CapePull(c, a) == CapePull(c, a / Pow2(i))
    decreases i
  {
    if i > 0 {
      ShiftStep(a, i - 1);
      assert a / Pow2(i - 1) >= 1;
      CapeAtomSpreads(c, a, i - 1);
    }
  }

  function CapeCons(h: Cape, t: Cape): Cape {
    if h.Known? && t.Known? then Known
    else if h.Wild? && t.Wild? then Wild
    else CapeCell(h, t)
  }

  /** `sock_knit`: the sock of a pair. */
  function SockKnit(h: Sock, t: Sock): Sock {
    Sock(CapeCons(h.cape, t.cape), Cell(h.data, t.data))
  }

  function CapeSize(c: Cape): nat {
    match c
    case CapeCell(h, t) => 1 + CapeSize(h) + CapeSize(t)
    case _ => 0
  }

  function SockHalf(s: Sock, tail: bool): Sock {
    SockPull(s, Atom(if tail then 3 else 2))
  }

  lemma HalfSmaller(s: Sock, tail: bool)
    ensures CapeSize(SockHalf(s, tail).cape) <= CapeSize(s.cape)
    ensures s.cape.CapeCell? ==> CapeSize(SockHalf(s, tail).cape) < CapeSize(s.cape)
    ensures s.data.Cell? ==>
              SockHalf(s, tail) == Sock(CapeHalf(s.cape, tail), if tail then s.data.tail else s.data.head)
    ensures s.data.Atom? ==> SockHalf(s, tail) == DUNNO
  {
    SlotSide(if tail then 3 else 2, s.data);
    assert CapePull(s.cape, 1) == s.cape;
  }

  /** `sock_purr`: known only where both agree. */
  function SockPurr(a: Sock, b: Sock): Sock
    decreases CapeSize(a.cape) + CapeSize(b.cape)
  {
    if a.cape.Wild? || b.cape.Wild? then DUNNO
    else if a.cape.Known? && b.cape.Known? then
      if a.data == b.data then a else DUNNO
    else
      HalfSmaller(a, false); HalfSmaller(a, true); HalfSmaller(b, false); HalfSmaller(b, true);
      SockKnit(SockPurr(SockHalf(a, false), SockHalf(b, false)),
               SockPurr(SockHalf(a, true), SockHalf(b, true)))
  }

  /** `sock_huge`: `a` knows at least as much as `b`. */
  predicate SockHuge(a: Sock, b: Sock)
    decreases CapeSize(b.cape)
  {
    if b.cape.Wild? then true
    else if b.cape.Known? then a.cape.Known? && a.data == b.data
    else if a.cape.Wild? then false
    else if a.cape.Known? then a.data == b.data
    else
      HalfSmaller(b, false); HalfSmaller(b, true);
      SockHuge(SockHalf(a, false), SockHalf(b, false)) && SockHuge(SockHalf(a, true), SockHalf(b, true))
  }

  /** `sock_darn`: the edit of a sock, from the edited axis up. */
  function SockDarn(s: Sock, ax: Noun, edit: Sock): Sock
    decreases if ax.Atom? then ax.v else 0
  {
    if !IsDirect(ax) || ax.v == 0 then DUNNO
    else if ax.v == 1 then edit
    else
      var cur := SockPull(s, Atom(ax.v / 2));
      SockDarn(s, Atom(ax.v / 2),
               if ax.v % 2 == 1 then SockKnit(SockHalf(cur, false), edit)
               else SockKnit(edit, SockHalf(cur, true)))
  }

  // ----- What the operations mean for the nouns a sock stands for -----

  lemma {:induction false} PullSound(s: Sock, a: nat, n: Noun)
    requires Covers(s, n) && WF(s) && Slot(a, n).Some? && a < DIRECT_LIMIT
    ensures var p := SockPull(s, Atom(a)); Covers(p, Slot(a, n).value) && WF(p)
    decreases a
  {
    if a > 1 {
      PullSound(s, a / 2, n);
    }
  }

  lemma {:induction false} PullWF(s: Sock, ax: Noun)
    requires WF(s)
    ensures WF(SockPull(s, ax))
    decreases if ax.Atom? then ax.v else 0
  {
    if IsDirect(ax) && ax.v > 1 {
      PullWF(s, Atom(ax.v / 2));
    }
  }

  lemma KnitSound(h: Sock, t: Sock, x: Noun, y: Noun)
    requires WF(h) && WF(t)
    ensures WF(SockKnit(h, t))
    ensures Covers(h, x) && Covers(t, y) ==> Covers(SockKnit(h, t), Cell(x, y))
  {
  }

  lemma {:induction false} PurrSound(a: Sock, b: Sock, n: Noun)
    requires WF(a) && WF(b)
    ensures WF(SockPurr(a, b))
    ensures Covers(a, n) || Covers(b, n) ==> Covers(SockPurr(a, b), n)
    decreases CapeSize(a.cape) + CapeSize(b.cape)
  {
    if !a.cape.Wild? && !b.cape.Wild? && (a.cape.CapeCell? || b.cape.CapeCell?) {
      HalfSmaller(a, false); HalfSmaller(a, true); HalfSmaller(b, false); HalfSmaller(b, true);
      PurrSound(SockHalf(a, false), SockHalf(b, false), if n.Cell? then n.head else n);
      PurrSound(SockHalf(a, true), SockHalf(b, true), if n.Cell? then n.tail else n);
    }
  }

  lemma {:induction false} OwnData(c: Cape, d: Noun)
    requires Fits(c, d)
    ensures Matches(c, d, d)
    decreases c
  {
    if c.CapeCell? {
      OwnData(c.head, d.head);
      OwnData(c.tail, d.tail);
    }
  }

  /** What knows more stands for fewer nouns. */
  lemma {:induction false} HugeSound(a: Sock, b: Sock, n: Noun)
    requires WF(a) && WF(b) && SockHuge(a, b) && Covers(a, n)
    ensures Covers(b, n)
    decreases CapeSize(b.cape)
  {
    if b.cape.CapeCell? {
      HalfSmaller(a, false); HalfSmaller(a, true); HalfSmaller(b, false); HalfSmaller(b, true);
      if a.cape.Known? {
        OwnData(b.cape, b.data);
      } else {
        HugeSound(SockHalf(a, false), SockHalf(b, false), n.head);
        HugeSound(SockHalf(a, true), SockHalf(b, true), n.tail);
      }
    }
  }

  lemma {:induction false} DarnSound(s: Sock, ax: Noun, edit: Sock, n: Noun, v: Noun)
    requires WF(s) && WF(edit)
    ensures WF(SockDarn(s, ax, edit))
    ensures Covers(s, n) && Covers(edit, v) && IsDirect(ax) && Edit(ax.v, v, n).Some?
            ==> Covers(SockDarn(s, ax, edit), Edit(ax.v, v, n).value)
    decreases if ax.Atom? then ax.v else 0
  {
    if IsDirect(ax) && ax.v >= 2 {
      var (p, tail) := (ax.v / 2, ax.v % 2 == 1);
      var cur := SockPull(s, Atom(p));
      PullWF(s, Atom(p));
      PullWF(cur, Atom(2));
      PullWF(cur, Atom(3));
      EditStep(p, tail, v, n);
      var whole := if tail then SockKnit(SockHalf(cur, false), edit) else SockKnit(edit, SockHalf(cur, true));
      var parent := Refit(Slot(p, n), tail, Some(v));
      if Covers(s, n) && Covers(edit, v) && parent.Some? {
        PullSound(s, p, n);
        var m := Slot(p, n).value;
        SlotSide(2, m);
        SlotSide(3, m);
        PullSound(cur, 2, m);
        PullSound(cur, 3, m);
        assert Covers(whole, parent.value);
        DarnSound(s, Atom(p), whole, n, parent.value);
      } else {
        DarnSound(s, Atom(p), whole, n, v);
      }
    }
  }

  // ----- What the operations do not lose -----

  /** A pulled sock stands for nothing that cannot be there: each noun it stands for is the part of one
      that the whole sock stands for. */
  lemma {:induction false} PullTight(s: Sock, a: nat, x: Noun) returns (n: Noun)
    requires WF(s) && 0 < a < DIRECT_LIMIT && Slot(a, s.data).Some? && Covers(SockPull(s, Atom(a)), x)
    ensures Covers(s, n) && Slot(a, n) == Some(x)
    decreases a
  {
    if a == 1 {
      n := x;
    } else {
      var p := SockPull(s, Atom(a / 2));
      PullWF(s, Atom(a / 2));
      var y := if a % 2 == 1 then Cell(p.data.head, x) else Cell(x, p.data.tail);
      OwnData(p.cape, p.data);
      n := PullTight(s, a / 2, y);
    }
  }

  /** A knit sock stands for exactly the pairs. */
  lemma KnitTight(h: Sock, t: Sock, x: Noun, y: Noun)
    requires WF(h) && WF(t) && Covers(SockKnit(h, t), Cell(x, y))
    ensures Covers(h, x) && Covers(t, y)
  {
  }

  /** As `sock_knit` leaves capes: no cell of two unknowns. */
  predicate Tidy(c: Cape) {
    c.CapeCell? ==> Tidy(c.head) && Tidy(c.tail) && !(c.head.Wild? && c.tail.Wild?)
  }

  /** What two like socks have in common is what either stands for. */
  lemma {:induction false} PurrSelf(a: Sock, n: Noun)
    requires WF(a) && Tidy(a.cape)
    ensures !a.cape.Wild? ==> !SockPurr(a, a).cape.Wild?
    ensures Covers(SockPurr(a, a), n) <==> Covers(a, n)
    decreases CapeSize(a.cape)
  {
    PurrSound(a, a, n);
    if a.cape.CapeCell? {
      HalfSmaller(a, false);
      HalfSmaller(a, true);
      var (l, r) := (SockHalf(a, false), SockHalf(a, true));
      PurrSound(l, l, n);
      PurrSound(r, r, n);
      PurrSelf(l, if n.Cell? then n.head else n);
      PurrSelf(r, if n.Cell? then n.tail else n);
      if n.Cell? && Covers(SockPurr(a, a), n) {
        KnitTight(SockPurr(l, l), SockPurr(r, r), n.head, n.tail);
      }
    }
  }
}
