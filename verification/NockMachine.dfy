/** The evaluator as the machine runs it: a loop over (subject, formula) with an operation
    counter, a bit-walking slot and a top-down edit. */
module NockMachine {
  import opened Nouns
  import opened Nock
  import opened Arith

  /** The number of path bits of an axis. */
  function Depth(a: nat): nat {
    if a <= 1 then 0 else 1 + Depth(a / 2)
  }

  lemma {:induction false} DepthBounds(a: nat)
    requires a >= 1
    ensures Pow2(Depth(a)) <= a < 2 * Pow2(Depth(a))
  {
    if a > 1 {
      DepthBounds(a / 2);
    }
  }

  lemma HalfSplit(a: nat, p: nat)
    requires p > 0
    ensures a / (2 * p) == a / 2 / p && a % (2 * p) == 2 * (a / 2 % p) + a % 2
  {
    var (q, r) := (a / 2 / p, a / 2 % p);
    DivMod(a / 2, p);
    assert 2 * (q * p) == q * (2 * p);
    QuotientUnique(a, 2 * p, q, 2 * r + a % 2);
  }

  /** The side of the root is the path bit below the leading one; the axis within it drops
      that bit and keeps a leading one. */
  lemma {:induction false} CapMasBits(a: nat)
    requires a >= 2
    ensures var d := Depth(a);
            && d >= 1
            && a / Pow2(d - 1) % 2 == Cap(a) - 2
            && Mas(a) == a % Pow2(d - 1) + Pow2(d - 1)
  {
    var d := Depth(a);
    if a <= 3 {
      assert Pow2(0) == 1;
    } else {
      CapMasBits(a / 2);
      HalfSplit(a, Pow2(d - 2));
    }
  }

  /** A walk that meets a leaf before its last path bit finds nothing. */
  lemma {:induction false} SlotStuck(a: nat, i: nat, n: Noun)
    requires Pow2(i + 1) <= a
    requires Half(Slot(a / Pow2(i + 1), n), true).None?
    ensures Slot(a, n) == None
    decreases i
  {
    if i == 0 {
      assert Pow2(1) == 2;
    } else {
      ShiftStep(a, i);
      assert Pow2(i) <= a / 2;
      SlotStuck(a / 2, i - 1, n);
      assert a >= 2;
    }
  }

  /** One step of the walk: the prefix of the axis grows by one path bit. */
  lemma WalkStep(a: nat, i: nat, n: Noun, m: Noun)
    requires a / Pow2(i + 1) >= 1 && Slot(a / Pow2(i + 1), n) == Some(m)
    ensures a / Pow2(i) >= 1
    ensures m.Cell? ==> Slot(a / Pow2(i), n) == Some(if a / Pow2(i) % 2 == 1 then m.tail else m.head)
    ensures m.Atom? ==> Slot(a, n) == None
  {
    ShiftStep(a, i);
    if m.Atom? {
      DivMod(a, Pow2(i + 1));
      MulLe(1, a / Pow2(i + 1), Pow2(i + 1));
      SlotStuck(a, i, n);
    }
  }

  lemma TopBit(a: nat)
    requires a >= 1
    ensures a / Pow2(Depth(a)) == 1
  {
    DepthBounds(a);
    QuotientUnique(a, Pow2(Depth(a)), 1, a - Pow2(Depth(a)));
  }

  /** The loop of `slot`: the path bits, most significant first. */
  method SlotWalk(axis: Noun, n: Noun) returns (r: Option<Noun>)
    ensures r == SlotNoun(axis, n)
  {
    if !IsDirect(axis) || axis.v == 0 {
      return None;
    }
    var a := axis.v;
    var depth, tmp := 0, a;
    while tmp > 1
      invariant tmp >= 1 && depth + Depth(tmp) == Depth(a)
    {
      tmp, depth := tmp / 2, depth + 1;
    }
    TopBit(a);
    var i, subject := depth, n;
    while i > 0
      invariant i <= depth && a / Pow2(i) >= 1
      invariant Slot(a / Pow2(i), n) == Some(subject)
    {
      i := i - 1;
      WalkStep(a, i, n, subject);
      if !subject.Cell? {
        return None;
      }
      subject := if a / Pow2(i) % 2 == 1 then subject.tail else subject.head;
    }
    return Some(subject);
  }

  /** `hax`: the edit from the root down, rebuilding cells on the way back. */
  function HaxDown(a: nat, v: Noun, n: Noun): (r: Option<Noun>)
    decreases a
  {
    if a == 0 then None
    else if a == 1 then Some(v)
    else if n.Atom? then None
    else
      CapMasBits(a); PegCapMas(a);
      var d := Depth(a);
      var first := a / Pow2(d - 1) % 2;
      var sub := a % Pow2(d - 1) + Pow2(d - 1);
      Refit(Some(n), first == 1, HaxDown(sub, v, if first == 0 then n.head else n.tail))
  }

  /** The top-down edit is the `#` of the rules. */
  lemma {:induction false} HaxIsEdit(a: nat, v: Noun, n: Noun)
    ensures HaxDown(a, v, n) == Edit(a, v, n)
    decreases a
  {
    if a >= 2 {
      EditCell(a, v, n);
      CapMasBits(a);
      PegCapMas(a);
      if n.Cell? {
        HaxIsEdit(Mas(a), v, if Cap(a) == 2 then n.head else n.tail);
      }
    }
  }

  /** An evaluation that came back, or the `longjmp` that left it. */
  datatype Ran<+T> = Ok(val: T) | Crashed | Exhausted

  function Stopped<T, U>(r: Ran<T>): Ran<U>
    requires !r.Ok?
  {
    if r.Crashed? then Crashed else Exhausted
  }

  /** What one pass through the loop of `nock_eval` does. */
  function PassOutcome(s: Noun, f: Noun, n: nat): Outcome<Next> {
    if n == 0 then Abort else AfterTick(s, f, n - 1)
  }

  function AfterTick(s: Noun, f: Noun, n: nat): Outcome<Next> {
    var o := EvalAll(s, Operands(Decode(f)), n);
    if o.Abort? then Abort
    else if o.Crash? then Crash(o.left)
    else
      var next := Finish(Decode(f), s, o.val);
      if next == Answer(None) then Crash(o.left) else Done(next, o.left)
  }

  lemma EvalPass(s: Noun, f: Noun, n: nat)
    ensures var o := PassOutcome(s, f, n);
            && o.Within(n) && (n > 0 && !o.Abort? ==> o.left < n)
            && Eval(s, f, n) ==
               if o.Abort? then Abort
               else if o.Crash? then Crash(o.left)
               else if o.val.Answer? then Done(o.val.val.value, o.left)
               else Eval(o.val.s, o.val.f, o.left)
  {
  }

  class Machine {
    var budgetMax: nat  // 0 is unlimited
    var opsUsed: nat
    var abortReason: nat

    constructor ()
      ensures budgetMax == 0 && opsUsed == 0 && abortReason == 0
    {
      budgetMax, opsUsed, abortReason := 0, 0, 0;
    }

    method BudgetSet(maxOps: nat)
      modifies this
      ensures budgetMax == maxOps && opsUsed == 0 && abortReason == 0
    {
      budgetMax, opsUsed, abortReason := maxOps, 0, 0;
    }

    method BudgetTick() returns (ok: bool)
      modifies this`opsUsed, this`abortReason
      ensures ok == (budgetMax == 0 || old(opsUsed) < budgetMax)
      ensures opsUsed == old(opsUsed) + (if ok then 1 else 0)
      ensures abortReason == if ok then old(abortReason) else 1
    {
      if budgetMax != 0 && opsUsed >= budgetMax {
        abortReason := 1;
        return false;
      }
      opsUsed := opsUsed + 1;
      return true;
    }

    /** `ticks` bounds a run that ends as `o`: it is the budget left, or, when there is no
        limit, any number of ticks in which the evaluation ends. */
    ghost predicate Covers<T>(o: Outcome<T>, ticks: nat)
      reads this
    {
      if budgetMax == 0 then !o.Abort? else opsUsed + ticks == budgetMax
    }

    ghost predicate Ended<T>(r: Ran<T>, o: Outcome<T>, limit: int)
      reads this
    {
      if o.Done? then r == Ok(o.val) && opsUsed == limit - o.left
      else if o.Crash? then r == Crashed && opsUsed == limit - o.left
      else r == Exhausted && opsUsed == budgetMax && abortReason == 1
    }

    /** The nested calls of an opcode, in order, up to the first that does not answer. */
    method EvalOperands(s: Noun, fs: seq<Noun>, ghost ticks: nat) returns (r: Ran<seq<Noun>>)
      requires Covers(EvalAll(s, fs, ticks), ticks)
      modifies this`opsUsed, this`abortReason
      ensures Ended(r, EvalAll(s, fs, ticks), old(opsUsed) + ticks)
      decreases ticks, 1 + |fs|
    {
      if fs == [] {
        return Ok([]);
      }
      var x := NockEval(s, fs[0], ticks);
      match x {
        case Crashed => return Crashed;
        case Exhausted => return Exhausted;
        case Ok(v) =>
          var rest := EvalOperands(s, fs[1..], Eval(s, fs[0], ticks).left);
          return if rest.Ok? then Ok([v] + rest.val) else rest;
      }
    }

    /** One pass through the loop body: tick, take the formula apart, run its opcode. */
    method Pass(s: Noun, f: Noun, ghost ticks: nat) returns (r: Ran<Next>)
      requires Covers(PassOutcome(s, f, ticks), ticks)
      modifies this`opsUsed, this`abortReason
      ensures Ended(r, PassOutcome(s, f, ticks), old(opsUsed) + ticks)
      decreases ticks, 0
    {
      hide Edit, Slot, HaxDown, Eval;
      var ok := BudgetTick();
      if !ok { return Exhausted; }
      ghost var t := ticks - 1;
      if !f.Cell? { return Crashed; }
      var (head, tail) := (f.head, f.tail);
      if head.Cell? {
        var vs := EvalOperands(s, [head, tail], t);
        if !vs.Ok? { return Stopped(vs); }
        return Ok(Answer(Some(Cell(vs.val[0], vs.val[1]))));
      }
      if !IsDirect(head) { return Crashed; }
      match head.v {
        case 0 =>
          var x := SlotWalk(tail, s);
          return if x.Some? then Ok(Answer(x)) else Crashed;
        case 1 =>
          return Ok(Answer(Some(tail)));
        case 3 =>
          var vs := EvalOperands(s, [tail], t);
          if !vs.Ok? { return Stopped(vs); }
          return Ok(Answer(Some(if vs.val[0].Cell? then YES else NO)));
        case 4 =>
          var vs := EvalOperands(s, [tail], t);
          if !vs.Ok? { return Stopped(vs); }
          if !vs.val[0].Atom? { return Crashed; }
          return Ok(Answer(Some(Atom(vs.val[0].v + 1))));
        case _ =>
          if !tail.Cell? { return Crashed; }
          r := PassArgs(s, head.v, tail.head, tail.tail, t);
      }
    }

    /** The opcodes whose argument is a cell `[b c]`. */
    method PassArgs(s: Noun, op: nat, b: Noun, c: Noun, ghost t: nat) returns (r: Ran<Next>)
      requires op < DIRECT_LIMIT && op !in {0, 1, 3, 4}
      requires Covers(AfterTick(s, Cell(Atom(op), Cell(b, c)), t), t)
      modifies this`opsUsed, this`abortReason
      ensures Ended(r, AfterTick(s, Cell(Atom(op), Cell(b, c)), t), old(opsUsed) + t)
      decreases t, 4
    {
      hide Edit, Slot, HaxDown, Eval;
      match op {
        case 2 =>
          var vs := EvalOperands(s, [b, c], t);
          if !vs.Ok? { return Stopped(vs); }
          return Ok(Jump(vs.val[0], vs.val[1]));
        case 5 =>
          var vs := EvalOperands(s, [b, c], t);
          if !vs.Ok? { return Stopped(vs); }
          return Ok(Answer(Some(if vs.val[0] == vs.val[1] then YES else NO)));
        case 6 =>
          if !c.Cell? { return Crashed; }
          var vs := EvalOperands(s, [b], t);
          if !vs.Ok? { return Stopped(vs); }
          if vs.val[0] == YES { return Ok(Jump(s, c.head)); }
          if vs.val[0] == NO { return Ok(Jump(s, c.tail)); }
          return Crashed;
        case 7 =>
          var vs := EvalOperands(s, [b], t);
          if !vs.Ok? { return Stopped(vs); }
          return Ok(Jump(vs.val[0], c));
        case 8 =>
          var vs := EvalOperands(s, [b], t);
          if !vs.Ok? { return Stopped(vs); }
          return Ok(Jump(Cell(vs.val[0], s), c));
        case 9 =>
          var vs := EvalOperands(s, [c], t);
          if !vs.Ok? { return Stopped(vs); }
          var arm := SlotWalk(b, vs.val[0]);
          return if arm.Some? then Ok(Jump(vs.val[0], arm.value)) else Crashed;
        case 10 =>
          if !b.Cell? || !IsDirect(b.head) { return Crashed; }
          var vs := EvalOperands(s, [b.tail, c], t);
          if !vs.Ok? { return Stopped(vs); }
          HaxIsEdit(b.head.v, vs.val[0], vs.val[1]);
          var x := HaxDown(b.head.v, vs.val[0], vs.val[1]);
          return if x.Some? then Ok(Answer(x)) else Crashed;
        case 11 =>
          if b.Cell? {
            if !PlainHint(b.head) { return Crashed; }
            var vs := EvalOperands(s, [b.tail], t);
            if !vs.Ok? { return Stopped(vs); }
          }
          return Ok(Jump(s, c));
        case _ =>
          return Crashed;
      }
    }

    /** `nock_eval` ends as the specification says, and has counted its ticks. */
    method NockEval(s: Noun, f: Noun, ghost ticks: nat) returns (r: Ran<Noun>)
      requires Covers(Eval(s, f, ticks), ticks)
      modifies this`opsUsed, this`abortReason
      ensures Ended(r, Eval(s, f, ticks), old(opsUsed) + ticks)
      decreases ticks, 1
    {
      var subject, formula := s, f;
      ghost var t := ticks;
      while true
        invariant 0 <= t <= ticks && opsUsed + t == old(opsUsed) + ticks
        invariant Covers(Eval(subject, formula, t), t)
        invariant Eval(s, f, ticks) == Eval(subject, formula, t)
        decreases t
      {
        EvalPass(subject, formula, t);
        var next := Pass(subject, formula, t);
        match next {
          case Crashed => return Crashed;
          case Exhausted => return Exhausted;
          case Ok(Answer(v)) => return Ok(v.value);
          case Ok(Jump(s1, f1)) =>
            t := PassOutcome(subject, formula, t).left;
            subject, formula := s1, f1;
        }
      }
    }
  }
}
