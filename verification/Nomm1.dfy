/** The cooked tree of src/ska.c and its interpreter, and the two tree builders that draw on
    bounded arenas. */
module Nomm1s {
  import opened Nouns
  import opened Nock
  import opened Socks
  import opened Ska

  datatype Bell = Bell(bus: Sock, fol: Noun)

  datatype Nomm1 =
    | Null
    | M0(ax: Noun)
    | M1(val: Noun)
    | M3(p: Nomm1)
    | M4(p: Nomm1)
    | M5(p: Nomm1, q: Nomm1)
    | M6(c: Nomm1, y: Nomm1, n: Nomm1)
    | M7(p: Nomm1, q: Nomm1)
    | M8(p: Nomm1, q: Nomm1)
    | M10(ax: Noun, p: Nomm1, q: Nomm1)
    | M11(tag: Noun, main: Nomm1)
    | M11Clue(tag: Noun, p: Nomm1, main: Nomm1)
    | M12(p: Nomm1, q: Nomm1)
    | MDist(p: Nomm1, q: Nomm1)
    // The one call site; no formula tree (q) means the formula is the arm or the bell's.
    | M2(p: Nomm1, q: Nomm1, arm: nat, bell: Option<Bell>)

  /** `direct_val` of an axis.  A word that is not direct keeps some tag bits in the source;
      such an axis makes Nock crash, and what the code then does is
      left open (`Strays`). */
  function DirectVal(ax: Noun): nat {
    if IsDirect(ax) then ax.v else 0
  }

  /** `cook_nomm` when the arena holds out. */
  function Cook(n: Nomm): (r: Nomm1)
    ensures !r.Null?
  {
    match n
    case N0(ax, _) => M0(ax)
    case N1(v, _) => M1(v)
    case N3(p, _) => M3(Cook(p))
    case N4(p, _) => M4(Cook(p))
    case N5(p, q, _) => M5(Cook(p), Cook(q))
    case N6(c, y, n, _) => M6(Cook(c), Cook(y), Cook(n))
    case N7(p, q, _) => M7(Cook(p), Cook(q))
    case N8(p, q, _) => M8(Cook(p), Cook(q))
    case N9(ax, p, _) => M2(Cook(p), Null, DirectVal(ax), None)
    case N10(ax, p, q, _) => M10(ax, Cook(p), Cook(q))
    case N11(tag, m, _) => M11(tag, Cook(m))
    case N11Clue(tag, p, m, _) => M11Clue(tag, Cook(p), Cook(m))
    case N12(p, q, _) => M12(Cook(p), Cook(q))
    case NDist(p, q, _) => MDist(Cook(p), Cook(q))
    case NI2(p, q, _) => M2(Cook(p), Cook(q), 0, None)
    case NDS2(p, _, fol, arm, _, _) => M2(Cook(p), Null, arm, Some(Bell(p.prod, fol)))
  }

  // ----- run_nomm1 -----

  function Trees(t: Nomm1): (ts: seq<Nomm1>)
    ensures |ts| <= 2
  {
    match t
    case M3(p) => [p]
    case M4(p) => [p]
    case M5(p, q) => [p, q]
    case M6(c, _, _) => [c]
    case M7(p, _) => [p]
    case M8(p, _) => [p]
    case M10(_, p, q) => [p, q]
    case M11Clue(_, p, _) => [p]
    case MDist(p, q) => [p, q]
    case M2(p, q, _, _) => if q.Null? then [p] else [p, q]
    case _ => []
  }

  /** After its operands a node answers, goes into a subtree, or calls the evaluator. */
  datatype Then = Reply(val: Option<Noun>) | Into(t: Nomm1, s: Noun) | Call(s: Noun, f: Noun)

  function After(t: Nomm1, s: Noun, vs: seq<Noun>): Then
    requires |vs| == |Trees(t)|
  {
    match t
    case M0(ax) => Reply(SlotNoun(ax, s))
    case M1(v) => Reply(Some(v))
    case M3(_) => Reply(Truth(vs[0].Cell?))
    case M4(_) => Reply(Inc(Some(vs[0])))
    case M5(_, _) => Reply(Truth(vs[0] == vs[1]))
    case M6(_, y, n) =>
      if vs[0] == YES then Into(y, s) else if vs[0] == NO then Into(n, s) else Reply(None)
    case M7(_, q) => Into(q, vs[0])
    case M8(_, q) => Into(q, Cell(vs[0], s))
    case M10(ax, _, _) => Reply(if IsDirect(ax) then Edit(ax.v, vs[0], vs[1]) else None)
    case M11(_, m) => Into(m, s)
    case M11Clue(tag, _, m) =>
      if tag == Atom(HINT_WILD) || tag == Atom(HINT_TAME) then Reply(None) else Into(m, s)
    case MDist(_, _) => Reply(Some(Cell(vs[0], vs[1])))
    case M2(_, q, arm, bell) =>
      if !q.Null? then Call(vs[0], vs[1])
      else if arm != 0 then
        var fol := SlotNoun(Atom(arm), vs[0]);
        if fol.Some? then Call(vs[0], fol.value) else Reply(None)
      else if bell.Some? then Call(vs[0], bell.value.fol)
      else Reply(None)
    case _ => Reply(None)
  }

  /** `run_nomm1` with `n` ticks left, on the same budget as the evaluator. */
  function Run(t: Nomm1, s: Noun, n: nat): (o: Outcome<Noun>)
    ensures o.Within(n)
    decreases n, 0
  {
    if n == 0 then Abort else
    match RunAll(Trees(t), s, n - 1)
    case Abort => Abort
    case Crash(left) => Crash(left)
    case Done(vs, left) =>
      match After(t, s, vs)
      case Reply(v) => if v.Some? then Done(v.value, left) else Crash(left)
      case Into(t', s') => Run(t', s', left)
      case Call(s', f') => Eval(s', f', left)
  }

  function RunAll(ts: seq<Nomm1>, s: Noun, n: nat): (o: Outcome<seq<Noun>>)
    ensures o.Within(n) && (o.Done? ==> |o.val| == |ts|)
    decreases n, 1 + |ts|
  {
    if ts == [] then Done([], n) else
    match Run(ts[0], s, n)
    case Abort => Abort
    case Crash(left) => Crash(left)
    case Done(v, left) =>
      match RunAll(ts[1..], s, left)
      case Abort => Abort
      case Crash(left) => Crash(left)
      case Done(vs, left) => Done([v] + vs, left)
  }

  /** What a node does after its operands. */
  function Go(next: Then, n: nat): (o: Outcome<Noun>)
    ensures o.Within(n)
  {
    match next
    case Reply(v) => if v.Some? then Done(v.value, n) else Crash(n)
    case Into(t, s) => Run(t, s, n)
    case Call(s, f) => Eval(s, f, n)
  }

  lemma RunIs(t: Nomm1, s: Noun, n: nat)
    requires n > 0
    ensures Run(t, s, n) ==
            match RunAll(Trees(t), s, n - 1)
            case Abort => Abort
            case Crash(left) => Crash(left)
            case Done(vs, left) => Go(After(t, s, vs), left)
  {
    hide Trees, After, RunAll, Eval;
  }

  /** The tick budget is exact for cooked code as well. */
  lemma {:induction false} RunBudgetExact(t: Nomm1, s: Noun, n: nat, m: nat)
    requires !Run(t, s, n).Abort?
    ensures Run(t, s, m) == Rebudget(Run(t, s, n), n, m)
    decreases n, 0
  {
    hide Trees, After, Eval, Run, RunAll, Go;
    NoTicks(t, s);
    RunIs(t, s, n);
    if m != 0 {
      RunIs(t, s, m);
      var ts := Trees(t);
      RunBudgetExactAll(ts, s, n - 1, m - 1);
      var o := RunAll(ts, s, n - 1);
      if o.Done? && n - o.left <= m {
        RunBudgetExactAfter(After(t, s, o.val), n, o.left, m - (n - o.left));
      }
    }
  }

  lemma NoTicks(t: Nomm1, s: Noun)
    ensures Run(t, s, 0) == Abort
  {
  }

  lemma {:induction false} RunBudgetExactAfter(next: Then, n: nat, left: nat, m: nat)
    requires left < n && !Go(next, left).Abort?
    ensures Go(next, m) == Rebudget(Go(next, left), left, m)
    decreases left, 2
  {
    hide Run, RunAll, Eval;
    match next
    case Reply(_) =>
    case Into(t, s) => RunBudgetExact(t, s, left, m);
    case Call(s, f) => BudgetExact(s, f, left, m);
  }

  lemma {:induction false} RunBudgetExactAll(ts: seq<Nomm1>, s: Noun, n: nat, m: nat)
    requires !RunAll(ts, s, n).Abort?
    ensures RunAll(ts, s, m) == Rebudget(RunAll(ts, s, n), n, m)
    decreases n, 1 + |ts|
  {
    if ts != [] {
      RunBudgetExact(ts[0], s, n, m);
      var o := Run(ts[0], s, n);
      if o.Done? && n - o.left <= m {
        RunBudgetExactAll(ts[1..], s, o.left, m - (n - o.left));
      }
    }
  }

  /** `run_nomm1` answers `r`, given enough ticks. */
  ghost predicate RunReturns(t: Nomm1, s: Noun, r: Noun) {
    exists c: nat :: Run(t, s, c) == Done(r, 0)
  }

  lemma RunCost(t: Nomm1, s: Noun, r: Noun) returns (c: nat)
    requires RunReturns(t, s, r)
    ensures forall m: nat :: Run(t, s, m) == if m < c then Abort else Done(r, m - c)
  {
    c :| Run(t, s, c) == Done(r, 0);
    forall m: nat
      ensures Run(t, s, m) == if m < c then Abort else Done(r, m - c)
    {
      RunBudgetExact(t, s, c, m);
    }
  }

  lemma RunReturnsOnce(t: Nomm1, s: Noun, r: Noun, r': Noun)
    requires RunReturns(t, s, r) && RunReturns(t, s, r')
    ensures r == r'
  {
    var c := RunCost(t, s, r);
    var c' := RunCost(t, s, r');
    assert Run(t, s, c + c') == Done(r, c');
  }

  ghost predicate RunReturnsAll(ts: seq<Nomm1>, s: Noun, vs: seq<Noun>) {
    |vs| == |ts| && forall j :: 0 <= j < |ts| ==> RunReturns(ts[j], s, vs[j])
  }

  lemma {:induction false} RunCostAll(ts: seq<Nomm1>, s: Noun, vs: seq<Noun>) returns (c: nat)
    requires RunReturnsAll(ts, s, vs)
    ensures forall m: nat | m >= c :: RunAll(ts, s, m) == Done(vs, m - c)
    decreases |ts|
  {
    if ts == [] {
      c := 0;
    } else {
      var c0 := RunCost(ts[0], s, vs[0]);
      var c1 := RunCostAll(ts[1..], s, vs[1..]);
      c := c0 + c1;
      assert vs == [vs[0]] + vs[1..];
      forall m: nat | m >= c
        ensures RunAll(ts, s, m) == Done(vs, m - c)
      {
        assert Run(ts[0], s, m) == Done(vs[0], m - c0);
      }
    }
  }

  /** A node answers `r` when its operands answer and what follows them answers `r`. */
  lemma RunNode(t: Nomm1, s: Noun, vs: seq<Noun>, r: Noun)
    requires RunReturnsAll(Trees(t), s, vs)
    requires match After(t, s, vs)
             case Reply(v) => v == Some(r)
             case Into(t', s') => RunReturns(t', s', r)
             case Call(s', f') => Returns(s', f', r)
    ensures RunReturns(t, s, r)
  {
    var c := RunCostAll(Trees(t), s, vs);
    match After(t, s, vs) {
      case Reply(_) =>
        assert Run(t, s, c + 1) == Done(r, 0);
      case Into(t', s') =>
        var c1 := RunCost(t', s', r);
        assert RunAll(Trees(t), s, c + c1) == Done(vs, c1);
        assert Run(t, s, c + c1 + 1) == Done(r, 0);
      case Call(s', f') =>
        var c1 := Cost(s', f', r);
        assert RunAll(Trees(t), s, c + c1) == Done(vs, c1);
        assert Run(t, s, c + c1 + 1) == Done(r, 0);
    }
  }

  lemma RunReturned(t: Nomm1, s: Noun, n: nat)
    requires Run(t, s, n).Done?
    ensures RunReturns(t, s, Run(t, s, n).val)
  {
    var o := Run(t, s, n);
    RunBudgetExact(t, s, n, n - o.left);
    assert Run(t, s, n - o.left) == Done(o.val, 0);
  }

  lemma {:induction false} RunReturnedAll(ts: seq<Nomm1>, s: Noun, n: nat)
    requires RunAll(ts, s, n).Done?
    ensures RunReturnsAll(ts, s, RunAll(ts, s, n).val)
    decreases |ts|
  {
    if ts != [] {
      RunReturned(ts[0], s, n);
      RunReturnedAll(ts[1..], s, Run(ts[0], s, n).left);
    }
  }

  /** And a node that answers has operands that answer, and what follows them answers the same. */
  lemma RunUnwind(t: Nomm1, s: Noun, r: Noun) returns (vs: seq<Noun>)
    requires RunReturns(t, s, r)
    ensures RunReturnsAll(Trees(t), s, vs)
    ensures match After(t, s, vs)
            case Reply(v) => v == Some(r)
            case Into(t', s') => RunReturns(t', s', r)
            case Call(s', f') => Returns(s', f', r)
  {
    hide Trees, After;
    var c: nat :| Run(t, s, c) == Done(r, 0);
    var o := RunAll(Trees(t), s, c - 1);
    RunReturnedAll(Trees(t), s, c - 1);
    vs := o.val;
    match After(t, s, vs) {
      case Reply(_) =>
      case Into(t', s') => RunReturned(t', s', o.left);
      case Call(s', f') => Returned(s', f', o.left);
    }
  }

  // ----- Arenas -----

  const NOMM1_BYTES: nat := 96

  function Nodes(n: Nomm): nat {
    1 + match n
    case N3(p, _) => Nodes(p)
    case N4(p, _) => Nodes(p)
    case N5(p, q, _) => Nodes(p) + Nodes(q)
    case N6(c, y, n, _) => Nodes(c) + Nodes(y) + Nodes(n)
    case N7(p, q, _) => Nodes(p) + Nodes(q)
    case N8(p, q, _) => Nodes(p) + Nodes(q)
    case N9(_, p, _) => Nodes(p)
    case N10(_, p, q, _) => Nodes(p) + Nodes(q)
    case N11(_, m, _) => Nodes(m)
    case N11Clue(_, p, m, _) => Nodes(m) + Nodes(p)
    case N12(p, q, _) => Nodes(p) + Nodes(q)
    case NDist(p, q, _) => Nodes(p) + Nodes(q)
    case NI2(p, q, _) => Nodes(p) + Nodes(q)
    case NDS2(p, _, _, _, _, _) => Nodes(p)
    case _ => 0
  }

  /** `cook_nomm` with `left` bytes of arena: a node that does not fit is a null pointer, and
      the nodes above it are built all the same. */
  function CookIn(n: Nomm, left: nat): (r: (Nomm1, nat))
    ensures r.1 <= left
  {
    if left < NOMM1_BYTES then (Null, left) else
    var left := left - NOMM1_BYTES;
    match n
    case N0(ax, _) => (M0(ax), left)
    case N1(v, _) => (M1(v), left)
    case N3(p, _) => var (p, left) := CookIn(p, left); (M3(p), left)
    case N4(p, _) => var (p, left) := CookIn(p, left); (M4(p), left)
    case N5(p, q, _) => var (p, left) := CookIn(p, left); var (q, left) := CookIn(q, left); (M5(p, q), left)
    case N6(c, y, n, _) =>
      var (c, left) := CookIn(c, left);
      var (y, left) := CookIn(y, left);
      var (n, left) := CookIn(n, left);
      (M6(c, y, n), left)
    case N7(p, q, _) => var (p, left) := CookIn(p, left); var (q, left) := CookIn(q, left); (M7(p, q), left)
    case N8(p, q, _) => var (p, left) := CookIn(p, left); var (q, left) := CookIn(q, left); (M8(p, q), left)
    case N9(ax, p, _) => var (p, left) := CookIn(p, left); (M2(p, Null, DirectVal(ax), None), left)
    case N10(ax, p, q, _) => var (p, left) := CookIn(p, left); var (q, left) := CookIn(q, left); (M10(ax, p, q), left)
    case N11(tag, m, _) => var (m, left) := CookIn(m, left); (M11(tag, m), left)
    case N11Clue(tag, p, m, _) =>
      var (m, left) := CookIn(m, left);
      var (p, left) := CookIn(p, left);
      (M11Clue(tag, p, m), left)
    case N12(p, q, _) => var (p, left) := CookIn(p, left); var (q, left) := CookIn(q, left); (M12(p, q), left)
    case NDist(p, q, _) => var (p, left) := CookIn(p, left); var (q, left) := CookIn(q, left); (MDist(p, q), left)
    case NI2(p, q, _) => var (p, left) := CookIn(p, left); var (q, left) := CookIn(q, left); (M2(p, q, 0, None), left)
    case NDS2(p, _, fol, arm, _, _) =>
      var bell := Bell(p.prod, fol);
      var (p, left) := CookIn(p, left);
      (M2(p, Null, arm, Some(bell)), left)
  }

  ghost predicate Fits(n: Nomm, left: nat) {
    var (t, left') := CookIn(n, left);
    if left >= NOMM1_BYTES * Nodes(n) then t == Cook(n) && left' == left - NOMM1_BYTES * Nodes(n)
    else t != Cook(n)
  }

  /** Cooking gives the whole tree exactly when the arena holds all its nodes. */
  lemma {:induction false} CookFits(n: Nomm, left: nat)
    ensures Fits(n, left)
    decreases n, 1
  {
    if left >= NOMM1_BYTES && !n.N0? && !n.N1? {
      if n.N6? {
        CookFitsIf(n, left);
      } else if n.N3? || n.N4? || n.N9? || n.N11? || n.NDS2? {
        CookFitsOne(n, left);
      } else if n.N11Clue? {
        CookFitsClue(n, left);
      } else {
        CookFitsPair(n, left);
      }
    }
  }

  lemma {:induction false} CookFitsOne(n: Nomm, left: nat)
    requires left >= NOMM1_BYTES && (n.N3? || n.N4? || n.N9? || n.N11? || n.NDS2?)
    ensures Fits(n, left)
    decreases n, 0
  {
    CookFits(if n.N11? then n.main else n.p, left - NOMM1_BYTES);
  }

  lemma {:induction false} CookFitsIf(n: Nomm, left: nat)
    requires left >= NOMM1_BYTES && n.N6?
    ensures Fits(n, left)
    decreases n, 0
  {
    var left1 := left - NOMM1_BYTES;
    var left2 := CookIn(n.c, left1).1;
    CookFits(n.c, left1);
    CookFits(n.y, left2);
    CookFits(n.n, CookIn(n.y, left2).1);
  }

  lemma {:induction false} CookFitsClue(n: Nomm, left: nat)
    requires left >= NOMM1_BYTES && n.N11Clue?
    ensures Fits(n, left)
    decreases n, 0
  {
    CookFits(n.main, left - NOMM1_BYTES);
    CookFits(n.p, CookIn(n.main, left - NOMM1_BYTES).1);
  }

  lemma {:induction false} CookFitsPair(n: Nomm, left: nat)
    requires left >= NOMM1_BYTES
    requires n.N5? || n.N7? || n.N8? || n.N10? || n.N12? || n.NDist? || n.NI2?
    ensures Fits(n, left)
    decreases n, 0
  {
    CookFits(n.p, left - NOMM1_BYTES);
    CookFits(n.q, CookIn(n.p, left - NOMM1_BYTES).1);
  }
}
