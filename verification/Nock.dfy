/** The evaluator of src/nock.c against the reduction rules of Nock 4K.
    Jets are absent (no %wild registration is ever active). */
module Nock {
  import opened Nouns

  // Hint tags that change the machine; a program that uses them is outside the model.
  const HINT_WILD: nat := 0x646C6977
  const HINT_TAME: nat := 0x656D6174

  predicate PlainHint(tag: Noun) {
    IsDirect(tag) && tag.v != HINT_WILD && tag.v != HINT_TAME
  }

  function SlotNoun(ax: Noun, n: Noun): Option<Noun> {
    if IsDirect(ax) then Slot(ax.v, n) else None
  }

  // ----- The reduction rules -----

  function Inc(n: Option<Noun>): Option<Noun> {
    if n.Some? && n.value.Atom? then Some(Atom(n.value.v + 1)) else None
  }

  function Pair(a: Option<Noun>, b: Option<Noun>): Option<Noun> {
    if a.Some? && b.Some? then Some(Cell(a.value, b.value)) else None
  }

  /** `[2 [0 1] 0 b]`: evaluate the arm at `b` of a core, with the core as its subject. */
  function InvokeTail(b: Noun): Noun {
    Cell(Atom(2), Cell(Cell(Atom(0), Atom(1)), Cell(Atom(0), b)))
  }

  /** `*[*a *b]`, for a subject and a formula that may be missing. */
  function Star(s: Option<Noun>, f: Option<Noun>, k: nat, bound: nat): Option<Noun>
    decreases k, 1
  {
    if s.Some? && f.Some? then Reduce(s.value, f.value, k, bound) else None
  }

  /** `*[s f]` by the rules of Nock 4K, with at most `k` nested reductions and axes below
      `bound`.  Opcodes 6, 9 and 11 are the macros of the rules, not a direct reading. */
  function Reduce(s: Noun, f: Noun, k: nat, bound: nat): Option<Noun>
    decreases k, 0
  {
    if k == 0 then None else
    match f
    case Atom(_) => None
    case Cell(Cell(b, c), d) => Pair(Reduce(s, Cell(b, c), k - 1, bound), Reduce(s, d, k - 1, bound))
    case Cell(Atom(op), t) =>
      if op == 0 then
        if t.Atom? && t.v < bound then Slot(t.v, s) else None
      else if op == 1 then Some(t)
      else if op == 3 then
        var r := Reduce(s, t, k - 1, bound);
        if r.Some? then Some(if r.value.Cell? then Atom(0) else Atom(1)) else None
      else if op == 4 then Inc(Reduce(s, t, k - 1, bound))
      else if t.Atom? then None
      else
        var (b, c) := (t.head, t.tail);
        match op
        case 2 => Star(Reduce(s, b, k - 1, bound), Reduce(s, c, k - 1, bound), k - 1, bound)
        case 5 =>
          var (x, y) := (Reduce(s, b, k - 1, bound), Reduce(s, c, k - 1, bound));
          if x.Some? && y.Some? then Some(if x.value == y.value then Atom(0) else Atom(1)) else None
        case 6 =>
          if c.Atom? then None else
          var side := Reduce(s, Cell(Atom(4), Cell(Atom(4), b)), k - 1, bound);
          var axis := Star(Some(Cell(Atom(2), Atom(3))), Pair(Some(Atom(0)), side), k - 1, bound);
          var branch := Star(Some(c), Pair(Some(Atom(0)), axis), k - 1, bound);
          Star(Some(s), branch, k - 1, bound)
        case 7 => Star(Reduce(s, b, k - 1, bound), Some(c), k - 1, bound)
        case 8 => Star(Pair(Reduce(s, b, k - 1, bound), Some(s)), Some(c), k - 1, bound)
        case 9 =>
          Star(Reduce(s, c, k - 1, bound),
               Some(InvokeTail(b)), k - 1, bound)
        case 10 =>
          if b.Atom? || !b.head.Atom? || b.head.v >= bound then None else
          var (v, d) := (Reduce(s, b.tail, k - 1, bound), Reduce(s, c, k - 1, bound));
          if v.Some? && d.Some? then Edit(b.head.v, v.value, d.value) else None
        case 11 =>
          if b.Atom? then Reduce(s, c, k - 1, bound)
          else if !b.head.Atom? || b.head.v >= bound || b.head.v == HINT_WILD || b.head.v == HINT_TAME then None
          else Star(Pair(Reduce(s, b.tail, k - 1, bound), Reduce(s, c, k - 1, bound)),
                    Some(Cell(Atom(0), Atom(3))), k - 1, bound)
        case _ => None
  }

  /** More nested reductions, or a wider axis bound, never change an answer. */
  lemma {:induction false} ReduceMonotone(s: Noun, f: Noun, k: nat, k': nat, bound: nat, bound': nat)
    requires Reduce(s, f, k, bound).Some? && k <= k' && bound <= bound' && 4 <= bound
    ensures Reduce(s, f, k', bound') == Reduce(s, f, k, bound)
    decreases k, 0
  {
    var (j, j') := (k - 1, k' - 1);
    var (op, t) := (f.head, f.tail);
    if op.Cell? {
      ReduceMonotone(s, op, j, j', bound, bound');
      ReduceMonotone(s, t, j, j', bound, bound');
    } else if op.v == 3 || op.v == 4 {
      ReduceMonotone(s, t, j, j', bound, bound');
    } else if t.Cell? {
      var (b, c) := (t.head, t.tail);
      match op.v {
        case 2 =>
          ReduceMonotone(s, b, j, j', bound, bound');
          ReduceMonotone(s, c, j, j', bound, bound');
          StarMonotone(Reduce(s, b, j, bound), Reduce(s, c, j, bound), j, j', bound, bound');
        case 5 =>
          ReduceMonotone(s, b, j, j', bound, bound');
          ReduceMonotone(s, c, j, j', bound, bound');
        case 6 =>
          var test := Cell(Atom(4), Cell(Atom(4), b));
          var (quote, zero) := (Some(Cell(Atom(2), Atom(3))), Some(Atom(0)));
          ReduceMonotone(s, test, j, j', bound, bound');
          var side := Pair(zero, Reduce(s, test, j, bound));
          StarMonotone(quote, side, j, j', bound, bound');
          var axis := Pair(zero, Star(quote, side, j, bound));
          StarMonotone(Some(c), axis, j, j', bound, bound');
          StarMonotone(Some(s), Star(Some(c), axis, j, bound), j, j', bound, bound');
        case 7 =>
          ReduceMonotone(s, b, j, j', bound, bound');
          StarMonotone(Reduce(s, b, j, bound), Some(c), j, j', bound, bound');
        case 8 =>
          ReduceMonotone(s, b, j, j', bound, bound');
          StarMonotone(Pair(Reduce(s, b, j, bound), Some(s)), Some(c), j, j', bound, bound');
        case 9 =>
          ReduceMonotone(s, c, j, j', bound, bound');
          StarMonotone(Reduce(s, c, j, bound), Some(InvokeTail(b)), j, j', bound, bound');
        case 10 =>
          ReduceMonotone(s, b.tail, j, j', bound, bound');
          ReduceMonotone(s, c, j, j', bound, bound');
        case 11 =>
          ReduceMonotone(s, c, j, j', bound, bound');
          if b.Cell? {
            ReduceMonotone(s, b.tail, j, j', bound, bound');
            StarMonotone(Pair(Reduce(s, b.tail, j, bound), Reduce(s, c, j, bound)),
                         Some(Cell(Atom(0), Atom(3))), j, j', bound, bound');
          }
        case _ =>
      }
    }
  }

  lemma {:induction false} StarMonotone(s: Option<Noun>, f: Option<Noun>, k: nat, k': nat, bound: nat, bound': nat)
    requires Star(s, f, k, bound).Some? && k <= k' && bound <= bound' && 4 <= bound
    ensures Star(s, f, k', bound') == Star(s, f, k, bound)
    decreases k, 1
  {
    ReduceMonotone(s.value, f.value, k, k', bound, bound');
  }

  // ----- The evaluator -----

  /** A formula noun taken apart the way the evaluator and the scanner take it apart. */
  datatype Instr =
    | Dist(p: Noun, q: Noun)
    | Axis(ax: Noun)
    | Quote(val: Noun)
    | Apply(b: Noun, c: Noun)
    | IsCell(b: Noun)
    | Bump(b: Noun)
    | Equal(b: Noun, c: Noun)
    | If(b: Noun, c: Noun, d: Noun)
    | Compose(b: Noun, c: Noun)
    | Push(b: Noun, c: Noun)
    | Invoke(ax: Noun, c: Noun)
    | Hax(ax: Noun, c: Noun, d: Noun)
    | Hint(tag: Noun, d: Noun)
    | Clue(tag: Noun, c: Noun, d: Noun)
    | Scry(b: Noun, c: Noun)
    | Bad

  function Decode(f: Noun): Instr {
    if f.Atom? then Bad
    else if f.head.Cell? then Dist(f.head, f.tail)
    else if !IsDirect(f.head) then Bad
    else
      var t := f.tail;
      match f.head.v
      case 0 => Axis(t)
      case 1 => Quote(t)
      case 3 => IsCell(t)
      case 4 => Bump(t)
      case _ =>
        if t.Atom? then Bad else
        match f.head.v
        case 2 => Apply(t.head, t.tail)
        case 5 => Equal(t.head, t.tail)
        case 6 => if t.tail.Atom? then Bad else If(t.head, t.tail.head, t.tail.tail)
        case 7 => Compose(t.head, t.tail)
        case 8 => Push(t.head, t.tail)
        case 9 => Invoke(t.head, t.tail)
        case 10 => if t.head.Atom? then Bad else Hax(t.head.head, t.head.tail, t.tail)
        case 11 => if t.head.Atom? then Hint(t.head, t.tail) else Clue(t.head.head, t.head.tail, t.tail)
        case 12 => Scry(t.head, t.tail)
        case _ => Bad
  }

  /** The formulas an instruction evaluates against its own subject, in order.
      An edit axis and a hint tag are checked before anything is evaluated. */
  function Operands(i: Instr): (fs: seq<Noun>)
    ensures |fs| <= 2
  {
    match i
    case Dist(p, q) => [p, q]
    case Apply(b, c) => [b, c]
    case IsCell(b) => [b]
    case Bump(b) => [b]
    case Equal(b, c) => [b, c]
    case If(b, _, _) => [b]
    case Compose(b, _) => [b]
    case Push(b, _) => [b]
    case Invoke(_, c) => [c]
    case Hax(ax, c, d) => if IsDirect(ax) then [c, d] else []
    case Clue(tag, c, _) => if PlainHint(tag) then [c] else []
    case _ => []
  }

  /** What an instruction does with its operands: answer, crash, or go round the loop. */
  datatype Next = Answer(val: Option<Noun>) | Jump(s: Noun, f: Noun)

  function Truth(b: bool): Option<Noun> {
    Some(if b then YES else NO)
  }

  function Finish(i: Instr, s: Noun, vs: seq<Noun>): Next
    requires |vs| == |Operands(i)|
  {
    match i
    case Axis(ax) => Answer(SlotNoun(ax, s))
    case Quote(v) => Answer(Some(v))
    case Dist(_, _) => Answer(Some(Cell(vs[0], vs[1])))
    case Apply(_, _) => Jump(vs[0], vs[1])
    case IsCell(_) => Answer(Truth(vs[0].Cell?))
    case Bump(_) => Answer(Inc(Some(vs[0])))
    case Equal(_, _) => Answer(Truth(vs[0] == vs[1]))
    case If(_, c, d) =>
      if vs[0] == YES then Jump(s, c) else if vs[0] == NO then Jump(s, d) else Answer(None)
    case Compose(_, c) => Jump(vs[0], c)
    case Push(_, c) => Jump(Cell(vs[0], s), c)
    case Invoke(ax, _) =>
      var arm := SlotNoun(ax, vs[0]);
      if arm.Some? then Jump(vs[0], arm.value) else Answer(None)
    case Hax(ax, _, _) => Answer(if IsDirect(ax) then Edit(ax.v, vs[0], vs[1]) else None)
    case Hint(_, d) => Jump(s, d)
    case Clue(tag, _, d) => if PlainHint(tag) then Jump(s, d) else Answer(None)
    case _ => Answer(None)
  }

  /** How an evaluation with a tick budget ends; `left` is what remains of the budget. */
  datatype Outcome<+T> = Done(val: T, left: nat) | Crash(left: nat) | Abort {
    predicate Within(n: nat) {
      Abort? || left <= n
    }
  }

  /** `nock_eval` with `n` ticks left.  Every entry to its loop costs one tick. */
  function Eval(s: Noun, f: Noun, n: nat): (o: Outcome<Noun>)
    ensures o.Within(n)
    decreases n, 0
  {
    if n == 0 then Abort else
    var i := Decode(f);
    match EvalAll(s, Operands(i), n - 1)
    case Abort => Abort
    case Crash(left) => Crash(left)
    case Done(vs, left) =>
      match Finish(i, s, vs)
      case Answer(v) => if v.Some? then Done(v.value, left) else Crash(left)
      case Jump(s', f') => Eval(s', f', left)
  }

  function EvalAll(s: Noun, fs: seq<Noun>, n: nat): (o: Outcome<seq<Noun>>)
    ensures o.Within(n) && (o.Done? ==> |o.val| == |fs|)
    decreases n, 1 + |fs|
  {
    if fs == [] then Done([], n) else
    match Eval(s, fs[0], n)
    case Abort => Abort
    case Crash(left) => Crash(left)
    case Done(v, left) =>
      match EvalAll(s, fs[1..], left)
      case Abort => Abort
      case Crash(left) => Crash(left)
      case Done(vs, left) => Done([v] + vs, left)
  }

  /** What an evaluation that ended as `o` with `n` ticks does with `m` ticks. */
  function Rebudget<T>(o: Outcome<T>, n: nat, m: nat): Outcome<T>
    requires !o.Abort? && o.left <= n
  {
    if m < n - o.left then Abort else o.(left := m - (n - o.left))
  }

  /** The tick budget is exact: an evaluation that ends with `n` ticks ends the same way with
      any budget that covers the ticks it used, and aborts with any smaller one. */
  lemma {:induction false} BudgetExact(s: Noun, f: Noun, n: nat, m: nat)
    requires !Eval(s, f, n).Abort?
    ensures Eval(s, f, m) == Rebudget(Eval(s, f, n), n, m)
    decreases n, 0
  {
    hide Decode, Operands, Finish;
    if m != 0 {
      var i := Decode(f);
      var fs := Operands(i);
      BudgetExactAll(s, fs, n - 1, m - 1);
      var o := EvalAll(s, fs, n - 1);
      if o.Done? && n - o.left <= m {
        var next := Finish(i, s, o.val);
        if next.Jump? {
          BudgetExact(next.s, next.f, o.left, m - (n - o.left));
        }
      }
    }
  }

  lemma {:induction false} BudgetExactAll(s: Noun, fs: seq<Noun>, n: nat, m: nat)
    requires !EvalAll(s, fs, n).Abort?
    ensures EvalAll(s, fs, m) == Rebudget(EvalAll(s, fs, n), n, m)
    decreases n, 1 + |fs|
  {
    if fs != [] {
      BudgetExact(s, fs[0], n, m);
      var o := Eval(s, fs[0], n);
      if o.Done? && n - o.left <= m {
        BudgetExactAll(s, fs[1..], o.left, m - (n - o.left));
      }
    }
  }

  /** `nock_eval` answers `r`, given enough ticks. */
  ghost predicate Returns(s: Noun, f: Noun, r: Noun) {
    exists c: nat :: Eval(s, f, c) == Done(r, 0)
  }

  lemma Returned(s: Noun, f: Noun, n: nat)
    requires Eval(s, f, n).Done?
    ensures Returns(s, f, Eval(s, f, n).val)
  {
    var o := Eval(s, f, n);
    BudgetExact(s, f, n, n - o.left);
    assert Eval(s, f, n - o.left) == Done(o.val, 0);
  }

  /** The ticks an answer costs, good for every budget. */
  lemma Cost(s: Noun, f: Noun, r: Noun) returns (c: nat)
    requires Returns(s, f, r)
    ensures forall m: nat :: Eval(s, f, m) == if m < c then Abort else Done(r, m - c)
  {
    c :| Eval(s, f, c) == Done(r, 0);
    forall m: nat
      ensures Eval(s, f, m) == if m < c then Abort else Done(r, m - c)
    {
      BudgetExact(s, f, c, m);
    }
  }

  lemma ReturnsOnce(s: Noun, f: Noun, r: Noun, r': Noun)
    requires Returns(s, f, r) && Returns(s, f, r')
    ensures r == r'
  {
    var c := Cost(s, f, r);
    var c' := Cost(s, f, r');
    assert Eval(s, f, c + c') == Done(r, c');
  }

  // ----- Taking an answer apart, and putting one together -----

  /** The operands `fs` answer `vs` on `s`. */
  ghost predicate ReturnsAll(s: Noun, fs: seq<Noun>, vs: seq<Noun>) {
    |vs| == |fs| && forall j :: 0 <= j < |fs| ==> Returns(s, fs[j], vs[j])
  }

  lemma {:induction false} ReturnedAll(s: Noun, fs: seq<Noun>, n: nat)
    requires EvalAll(s, fs, n).Done?
    ensures ReturnsAll(s, fs, EvalAll(s, fs, n).val)
    decreases |fs|
  {
    if fs != [] {
      Returned(s, fs[0], n);
      ReturnedAll(s, fs[1..], Eval(s, fs[0], n).left);
    }
  }

  lemma {:induction false} CostAll(s: Noun, fs: seq<Noun>, vs: seq<Noun>) returns (c: nat)
    requires ReturnsAll(s, fs, vs)
    ensures forall m: nat | m >= c :: EvalAll(s, fs, m) == Done(vs, m - c)
    decreases |fs|
  {
    if fs == [] {
      c := 0;
    } else {
      var c0 := Cost(s, fs[0], vs[0]);
      var c1 := CostAll(s, fs[1..], vs[1..]);
      c := c0 + c1;
      assert vs == [vs[0]] + vs[1..];
      forall m: nat | m >= c
        ensures EvalAll(s, fs, m) == Done(vs, m - c)
      {
        assert Eval(s, fs[0], m) == Done(vs[0], m - c0);
      }
    }
  }

  lemma Answered(s: Noun, f: Noun, vs: seq<Noun>, r: Noun)
    requires ReturnsAll(s, Operands(Decode(f)), vs)
    requires Finish(Decode(f), s, vs) == Answer(Some(r))
    ensures Returns(s, f, r)
  {
    var c := CostAll(s, Operands(Decode(f)), vs);
    assert Eval(s, f, c + 1) == Done(r, 0);
  }

  lemma Jumped(s: Noun, f: Noun, vs: seq<Noun>, r: Noun)
    requires ReturnsAll(s, Operands(Decode(f)), vs)
    requires var next := Finish(Decode(f), s, vs); next.Jump? && Returns(next.s, next.f, r)
    ensures Returns(s, f, r)
  {
    var next := Finish(Decode(f), s, vs);
    var c := CostAll(s, Operands(Decode(f)), vs);
    var c1 := Cost(next.s, next.f, r);
    assert EvalAll(s, Operands(Decode(f)), c + c1) == Done(vs, c1);
    assert Eval(s, f, c + c1 + 1) == Done(r, 0);
  }

  lemma Unwind(s: Noun, f: Noun, r: Noun) returns (vs: seq<Noun>)
    requires Returns(s, f, r)
    ensures ReturnsAll(s, Operands(Decode(f)), vs)
    ensures var next := Finish(Decode(f), s, vs);
            next == Answer(Some(r)) || (next.Jump? && Returns(next.s, next.f, r))
  {
    var c: nat :| Eval(s, f, c) == Done(r, 0);
    var o := EvalAll(s, Operands(Decode(f)), c - 1);
    ReturnedAll(s, Operands(Decode(f)), c - 1);
    vs := o.val;
    var next := Finish(Decode(f), s, vs);
    if next.Jump? {
      Returned(next.s, next.f, o.left);
    }
  }

  // ----- The evaluator and the rules agree -----

  lemma {:induction false} SlotPastLeaves(a: nat, x: nat, y: nat)
    requires a >= 4
    ensures Slot(a, Cell(Atom(x), Atom(y))) == None
  {
    var n := Cell(Atom(x), Atom(y));
    if a >= 8 {
      SlotPastLeaves(a / 2, x, y);
    } else {
      SlotSide(a / 2, n);
    }
  }

  lemma AxisReduces(ax: Noun, s: Noun, k: nat, bound: nat)
    requires k >= 1
    ensures Reduce(s, Cell(Atom(0), ax), k, bound) ==
            if ax.Atom? && ax.v < bound then Slot(ax.v, s) else None
  {
  }

  /** The conditional macro picks a branch on 0 or 1 and gets stuck on anything else. */
  lemma IfMacro(s: Noun, b: Noun, c: Noun, d: Noun, k: nat, bound: nat)
    requires k >= 4 && bound >= 4
    ensures Reduce(s, Cell(Atom(6), Cell(b, Cell(c, d))), k, bound) ==
            match Reduce(s, b, k - 3, bound)
            case None => None
            case Some(v) => if v == YES then Reduce(s, c, k - 1, bound)
                            else if v == NO then Reduce(s, d, k - 1, bound)
                            else None
  {
    var inner := Cell(Atom(4), b);
    assert Reduce(s, inner, k - 2, bound) == Inc(Reduce(s, b, k - 3, bound));
    assert Reduce(s, Cell(Atom(4), inner), k - 1, bound) == Inc(Inc(Reduce(s, b, k - 3, bound)));
    var side := Inc(Inc(Reduce(s, b, k - 3, bound)));
    if side.Some? {
      var (v, quote) := (side.value.v, Cell(Atom(2), Atom(3)));
      AxisReduces(Atom(v), quote, k - 1, bound);
      if v >= 4 {
        SlotPastLeaves(v, 2, 3);
      } else {
        SlotSide(v, quote);
        SlotSide(v, Cell(c, d));
        AxisReduces(Atom(v), Cell(c, d), k - 1, bound);
      }
    }
  }

  /** The invocation macro evaluates the arm of a core with the core as its subject. */
  lemma InvokeMacro(s: Noun, b: Noun, c: Noun, k: nat, bound: nat)
    requires k >= 3 && bound >= 4
    ensures Reduce(s, Cell(Atom(9), Cell(b, c)), k, bound) ==
            match Reduce(s, c, k - 1, bound)
            case None => None
            case Some(core) =>
              var arm := if b.Atom? && b.v < bound then Slot(b.v, core) else None;
              if arm.Some? then Reduce(core, arm.value, k - 2, bound) else None
  {
    var core := Reduce(s, c, k - 1, bound);
    if core.Some? {
      AxisReduces(Atom(1), core.value, k - 2, bound);
      AxisReduces(b, core.value, k - 2, bound);
      assert Reduce(core.value, InvokeTail(b), k - 1, bound) ==
             Star(core, if b.Atom? && b.v < bound then Slot(b.v, core.value) else None, k - 2, bound);
    }
  }

  /** `*[s f]` is `r` at every depth from `k0` on. */
  ghost predicate ReducesFrom(s: Noun, f: Noun, r: Noun, k0: nat) {
    forall k: nat | k >= k0 :: Reduce(s, f, k, DIRECT_LIMIT) == Some(r)
  }

  /** If the operands of `f`, and what it jumps to, reduce as the evaluator found, so does `f`. */
  lemma ReduceStep(s: Noun, f: Noun, vs: seq<Noun>, r: Noun, k0: nat)
    requires var fs := Operands(Decode(f)); |vs| == |fs| && forall j :: 0 <= j < |fs| ==>
               ReducesFrom(s, fs[j], vs[j], k0)
    requires var next := Finish(Decode(f), s, vs);
             if next.Answer? then next.val == Some(r) else ReducesFrom(next.s, next.f, r, k0)
    ensures ReducesFrom(s, f, r, k0 + 4)
  {
    forall k: nat | k >= k0 + 4
      ensures Reduce(s, f, k, DIRECT_LIMIT) == Some(r)
    {
      var (fs, next) := (Operands(Decode(f)), Finish(Decode(f), s, vs));
      assert forall j :: 0 <= j < |fs| ==> Reduce(s, fs[j], k - 1, DIRECT_LIMIT) == Some(vs[j]);
      if next.Jump? {
        assert Star(Some(next.s), Some(next.f), k - 1, DIRECT_LIMIT) == Some(r);
      }
      match Decode(f) {
        case If(b, c, d) =>
          assert f == Cell(Atom(6), Cell(b, Cell(c, d)));
          IfMacro(s, b, c, d, k, DIRECT_LIMIT);
        case Invoke(ax, c) =>
          assert f == Cell(Atom(9), Cell(ax, c));
          InvokeMacro(s, ax, c, k, DIRECT_LIMIT);
        case Clue(_, c, d) =>
          SlotSide(3, Cell(vs[0], r));
          AxisReduces(Atom(3), Cell(vs[0], r), k - 1, DIRECT_LIMIT);
        case _ =>
      }
    }
  }

  /** The smaller evaluations inside an evaluation that answered. */
  lemma {:induction false} PartsAll(s: Noun, fs: seq<Noun>, n: nat) returns (ns: seq<nat>)
    requires EvalAll(s, fs, n).Done?
    ensures |ns| == |fs|
    ensures forall j :: 0 <= j < |fs| ==>
              ns[j] <= n && Eval(s, fs[j], ns[j]).Done? && Eval(s, fs[j], ns[j]).val == EvalAll(s, fs, n).val[j]
    decreases |fs|
  {
    if fs == [] {
      ns := [];
    } else {
      var rest := PartsAll(s, fs[1..], Eval(s, fs[0], n).left);
      ns := [n] + rest;
    }
  }

  lemma Parts(s: Noun, f: Noun, n: nat) returns (vs: seq<Noun>, ns: seq<nat>, left: nat)
    requires Eval(s, f, n).Done?
    ensures var fs := Operands(Decode(f)); |vs| == |ns| == |fs| && left < n && forall j :: 0 <= j < |fs| ==>
              ns[j] < n && Eval(s, fs[j], ns[j]).Done? && Eval(s, fs[j], ns[j]).val == vs[j]
    ensures var next := Finish(Decode(f), s, vs);
            if next.Answer? then next.val == Some(Eval(s, f, n).val)
            else Eval(next.s, next.f, left).Done? && Eval(next.s, next.f, left).val == Eval(s, f, n).val
  {
    var o := EvalAll(s, Operands(Decode(f)), n - 1);
    ns := PartsAll(s, Operands(Decode(f)), n - 1);
    vs, left := o.val, o.left;
  }

  lemma {:induction false} ReduceOfEval(s: Noun, f: Noun, n: nat)
    requires Eval(s, f, n).Done?
    ensures ReducesFrom(s, f, Eval(s, f, n).val, 4 * n)
    decreases n
  {
    var fs := Operands(Decode(f));
    var vs, ns, left := Parts(s, f, n);
    forall j | 0 <= j < |fs|
      ensures ReducesFrom(s, fs[j], vs[j], 4 * (n - 1))
    {
      ReduceOfEval(s, fs[j], ns[j]);
    }
    var next := Finish(Decode(f), s, vs);
    if next.Jump? {
      ReduceOfEval(next.s, next.f, left);
    }
    ReduceStep(s, f, vs, Eval(s, f, n).val, 4 * (n - 1));
  }

  lemma {:induction false} EvalOfReduce(s: Noun, f: Noun, k: nat)
    requires Reduce(s, f, k, DIRECT_LIMIT).Some?
    ensures Returns(s, f, Reduce(s, f, k, DIRECT_LIMIT).value)
    decreases k
  {
    var (i, r) := (Decode(f), Reduce(s, f, k, DIRECT_LIMIT).value);
    var vs := ReducedOperands(s, f, k);
    var fs := Operands(i);
    var j := if i.If? then k - 3 else k - 1;
    forall x | 0 <= x < |fs|
      ensures Returns(s, fs[x], vs[x])
    {
      EvalOfReduce(s, fs[x], j);
    }
    var next := Finish(i, s, vs);
    if next.Jump? {
      EvalOfReduce(next.s, next.f, if i.Invoke? then k - 2 else k - 1);
      Jumped(s, f, vs, r);
    } else {
      Answered(s, f, vs, r);
    }
  }

  /** The same split of a reduction: what its operands reduce to, and where it goes next. */
  lemma ReducedOperands(s: Noun, f: Noun, k: nat) returns (vs: seq<Noun>)
    requires Reduce(s, f, k, DIRECT_LIMIT).Some?
    ensures var i := Decode(f); var fs := Operands(i);
            && |vs| == |fs| && k >= (if i.If? then 4 else if i.Invoke? then 3 else 1)
            && (forall x :: 0 <= x < |fs| ==>
                  Reduce(s, fs[x], if i.If? then k - 3 else k - 1, DIRECT_LIMIT) == Some(vs[x]))
            && var next := Finish(i, s, vs);
               if next.Answer? then next.val == Reduce(s, f, k, DIRECT_LIMIT)
               else Reduce(next.s, next.f, if i.Invoke? then k - 2 else k - 1, DIRECT_LIMIT) == Reduce(s, f, k, DIRECT_LIMIT)
  {
    var i := Decode(f);
    match i {
      case If(b, c, d) =>
        assert f == Cell(Atom(6), Cell(b, Cell(c, d)));
        if k >= 4 { IfMacro(s, b, c, d, k, DIRECT_LIMIT); }
        vs := [Reduce(s, b, k - 3, DIRECT_LIMIT).value];
      case Invoke(ax, c) =>
        assert f == Cell(Atom(9), Cell(ax, c));
        if k >= 3 { InvokeMacro(s, ax, c, k, DIRECT_LIMIT); }
        vs := [Reduce(s, c, k - 1, DIRECT_LIMIT).value];
      case Clue(_, c, d) =>
        vs := [Reduce(s, c, k - 1, DIRECT_LIMIT).value];
        var both := Cell(vs[0], Reduce(s, d, k - 1, DIRECT_LIMIT).value);
        SlotSide(3, both);
        AxisReduces(Atom(3), both, k - 1, DIRECT_LIMIT);
      case _ =>
        vs := ReducedPlain(s, f, k);
    }
  }

  lemma ReducedPlain(s: Noun, f: Noun, k: nat) returns (vs: seq<Noun>)
    requires Reduce(s, f, k, DIRECT_LIMIT).Some?
    requires var i := Decode(f); !i.If? && !i.Invoke? && !i.Clue?
    ensures var i := Decode(f); var fs := Operands(i);
            && |vs| == |fs| && k >= 1
            && (forall x :: 0 <= x < |fs| ==> Reduce(s, fs[x], k - 1, DIRECT_LIMIT) == Some(vs[x]))
            && var next := Finish(i, s, vs);
               if next.Answer? then next.val == Reduce(s, f, k, DIRECT_LIMIT)
               else Reduce(next.s, next.f, k - 1, DIRECT_LIMIT) == Reduce(s, f, k, DIRECT_LIMIT)
  {
    var fs := Operands(Decode(f));
    vs := if |fs| == 0 then [] else
          if |fs| == 1 then [Reduce(s, fs[0], k - 1, DIRECT_LIMIT).value] else
          [Reduce(s, fs[0], k - 1, DIRECT_LIMIT).value, Reduce(s, fs[1], k - 1, DIRECT_LIMIT).value];
  }

  /** `nock_eval` answers exactly what the reduction rules give with direct axes. */
  lemma EvalIsNock4K(s: Noun, f: Noun, r: Noun)
    ensures Returns(s, f, r) <==> exists k: nat :: Reduce(s, f, k, DIRECT_LIMIT) == Some(r)
  {
    if Returns(s, f, r) {
      var c: nat :| Eval(s, f, c) == Done(r, 0);
      ReduceOfEval(s, f, c);
      assert Reduce(s, f, 4 * c, DIRECT_LIMIT) == Some(r);
    }
    if k: nat :| Reduce(s, f, k, DIRECT_LIMIT) == Some(r) {
      EvalOfReduce(s, f, k);
    }
  }
}
