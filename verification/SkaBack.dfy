/** What an answer of compiled code says about Nock.  The code leaves out what the scan has settled,
    so it can answer where Nock crashes; here is where. */
module SkaBack {
  import opened Nouns
  import opened Nock
  import opened Socks
  import opened Ska
  import opened Nomm1s

  /** Whatever the formula answers on a subject the sock covers, `prod` covers. */
  ghost predicate Produces(prod: Sock, sub: Sock, f: Noun) {
    forall n: Noun, r: Noun :: Covers(sub, n) && Returns(n, f, r) ==> Covers(prod, r)
  }

  ghost predicate Answers(n: Noun, f: Noun) {
    exists r: Noun :: Returns(n, f, r)
  }

  /** On its way through the formula `f` on `n` the code comes to something that Nock must evaluate or
      check and the code does not, and that Nock fails: the formula's formula of an opcode 2 whose
      value the scan knows, the axis of an opcode 9 or the tag of a dynamic hint that is not direct. */
  ghost predicate Strays(t: Nomm1, f: Noun, n: Noun)
    decreases t
  {
    match Decode(f)
    case Dist(a, b) => t.MDist? && (Strays(t.p, a, n) || Strays(t.q, b, n))
    case Apply(b, c) =>
      if t.M2? && !t.q.Null? then Strays(t.p, b, n) || Strays(t.q, c, n)
      else (t.M2? || t.M7?) && (!Answers(n, c) || Strays(t.p, b, n))
    case IsCell(b) => t.M3? && Strays(t.p, b, n)
    case Bump(b) => t.M4? && Strays(t.p, b, n)
    case Equal(b, c) => t.M5? && (Strays(t.p, b, n) || Strays(t.q, c, n))
    case If(b, c, d) =>
      t.M6? && (Strays(t.c, b, n) || (Returns(n, b, YES) && Strays(t.y, c, n)) || (Returns(n, b, NO) && Strays(t.n, d, n)))
    case Compose(b, c) => t.M7? && (Strays(t.p, b, n) || exists v: Noun :: Returns(n, b, v) && Strays(t.q, c, v))
    case Push(b, c) => t.M8? && (Strays(t.p, b, n) || exists v: Noun :: Returns(n, b, v) && Strays(t.q, c, Cell(v, n)))
    case Invoke(ax, c) => !IsDirect(ax) || (t.M2? && Strays(t.p, c, n))
    case Hax(_, c, d) => t.M10? && (Strays(t.p, c, n) || Strays(t.q, d, n))
    case Hint(_, d) => t.M11? && Strays(t.main, d, n)
    case Clue(tag, c, d) => t.M11Clue? && (!IsDirect(tag) || Strays(t.p, c, n) || Strays(t.main, d, n))
    case _ => false
  }

  /** An answer of the code is Nock's, or the code strayed. */
  ghost predicate Back(t: Nomm1, f: Noun, n: Noun, r: Noun) {
    Returns(n, f, r) || Strays(t, f, n)
  }

  ghost predicate Reflects(t: Nomm1, sub: Sock, f: Noun) {
    forall n: Noun, r: Noun :: Covers(sub, n) && RunReturns(t, n, r) ==> Back(t, f, n, r)
  }

  lemma BackOf(t: Nomm1, sub: Sock, f: Noun, n: Noun, r: Noun)
    requires Reflects(t, sub, f) && Covers(sub, n) && RunReturns(t, n, r)
    ensures Back(t, f, n, r)
  {
  }

  // ----- One lemma for each kind of node -----

  lemma LeafReflects(t: Nomm1, sub: Sock, f: Noun)
    requires (Decode(f).Axis? && t == M0(Decode(f).ax)) || (Decode(f).Quote? && t == M1(Decode(f).val))
    ensures Reflects(t, sub, f)
  {
    hide Returns, RunReturns, Strays;
    forall n: Noun, r: Noun | Covers(sub, n) && RunReturns(t, n, r)
      ensures Back(t, f, n, r)
    {
      var vs := RunUnwind(t, n, r);
      Answered(n, f, [], r);
    }
  }

  /** Nodes that answer from two operands on the subject. */
  lemma PairReflects(t: Nomm1, p: Nomm1, q: Nomm1, sub: Sock, f: Noun, a: Noun, b: Noun)
    requires Reflects(p, sub, a) && Reflects(q, sub, b)
    requires var i := Decode(f);
             || (i == Dist(a, b) && t == MDist(p, q))
             || (i == Equal(a, b) && t == M5(p, q))
             || (i.Hax? && i.c == a && i.d == b && t == M10(i.ax, p, q))
    ensures Reflects(t, sub, f)
  {
    hide Returns, RunReturns, Reflects;
    forall n: Noun, r: Noun | Covers(sub, n) && RunReturns(t, n, r)
      ensures Back(t, f, n, r)
    {
      var vs := RunUnwind(t, n, r);
      assert Trees(t) == [p, q];
      assert RunReturns(Trees(t)[0], n, vs[0]) && RunReturns(Trees(t)[1], n, vs[1]);
      BackOf(p, sub, a, n, vs[0]);
      BackOf(q, sub, b, n, vs[1]);
      if Returns(n, a, vs[0]) && Returns(n, b, vs[1]) {
        Answered(n, f, vs, r);
      }
    }
    ReflectsIf(t, sub, f);
  }

  lemma ReflectsIf(t: Nomm1, sub: Sock, f: Noun)
    requires forall n: Noun, r: Noun :: Covers(sub, n) && RunReturns(t, n, r) ==> Back(t, f, n, r)
    ensures Reflects(t, sub, f)
  {
  }

  lemma UnaryReflects(t: Nomm1, p: Nomm1, sub: Sock, f: Noun, b: Noun)
    requires Reflects(p, sub, b)
    requires (Decode(f) == IsCell(b) && t == M3(p)) || (Decode(f) == Bump(b) && t == M4(p))
    ensures Reflects(t, sub, f)
  {
    hide Returns, RunReturns, Reflects;
    forall n: Noun, r: Noun | Covers(sub, n) && RunReturns(t, n, r)
      ensures Back(t, f, n, r)
    {
      var vs := RunUnwind(t, n, r);
      assert RunReturns(Trees(t)[0], n, vs[0]);
      BackOf(p, sub, b, n, vs[0]);
      if Returns(n, b, vs[0]) {
        Answered(n, f, vs, r);
      }
    }
    ReflectsIf(t, sub, f);
  }

  lemma IfReflects(c: Nomm1, y: Nomm1, no: Nomm1, sub: Sock, f: Noun, i: Instr)
    requires i.If? && Decode(f) == i && Reflects(c, sub, i.b) && Reflects(y, sub, i.c) && Reflects(no, sub, i.d)
    ensures Reflects(M6(c, y, no), sub, f)
  {
    hide Returns, RunReturns, Reflects;
    var t := M6(c, y, no);
    forall n: Noun, r: Noun | Covers(sub, n) && RunReturns(t, n, r)
      ensures Back(t, f, n, r)
    {
      var vs := RunUnwind(t, n, r);
      assert RunReturns(Trees(t)[0], n, vs[0]);
      BackOf(c, sub, i.b, n, vs[0]);
      if Returns(n, i.b, vs[0]) {
        var (branch, g) := if vs[0] == YES then (y, i.c) else (no, i.d);
        BackOf(branch, sub, g, n, r);
        if Returns(n, g, r) {
          Jumped(n, f, vs, r);
        }
      }
    }
    ReflectsIf(t, sub, f);
  }

  /** Opcodes 7 and 8. */
  lemma ChainReflects(t: Nomm1, p: Nomm1, q: Nomm1, mid: Sock, inner: Sock, sub: Sock, f: Noun, b: Noun, c: Noun)
    requires WF(mid) && WF(sub) && Reflects(p, sub, b) && Produces(mid, sub, b) && Reflects(q, inner, c)
    requires (Decode(f) == Compose(b, c) && t == M7(p, q) && inner == mid) || (Decode(f) == Push(b, c) && t == M8(p, q) && inner == SockKnit(mid, sub))
    ensures Reflects(t, sub, f)
  {
    hide Returns, RunReturns, Reflects, SockKnit;
    forall n: Noun, r: Noun | Covers(sub, n) && RunReturns(t, n, r)
      ensures Back(t, f, n, r)
    {
      var vs := RunUnwind(t, n, r);
      assert RunReturns(Trees(t)[0], n, vs[0]);
      BackOf(p, sub, b, n, vs[0]);
      if Returns(n, b, vs[0]) {
        var n' := if t.M7? then vs[0] else Cell(vs[0], n);
        KnitSound(mid, sub, vs[0], n);
        BackOf(q, inner, c, n', r);
        if Returns(n', c, r) {
          Jumped(n, f, vs, r);
        }
      }
    }
    ReflectsIf(t, sub, f);
  }

  lemma HintReflects(m: Nomm1, sub: Sock, f: Noun, tag: Noun, d: Noun)
    requires Decode(f) == Hint(tag, d) && Reflects(m, sub, d)
    ensures Reflects(M11(tag, m), sub, f)
  {
    hide Returns, RunReturns, Reflects;
    var t := M11(tag, m);
    forall n: Noun, r: Noun | Covers(sub, n) && RunReturns(t, n, r)
      ensures Back(t, f, n, r)
    {
      var vs := RunUnwind(t, n, r);
      BackOf(m, sub, d, n, r);
      if Returns(n, d, r) {
        Jumped(n, f, [], r);
      }
    }
    ReflectsIf(t, sub, f);
  }

  lemma ClueReflects(p: Nomm1, m: Nomm1, sub: Sock, f: Noun, i: Instr)
    requires i.Clue? && Decode(f) == i && Reflects(p, sub, i.c) && Reflects(m, sub, i.d)
    ensures Reflects(M11Clue(i.tag, p, m), sub, f)
  {
    hide Returns, RunReturns, Reflects;
    var t := M11Clue(i.tag, p, m);
    forall n: Noun, r: Noun | Covers(sub, n) && RunReturns(t, n, r)
      ensures Back(t, f, n, r)
    {
      var vs := RunUnwind(t, n, r);
      assert RunReturns(Trees(t)[0], n, vs[0]);
      BackOf(p, sub, i.c, n, vs[0]);
      BackOf(m, sub, i.d, n, r);
      if IsDirect(i.tag) && Returns(n, i.c, vs[0]) && Returns(n, i.d, r) {
        assert i.tag == Atom(i.tag.v);
        Jumped(n, f, vs, r);
      }
    }
    ReflectsIf(t, sub, f);
  }

  /** Code for opcode 12 never answers. */
  lemma ScryReflects(p: Nomm1, q: Nomm1, sub: Sock, f: Noun)
    ensures Reflects(M12(p, q), sub, f)
  {
    hide Returns, RunReturns, Strays;
    var t := M12(p, q);
    forall n: Noun, r: Noun
      ensures !RunReturns(t, n, r)
    {
      if RunReturns(t, n, r) {
        var _ := RunUnwind(t, n, r);
      }
    }
  }

  /** Opcode 2 with the formula computed at run time. */
  lemma IndirectReflects(p: Nomm1, q: Nomm1, sub: Sock, f: Noun, b: Noun, c: Noun)
    requires Decode(f) == Apply(b, c) && Reflects(p, sub, b) && Reflects(q, sub, c) && !q.Null?
    ensures Reflects(M2(p, q, 0, None), sub, f)
  {
    hide Returns, RunReturns, Reflects;
    var t := M2(p, q, 0, None);
    forall n: Noun, r: Noun | Covers(sub, n) && RunReturns(t, n, r)
      ensures Back(t, f, n, r)
    {
      var vs := RunUnwind(t, n, r);
      assert RunReturns(Trees(t)[0], n, vs[0]) && RunReturns(Trees(t)[1], n, vs[1]);
      BackOf(p, sub, b, n, vs[0]);
      BackOf(q, sub, c, n, vs[1]);
      if Returns(n, b, vs[0]) && Returns(n, c, vs[1]) {
        Jumped(n, f, vs, r);
      }
    }
    ReflectsIf(t, sub, f);
  }

  /** Opcode 2 with a known formula: its formula's formula is left out. */
  lemma DirectReflects(p: Nomm1, bell: Bell, known: Sock, sub: Sock, f: Noun, b: Noun, c: Noun)
    requires Decode(f) == Apply(b, c) && Reflects(p, sub, b)
    requires known == SockKnown(bell.fol) && Produces(known, sub, c)
    ensures Reflects(M2(p, Null, 0, Some(bell)), sub, f)
  {
    hide Returns, RunReturns, Reflects;
    var t := M2(p, Null, 0, Some(bell));
    forall n: Noun, r: Noun | Covers(sub, n) && RunReturns(t, n, r)
      ensures Back(t, f, n, r)
    {
      var vs := RunUnwind(t, n, r);
      assert RunReturns(Trees(t)[0], n, vs[0]);
      BackOf(p, sub, b, n, vs[0]);
      if Answers(n, c) && Returns(n, b, vs[0]) {
        var w: Noun :| Returns(n, c, w);
        assert w == bell.fol;
        Jumped(n, f, [vs[0], w], r);
      }
    }
    ReflectsIf(t, sub, f);
  }

  /** Opcode 2 with a known slot or quote, compiled as a composition: the same. */
  lemma InlineReflects(p: Nomm1, body: Nomm1, known: Sock, mid: Sock, sub: Sock, f: Noun, b: Noun, c: Noun)
    requires Decode(f) == Apply(b, c) && Reflects(p, sub, b) && Produces(mid, sub, b)
    requires known.cape.Known? && Produces(known, sub, c) && Reflects(body, mid, known.data)
    requires Decode(known.data).Axis? || Decode(known.data).Quote?
    ensures Reflects(M7(p, body), sub, f)
  {
    hide Returns, RunReturns, Reflects;
    var t := M7(p, body);
    forall n: Noun, r: Noun | Covers(sub, n) && RunReturns(t, n, r)
      ensures Back(t, f, n, r)
    {
      var vs := RunUnwind(t, n, r);
      assert RunReturns(Trees(t)[0], n, vs[0]);
      BackOf(p, sub, b, n, vs[0]);
      if Answers(n, c) && Returns(n, b, vs[0]) {
        var w: Noun :| Returns(n, c, w);
        assert w == known.data;
        BackOf(body, mid, w, vs[0], r);
        Jumped(n, f, [vs[0], w], r);
      }
    }
    ReflectsIf(t, sub, f);
  }

  /** Opcode 9, with the arm known or not: the code looks it up. */
  lemma ArmReflects(p: Nomm1, arm: nat, bell: Option<Bell>, sub: Sock, f: Noun, ax: Noun, c: Noun)
    requires Decode(f) == Invoke(ax, c) && Reflects(p, sub, c)
    requires IsDirect(ax) ==> arm == ax.v && (arm == 0 ==> bell.None?)
    ensures Reflects(M2(p, Null, arm, bell), sub, f)
  {
    hide Returns, RunReturns, Reflects;
    var t := M2(p, Null, arm, bell);
    forall n: Noun, r: Noun | Covers(sub, n) && RunReturns(t, n, r)
      ensures Back(t, f, n, r)
    {
      if IsDirect(ax) {
        var vs := RunUnwind(t, n, r);
        assert RunReturns(Trees(t)[0], n, vs[0]);
        BackOf(p, sub, c, n, vs[0]);
        if Returns(n, c, vs[0]) {
          assert ax == Atom(arm);
          Jumped(n, f, vs, r);
        }
      }
    }
    ReflectsIf(t, sub, f);
  }

  // ----- Code that never strays -----

  /** The tree leaves nothing out, and no axis or tag is one that Nock rejects. */
  predicate Whole(t: Nomm1, f: Noun)
    decreases t
  {
    match Decode(f)
    case Dist(a, b) => t.MDist? && Whole(t.p, a) && Whole(t.q, b)
    case Apply(b, c) => t.M2? && !t.q.Null? && Whole(t.p, b) && Whole(t.q, c)
    case IsCell(b) => t.M3? && Whole(t.p, b)
    case Bump(b) => t.M4? && Whole(t.p, b)
    case Equal(b, c) => t.M5? && Whole(t.p, b) && Whole(t.q, c)
    case If(b, c, d) => t.M6? && Whole(t.c, b) && Whole(t.y, c) && Whole(t.n, d)
    case Compose(b, c) => t.M7? && Whole(t.p, b) && Whole(t.q, c)
    case Push(b, c) => t.M8? && Whole(t.p, b) && Whole(t.q, c)
    case Invoke(ax, c) => IsDirect(ax) && t.M2? && Whole(t.p, c)
    case Hax(_, c, d) => t.M10? && Whole(t.p, c) && Whole(t.q, d)
    case Hint(_, d) => t.M11? && Whole(t.main, d)
    case Clue(tag, c, d) => t.M11Clue? && IsDirect(tag) && Whole(t.p, c) && Whole(t.main, d)
    case _ => true
  }

  lemma {:induction false} WholeNeverStrays(t: Nomm1, f: Noun, n: Noun)
    requires Whole(t, f)
    ensures !Strays(t, f, n)
    decreases t
  {
    hide Returns;
    match Decode(f)
    case Dist(a, b) => WholeNeverStrays(t.p, a, n); WholeNeverStrays(t.q, b, n);
    case Apply(b, c) => WholeNeverStrays(t.p, b, n); WholeNeverStrays(t.q, c, n);
    case IsCell(b) => WholeNeverStrays(t.p, b, n);
    case Bump(b) => WholeNeverStrays(t.p, b, n);
    case Equal(b, c) => WholeNeverStrays(t.p, b, n); WholeNeverStrays(t.q, c, n);
    case If(b, c, d) => WholeNeverStrays(t.c, b, n); WholeNeverStrays(t.y, c, n); WholeNeverStrays(t.n, d, n);
    case Compose(b, c) =>
      WholeNeverStrays(t.p, b, n);
      forall v: Noun ensures !Strays(t.q, c, v) { WholeNeverStrays(t.q, c, v); }
    case Push(b, c) =>
      WholeNeverStrays(t.p, b, n);
      forall v: Noun ensures !Strays(t.q, c, Cell(v, n)) { WholeNeverStrays(t.q, c, Cell(v, n)); }
    case Invoke(_, c) => WholeNeverStrays(t.p, c, n);
    case Hax(_, c, d) => WholeNeverStrays(t.p, c, n); WholeNeverStrays(t.q, d, n);
    case Hint(_, d) => WholeNeverStrays(t.main, d, n);
    case Clue(_, c, d) => WholeNeverStrays(t.p, c, n); WholeNeverStrays(t.main, d, n);
    case _ =>
  }
}
