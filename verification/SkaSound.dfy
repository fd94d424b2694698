/** Compiling a formula preserves its meaning. */
module SkaSound {
  import opened Nouns
  import opened Nock
  import opened Socks
  import opened Ska
  import opened Nomm1s
  import opened SkaBack

  /** Whatever the formula answers on a subject the sock covers, the code answers. */
  ghost predicate Computes(t: Nomm1, sub: Sock, f: Noun) {
    forall n: Noun, r: Noun :: Covers(sub, n) && Returns(n, f, r) ==> RunReturns(t, n, r)
  }

  ghost predicate Good(t: Nomm, sub: Sock, f: Noun) {
    WF(t.prod) && Produces(t.prod, sub, f) && Computes(Cook(t), sub, f) && Reflects(Cook(t), sub, f)
  }

  ghost predicate MemoGood(memo: seq<Memo>) {
    forall m :: m in memo ==> WF(m.sub) && Good(m.body, m.sub, m.fol)
  }

  /** The two facts about a node for one subject and answer. */
  ghost predicate Right(t: Nomm, n: Noun, r: Noun) {
    Covers(t.prod, r) && RunReturns(Cook(t), n, r)
  }

  lemma GoodRight(t: Nomm, sub: Sock, f: Noun, n: Noun, r: Noun)
    requires Good(t, sub, f) && Covers(sub, n) && Returns(n, f, r)
    ensures Right(t, n, r)
  {
  }

  lemma GoodIfRight(t: Nomm, sub: Sock, f: Noun)
    requires WF(t.prod) && Reflects(Cook(t), sub, f)
    requires forall n: Noun, r: Noun :: Covers(sub, n) && Returns(n, f, r) ==> Right(t, n, r)
    ensures Good(t, sub, f)
  {
    forall n: Noun, r: Noun | Covers(sub, n) && Returns(n, f, r)
      ensures Covers(t.prod, r) && RunReturns(Cook(t), n, r)
    {
      assert Right(t, n, r);
    }
  }

  // ----- One lemma for each kind of node -----

  /** Two operands on the node's own subject. */
  lemma TwoRun(p: Nomm, q: Nomm, n: Noun, vs: seq<Noun>)
    requires |vs| == 2 && Right(p, n, vs[0]) && Right(q, n, vs[1])
    ensures RunReturnsAll([Cook(p), Cook(q)], n, vs)
  {
  }

  lemma OneRun(p: Nomm, n: Noun, vs: seq<Noun>)
    requires |vs| == 1 && Right(p, n, vs[0])
    ensures RunReturnsAll([Cook(p)], n, vs)
  {
  }

  lemma SlotGood(ax: Noun, sub: Sock, f: Noun)
    requires WF(sub) && Decode(f) == Axis(ax)
    ensures Good(N0(ax, SockPull(sub, ax)), sub, f)
  {
    hide Returns, RunReturns, Reflects;
    var t := N0(ax, SockPull(sub, ax));
    PullWF(sub, ax);
    forall n: Noun, r: Noun | Covers(sub, n) && Returns(n, f, r)
      ensures Right(t, n, r)
    {
      var vs := Unwind(n, f, r);
      PullSound(sub, ax.v, n);
      RunNode(Cook(t), n, [], r);
    }
    LeafReflects(Cook(t), sub, f);
    GoodIfRight(t, sub, f);
  }

  lemma QuoteGood(v: Noun, sub: Sock, f: Noun)
    requires Decode(f) == Quote(v)
    ensures Good(N1(v, SockKnown(v)), sub, f)
  {
    hide Returns, RunReturns, Reflects;
    var t := N1(v, SockKnown(v));
    forall n: Noun, r: Noun | Covers(sub, n) && Returns(n, f, r)
      ensures Right(t, n, r)
    {
      var vs := Unwind(n, f, r);
      RunNode(Cook(t), n, [], r);
    }
    LeafReflects(Cook(t), sub, f);
    GoodIfRight(t, sub, f);
  }

  lemma DistGood(p: Nomm, q: Nomm, sub: Sock, f: Noun, a: Noun, b: Noun)
    requires Decode(f) == Dist(a, b) && Good(p, sub, a) && Good(q, sub, b)
    ensures Good(NDist(p, q, SockKnit(p.prod, q.prod)), sub, f)
  {
    hide Returns, RunReturns, Reflects;
    var t := NDist(p, q, SockKnit(p.prod, q.prod));
    forall n: Noun, r: Noun | Covers(sub, n) && Returns(n, f, r)
      ensures Right(t, n, r)
    {
      var vs := Unwind(n, f, r);
      GoodRight(p, sub, a, n, vs[0]);
      GoodRight(q, sub, b, n, vs[1]);
      KnitSound(p.prod, q.prod, vs[0], vs[1]);
      TwoRun(p, q, n, vs);
      RunNode(Cook(t), n, vs, r);
    }
    KnitSound(p.prod, q.prod, YES, YES);
    PairReflects(Cook(t), Cook(p), Cook(q), sub, f, a, b);
    GoodIfRight(t, sub, f);
  }

  lemma UnaryGood(p: Nomm, sub: Sock, f: Noun, b: Noun)
    requires Good(p, sub, b)
    ensures Decode(f) == IsCell(b) ==> Good(N3(p, DUNNO), sub, f)
    ensures Decode(f) == Bump(b) ==> Good(N4(p, DUNNO), sub, f)
  {
    hide Returns, RunReturns, Reflects;
    if Decode(f) == IsCell(b) || Decode(f) == Bump(b) {
      var t := if Decode(f) == IsCell(b) then N3(p, DUNNO) else N4(p, DUNNO);
      forall n: Noun, r: Noun | Covers(sub, n) && Returns(n, f, r)
        ensures Right(t, n, r)
      {
        var vs := Unwind(n, f, r);
        GoodRight(p, sub, b, n, vs[0]);
        OneRun(p, n, vs);
        RunNode(Cook(t), n, vs, r);
      }
      UnaryReflects(Cook(t), Cook(p), sub, f, b);
      GoodIfRight(t, sub, f);
    }
  }

  lemma EqualGood(p: Nomm, q: Nomm, sub: Sock, f: Noun, b: Noun, c: Noun, prod: Sock)
    requires Decode(f) == Equal(b, c) && Good(p, sub, b) && Good(q, sub, c)
    requires prod == EqualProd(p.prod, q.prod)
    ensures Good(N5(p, q, prod), sub, f)
  {
    hide Returns, RunReturns, Reflects;
    var t := N5(p, q, prod);
    forall n: Noun, r: Noun | Covers(sub, n) && Returns(n, f, r)
      ensures Right(t, n, r)
    {
      var vs := Unwind(n, f, r);
      GoodRight(p, sub, b, n, vs[0]);
      GoodRight(q, sub, c, n, vs[1]);
      TwoRun(p, q, n, vs);
      RunNode(Cook(t), n, vs, r);
    }
    PairReflects(Cook(t), Cook(p), Cook(q), sub, f, b, c);
    GoodIfRight(t, sub, f);
  }

  lemma IfGood(c: Nomm, y: Nomm, no: Nomm, sub: Sock, f: Noun, i: Instr, prod: Sock)
    requires i.If? && Decode(f) == i && Good(c, sub, i.b) && Good(y, sub, i.c) && Good(no, sub, i.d)
    requires prod == IfProd(c.prod, y.prod, no.prod)
    ensures Good(N6(c, y, no, prod), sub, f)
  {
    hide Returns, RunReturns, Reflects;
    var t := N6(c, y, no, prod);
    forall n: Noun, r: Noun | Covers(sub, n) && Returns(n, f, r)
      ensures Right(t, n, r)
    {
      var vs := Unwind(n, f, r);
      GoodRight(c, sub, i.b, n, vs[0]);
      var branch := if vs[0] == YES then y else no;
      GoodRight(branch, sub, if vs[0] == YES then i.c else i.d, n, r);
      PurrSound(y.prod, no.prod, r);
      OneRun(c, n, vs);
      RunNode(Cook(t), n, vs, r);
    }
    PurrSound(y.prod, no.prod, YES);
    IfReflects(Cook(c), Cook(y), Cook(no), sub, f, i);
    GoodIfRight(t, sub, f);
  }

  lemma ComposeGood(p: Nomm, q: Nomm, sub: Sock, f: Noun, b: Noun, c: Noun)
    requires Decode(f) == Compose(b, c) && WF(sub) && Good(p, sub, b) && Good(q, p.prod, c)
    ensures Good(N7(p, q, q.prod), sub, f)
  {
    hide Returns, RunReturns, Reflects;
    var t := N7(p, q, q.prod);
    forall n: Noun, r: Noun | Covers(sub, n) && Returns(n, f, r)
      ensures Right(t, n, r)
    {
      var vs := Unwind(n, f, r);
      GoodRight(p, sub, b, n, vs[0]);
      GoodRight(q, p.prod, c, vs[0], r);
      OneRun(p, n, vs);
      RunNode(Cook(t), n, vs, r);
    }
    ChainReflects(Cook(t), Cook(p), Cook(q), p.prod, p.prod, sub, f, b, c);
    GoodIfRight(t, sub, f);
  }

  lemma PushGood(p: Nomm, q: Nomm, sub: Sock, f: Noun, b: Noun, c: Noun)
    requires Decode(f) == Push(b, c) && WF(sub) && Good(p, sub, b) && Good(q, SockKnit(p.prod, sub), c)
    ensures Good(N8(p, q, q.prod), sub, f)
  {
    hide Returns, RunReturns, Reflects;
    var t := N8(p, q, q.prod);
    forall n: Noun, r: Noun | Covers(sub, n) && Returns(n, f, r)
      ensures Right(t, n, r)
    {
      var vs := Unwind(n, f, r);
      GoodRight(p, sub, b, n, vs[0]);
      KnitSound(p.prod, sub, vs[0], n);
      GoodRight(q, SockKnit(p.prod, sub), c, Cell(vs[0], n), r);
      OneRun(p, n, vs);
      RunNode(Cook(t), n, vs, r);
    }
    ChainReflects(Cook(t), Cook(p), Cook(q), p.prod, SockKnit(p.prod, sub), sub, f, b, c);
    GoodIfRight(t, sub, f);
  }

  lemma HaxGood(v: Nomm, t: Nomm, sub: Sock, f: Noun, i: Instr, prod: Sock)
    requires i.Hax? && Decode(f) == i && Good(v, sub, i.c) && Good(t, sub, i.d)
    requires prod == HaxProd(i.ax, v.prod, t.prod)
    ensures Good(N10(i.ax, v, t, prod), sub, f)
  {
    hide Returns, RunReturns, Reflects;
    var node := N10(i.ax, v, t, prod);
    forall n: Noun, r: Noun | Covers(sub, n) && Returns(n, f, r)
      ensures Right(node, n, r)
    {
      var vs := Unwind(n, f, r);
      GoodRight(v, sub, i.c, n, vs[0]);
      GoodRight(t, sub, i.d, n, vs[1]);
      DarnSound(t.prod, i.ax, v.prod, vs[1], vs[0]);
      TwoRun(v, t, n, vs);
      RunNode(Cook(node), n, vs, r);
    }
    DarnSound(t.prod, i.ax, v.prod, YES, YES);
    PairReflects(Cook(node), Cook(v), Cook(t), sub, f, i.c, i.d);
    GoodIfRight(node, sub, f);
  }

  lemma HintGood(m: Nomm, sub: Sock, f: Noun, tag: Noun, d: Noun)
    requires Decode(f) == Hint(tag, d) && Good(m, sub, d)
    ensures Good(N11(tag, m, m.prod), sub, f)
  {
    hide Returns, RunReturns, Reflects;
    var t := N11(tag, m, m.prod);
    forall n: Noun, r: Noun | Covers(sub, n) && Returns(n, f, r)
      ensures Right(t, n, r)
    {
      var vs := Unwind(n, f, r);
      GoodRight(m, sub, d, n, r);
      RunNode(Cook(t), n, [], r);
    }
    HintReflects(Cook(m), sub, f, tag, d);
    GoodIfRight(t, sub, f);
  }

  lemma ClueGood(p: Nomm, m: Nomm, sub: Sock, f: Noun, i: Instr)
    requires i.Clue? && Decode(f) == i && Good(p, sub, i.c) && Good(m, sub, i.d)
    ensures Good(N11Clue(i.tag, p, m, m.prod), sub, f)
  {
    hide Returns, RunReturns, Reflects;
    var t := N11Clue(i.tag, p, m, m.prod);
    forall n: Noun, r: Noun | Covers(sub, n) && Returns(n, f, r)
      ensures Right(t, n, r)
    {
      var vs := Unwind(n, f, r);
      GoodRight(p, sub, i.c, n, vs[0]);
      GoodRight(m, sub, i.d, n, r);
      OneRun(p, n, vs);
      RunNode(Cook(t), n, vs, r);
    }
    ClueReflects(Cook(p), Cook(m), sub, f, i);
    GoodIfRight(t, sub, f);
  }

  lemma ScryGood(p: Nomm, q: Nomm, sub: Sock, f: Noun, b: Noun, c: Noun)
    requires Decode(f) == Scry(b, c)
    ensures Good(N12(p, q, DUNNO), sub, f)
  {
    forall n: Noun, r: Noun
      ensures !Returns(n, f, r)
    {
      if Returns(n, f, r) {
        var _ := Unwind(n, f, r);
      }
    }
    ScryReflects(Cook(p), Cook(q), sub, f);
  }

  /** Opcode 2 with the formula computed at run time. */
  lemma IndirectGood(p: Nomm, q: Nomm, sub: Sock, f: Noun, b: Noun, c: Noun)
    requires Decode(f) == Apply(b, c) && Good(p, sub, b) && Good(q, sub, c)
    ensures Good(NI2(p, q, DUNNO), sub, f)
  {
    hide Returns, RunReturns, Reflects;
    var t := NI2(p, q, DUNNO);
    forall n: Noun, r: Noun | Covers(sub, n) && Returns(n, f, r)
      ensures Right(t, n, r)
    {
      var vs := Unwind(n, f, r);
      GoodRight(p, sub, b, n, vs[0]);
      GoodRight(q, sub, c, n, vs[1]);
      TwoRun(p, q, n, vs);
      RunNode(Cook(t), n, vs, r);
    }
    IndirectReflects(Cook(p), Cook(q), sub, f, b, c);
    GoodIfRight(t, sub, f);
  }

  /** Opcode 2 with a known formula: the call uses the formula the scan resolved. */
  lemma DirectGood(p: Nomm, q: Nomm, body: Option<Nomm>, site: nat, prod: Sock, sub: Sock, f: Noun, b: Noun, c: Noun)
    requires Decode(f) == Apply(b, c) && Good(p, sub, b) && Good(q, sub, c)
    requires q.prod.cape.Known? && WF(prod) && Produces(prod, p.prod, q.prod.data)
    ensures Good(NDS2(p, body, q.prod.data, 0, site, prod), sub, f)
  {
    hide Returns, RunReturns, Reflects;
    var t := NDS2(p, body, q.prod.data, 0, site, prod);
    forall n: Noun, r: Noun | Covers(sub, n) && Returns(n, f, r)
      ensures Right(t, n, r)
    {
      var vs := Unwind(n, f, r);
      GoodRight(p, sub, b, n, vs[0]);
      GoodRight(q, sub, c, n, vs[1]);
      OneRun(p, n, [vs[0]]);
      RunNode(Cook(t), n, [vs[0]], r);
    }
    DirectReflects(Cook(p), Bell(p.prod, q.prod.data), q.prod, sub, f, b, c);
    GoodIfRight(t, sub, f);
  }

  /** Opcode 2 with a known slot or quote, compiled as a composition. */
  lemma InlineGood(p: Nomm, q: Nomm, body: Nomm, sub: Sock, f: Noun, b: Noun, c: Noun)
    requires Decode(f) == Apply(b, c) && Good(p, sub, b) && Good(q, sub, c)
    requires q.prod.cape.Known? && Good(body, p.prod, q.prod.data)
    requires Decode(q.prod.data).Axis? || Decode(q.prod.data).Quote?
    ensures Good(N7(p, body, body.prod), sub, f)
  {
    hide Returns, RunReturns, Reflects;
    var t := N7(p, body, body.prod);
    forall n: Noun, r: Noun | Covers(sub, n) && Returns(n, f, r)
      ensures Right(t, n, r)
    {
      var vs := Unwind(n, f, r);
      GoodRight(p, sub, b, n, vs[0]);
      GoodRight(q, sub, c, n, vs[1]);
      GoodRight(body, p.prod, q.prod.data, vs[0], r);
      OneRun(p, n, [vs[0]]);
      RunNode(Cook(t), n, [vs[0]], r);
    }
    InlineReflects(Cook(p), Cook(body), q.prod, p.prod, sub, f, b, c);
    GoodIfRight(t, sub, f);
  }

  /** Opcode 9 with the arm found at run time. */
  lemma ArmGood(p: Nomm, sub: Sock, f: Noun, ax: Noun, c: Noun)
    requires Decode(f) == Invoke(ax, c) && Good(p, sub, c)
    ensures Good(N9(ax, p, DUNNO), sub, f)
  {
    hide Returns, RunReturns, Reflects;
    var t := N9(ax, p, DUNNO);
    forall n: Noun, r: Noun | Covers(sub, n) && Returns(n, f, r)
      ensures Right(t, n, r)
    {
      var vs := Unwind(n, f, r);
      GoodRight(p, sub, c, n, vs[0]);
      OneRun(p, n, vs);
      RunNode(Cook(t), n, vs, r);
    }
    ArmReflects(Cook(p), DirectVal(ax), None, sub, f, ax, c);
    GoodIfRight(t, sub, f);
  }

  /** Opcode 9 with a known arm: the run looks the arm up again. */
  lemma KnownArmGood(p: Nomm, body: Option<Nomm>, site: nat, prod: Sock, sub: Sock, f: Noun, ax: Noun, c: Noun)
    requires Decode(f) == Invoke(ax, c) && Good(p, sub, c)
    requires var arm := SockPull(p.prod, ax); arm.cape.Known? && WF(prod) && Produces(prod, p.prod, arm.data)
    ensures IsDirect(ax)
    ensures Good(NDS2(p, body, SockPull(p.prod, ax).data, ax.v, site, prod), sub, f)
  {
    hide Returns, RunReturns, Reflects;
    var t := NDS2(p, body, SockPull(p.prod, ax).data, ax.v, site, prod);
    forall n: Noun, r: Noun | Covers(sub, n) && Returns(n, f, r)
      ensures Right(t, n, r)
    {
      var vs := Unwind(n, f, r);
      GoodRight(p, sub, c, n, vs[0]);
      PullSound(p.prod, ax.v, vs[0]);
      OneRun(p, n, vs);
      RunNode(Cook(t), n, vs, r);
    }
    ArmReflects(Cook(p), ax.v, Some(Bell(p.prod, SockPull(p.prod, ax).data)), sub, f, ax, c);
    GoodIfRight(t, sub, f);
  }

  // ----- The scan -----

  lemma MemoGoodFor(memo: seq<Memo>, m: Memo, sub: Sock)
    requires MemoGood(memo) && m in memo && WF(sub) && SockHuge(sub, m.sub)
    ensures WF(m.body.prod) && Produces(m.body.prod, sub, m.fol)
  {
    forall n: Noun, r: Noun | Covers(sub, n) && Returns(n, m.fol, r)
      ensures Covers(m.body.prod, r)
    {
      HugeSound(sub, m.sub, n);
      GoodRight(m.body, m.sub, m.fol, n, r);
    }
  }

  /** A scan from a state with good memos, if no memo misled it, ends in a state with good
      memos and with a good tree. */
  ghost predicate ScanOk(turned: bool, st: Pass, sub: Sock, f: Noun) {
    var (t, st') := Scan(turned, st, sub, f);
    MemoGood(st.memo) && WF(sub) && !st'.misled ==>
      MemoGood(st'.memo) && (t.Some? ==> Good(t.value, sub, f))
  }

  ghost predicate ScanTwoOk(turned: bool, st: Pass, sub: Sock, f: Noun, g: Noun) {
    var (r, st') := ScanTwo(turned, st, sub, f, g);
    MemoGood(st.memo) && WF(sub) && !st'.misled ==>
      MemoGood(st'.memo) && (r.Some? ==> Good(r.value.0, sub, f) && Good(r.value.1, sub, g))
  }

  /** Every tree the scan builds is good for the subjects its sock covers, as long as no memo
      was reused for a subject that its own does not cover. */
  lemma {:induction false} ScanSound(turned: bool, st0: Pass, sub: Sock, f: Noun)
    ensures ScanOk(turned, st0, sub, f)
    decreases st0.arena, 3
  {
    if f.Cell? && st0.arena >= NOMM_BYTES && MemoGood(st0.memo) && WF(sub) {
      var st := st0.(arena := st0.arena - NOMM_BYTES);
      match Decode(f) {
        case Bad =>
        case Axis(ax) => SlotGood(ax, sub, f);
        case Quote(v) => QuoteGood(v, sub, f);
        case Dist(_, _) => ScanPairCase(turned, st0, sub, f);
        case Apply(_, _) => ScanApplyCase(turned, st0, sub, f);
        case IsCell(b) => ScanUnaryCase(turned, st0, sub, f, b);
        case Bump(b) => ScanUnaryCase(turned, st0, sub, f, b);
        case Equal(_, _) => ScanPairCase(turned, st0, sub, f);
        case If(_, _, _) => ScanIfCase(turned, st0, sub, f);
        case Compose(_, _) => ScanChainCase(turned, st0, sub, f);
        case Push(_, _) => ScanChainCase(turned, st0, sub, f);
        case Invoke(_, _) => ScanInvokeCase(turned, st0, sub, f);
        case Hax(_, _, _) => ScanPairCase(turned, st0, sub, f);
        case Hint(tag, d) => ScanHintCase(turned, st0, sub, f, tag, d);
        case Clue(tag, c, d) => ScanClueCase(turned, st0, sub, f, tag, c, d);
        case Scry(_, _) => ScanPairCase(turned, st0, sub, f);
      }
    }
  }

  lemma {:induction false} ScanTwoSound(turned: bool, st: Pass, sub: Sock, f: Noun, g: Noun)
    ensures ScanTwoOk(turned, st, sub, f, g)
    decreases st.arena, 4
  {
    ScanSound(turned, st, sub, f);
    ScanSound(turned, Scan(turned, st, sub, f).1, sub, g);
  }

  /** Nodes with two operands on the subject. */
  lemma {:induction false} ScanPairCase(turned: bool, st0: Pass, sub: Sock, f: Noun)
    requires f.Cell? && st0.arena >= NOMM_BYTES && MemoGood(st0.memo) && WF(sub)
    requires var i := Decode(f); i.Dist? || i.Equal? || i.Hax? || i.Scry?
    ensures ScanOk(turned, st0, sub, f)
    decreases st0.arena, 2
  {
    hide Decode, MemoGood, FrondsHold, SockHuge, Produces, Computes, Reflects;
    var st := st0.(arena := st0.arena - NOMM_BYTES);
    var (i, t) := (Decode(f), Scan(turned, st0, sub, f).0);
    var (a, b) := match i
      case Dist(a, b) => (a, b)
      case Equal(a, b) => (a, b)
      case Scry(a, b) => (a, b)
      case Hax(_, c, d) => (c, d);
    ScanTwoSound(turned, st, sub, a, b);
    var (r, st') := ScanTwo(turned, st, sub, a, b);
    if r.Some? && !st'.misled {
      match i {
        case Dist(a, b) => DistGood(r.value.0, r.value.1, sub, f, a, b);
        case Equal(a, b) => EqualGood(r.value.0, r.value.1, sub, f, a, b, t.value.prod);
        case Scry(a, b) => ScryGood(r.value.0, r.value.1, sub, f, a, b);
        case Hax(_, _, _) => HaxGood(r.value.0, r.value.1, sub, f, i, t.value.prod);
      }
    }
  }

  lemma {:induction false} ScanUnaryCase(turned: bool, st0: Pass, sub: Sock, f: Noun, b: Noun)
    requires f.Cell? && st0.arena >= NOMM_BYTES && MemoGood(st0.memo) && WF(sub)
    requires Decode(f) == IsCell(b) || Decode(f) == Bump(b)
    ensures ScanOk(turned, st0, sub, f)
    decreases st0.arena, 2
  {
    hide Decode, MemoGood, FrondsHold, SockHuge, Produces, Computes, Reflects;
    var st := st0.(arena := st0.arena - NOMM_BYTES);
    ScanSound(turned, st, sub, b);
    var (p, st') := Scan(turned, st, sub, b);
    if p.Some? && !st'.misled {
      UnaryGood(p.value, sub, f, b);
    }
  }

  lemma {:induction false} ScanIfCase(turned: bool, st0: Pass, sub: Sock, f: Noun)
    requires f.Cell? && st0.arena >= NOMM_BYTES && MemoGood(st0.memo) && WF(sub)
    requires Decode(f).If?
    ensures ScanOk(turned, st0, sub, f)
    decreases st0.arena, 2
  {
    hide Decode, MemoGood, FrondsHold, SockHuge, Produces, Computes, Reflects;
    var st := st0.(arena := st0.arena - NOMM_BYTES);
    var i := Decode(f);
    ScanSound(turned, st, sub, i.b);
    var (c, st1) := Scan(turned, st, sub, i.b);
    ScanTwoSound(turned, st1, sub, i.c, i.d);
    var (r, st2) := ScanTwo(turned, st1, sub, i.c, i.d);
    if c.Some? && r.Some? && !st2.misled {
      IfGood(c.value, r.value.0, r.value.1, sub, f, i, Scan(turned, st0, sub, f).0.value.prod);
    }
  }

  /** Nodes whose second formula sees the first one's answer. */
  lemma {:induction false} ScanChainCase(turned: bool, st0: Pass, sub: Sock, f: Noun)
    requires f.Cell? && st0.arena >= NOMM_BYTES && MemoGood(st0.memo) && WF(sub)
    requires Decode(f).Compose? || Decode(f).Push?
    ensures ScanOk(turned, st0, sub, f)
    decreases st0.arena, 2
  {
    hide Decode, MemoGood, FrondsHold, SockHuge, Produces, Computes, Reflects;
    var st := st0.(arena := st0.arena - NOMM_BYTES);
    var i := Decode(f);
    ScanSound(turned, st, sub, i.b);
    var (p, st1) := Scan(turned, st, sub, i.b);
    if p.Some? {
      var inner := if i.Compose? then p.value.prod else SockKnit(p.value.prod, sub);
      ScanSound(turned, st1, inner, i.c);
      var (q, st2) := Scan(turned, st1, inner, i.c);
      if !st2.misled {
        KnitSound(p.value.prod, sub, YES, YES);
        if q.Some? && i.Compose? {
          ComposeGood(p.value, q.value, sub, f, i.b, i.c);
        } else if q.Some? {
          PushGood(p.value, q.value, sub, f, i.b, i.c);
        }
      }
    }
  }

  lemma {:induction false} ScanHintCase(turned: bool, st0: Pass, sub: Sock, f: Noun, tag: Noun, d: Noun)
    requires f.Cell? && st0.arena >= NOMM_BYTES && MemoGood(st0.memo) && WF(sub)
    requires Decode(f) == Hint(tag, d)
    ensures ScanOk(turned, st0, sub, f)
    decreases st0.arena, 2
  {
    hide Decode, MemoGood, FrondsHold, SockHuge, Produces, Computes, Reflects;
    var st := st0.(arena := st0.arena - NOMM_BYTES);
    ScanSound(turned, st, sub, d);
    var (m, st1) := Scan(turned, st, sub, d);
    if m.Some? && !st1.misled {
      HintGood(m.value, sub, f, tag, d);
    }
  }

  lemma {:induction false} ScanClueCase(turned: bool, st0: Pass, sub: Sock, f: Noun, tag: Noun, c: Noun, d: Noun)
    requires f.Cell? && st0.arena >= NOMM_BYTES && MemoGood(st0.memo) && WF(sub)
    requires Decode(f) == Clue(tag, c, d)
    ensures ScanOk(turned, st0, sub, f)
    decreases st0.arena, 2
  {
    hide Decode, MemoGood, FrondsHold, SockHuge, Produces, Computes, Reflects;
    var st := st0.(arena := st0.arena - NOMM_BYTES);
    ScanSound(turned, st, sub, d);
    var (m, st1) := Scan(turned, st, sub, d);
    if m.Some? {
      ScanSound(turned, st1, sub, c);
      var (p, st2) := Scan(turned, st1, sub, c);
      if p.Some? && !st2.misled {
        ClueGood(p.value, m.value, sub, f, Clue(tag, c, d));
      }
    }
  }

  /** A fresh body is good for its callers, and remembering it keeps the memos good. */
  lemma {:induction false} ScanBodySound(turned: bool, st: Pass, p: Nomm, fol: Noun, arm: nat)
    requires MemoGood(st.memo) && WF(p.prod) && !ScanBody(turned, st, p, fol, arm).1.misled
    ensures var (t, st') := ScanBody(turned, st, p, fol, arm);
            && MemoGood(st'.memo)
            && (t.Some? ==> t.value.NDS2? && t.value.p == p && t.value.fol == fol && t.value.arm == arm
                            && WF(t.value.prod) && Produces(t.value.prod, p.prod, fol))
    decreases st.arena, 4
  {
    hide Decode, FrondsHold, SockHuge, Computes, Reflects;
    ScanSound(turned, OpenBody(st, p, fol), p.prod, fol);
  }

  /** The three outcomes of a call with a known formula, short of indirection. */
  ghost predicate CallOk(t: Nomm, p: Nomm, fol: Noun, arm: nat) {
    t.NDS2? && t.p == p && t.fol == fol && t.arm == arm && WF(t.prod) && Produces(t.prod, p.prod, fol)
  }

  lemma MemoCallOk(turned: bool, st: Pass, p: Nomm, fol: Noun, arm: nat)
    requires MemoGood(st.memo) && WF(p.prod)
    requires var m := FindMemo(turned, st.memo, fol, p.prod);
             m.Some? && !UseMemo(turned, st, m.value, p, arm).1.misled
    ensures CallOk(UseMemo(turned, st, FindMemo(turned, st.memo, fol, p.prod).value, p, arm).0, p, fol, arm)
  {
    MemoGoodFor(st.memo, FindMemo(turned, st.memo, fol, p.prod).value, p.prod);
  }

  lemma {:induction false} ScanApplyCase(turned: bool, st0: Pass, sub: Sock, f: Noun)
    requires f.Cell? && st0.arena >= NOMM_BYTES && MemoGood(st0.memo) && WF(sub)
    requires Decode(f).Apply?
    ensures ScanOk(turned, st0, sub, f)
    decreases st0.arena, 2
  {
    hide Decode, MemoGood, FrondsHold, SockHuge, Produces, Computes, Reflects;
    var st := st0.(arena := st0.arena - NOMM_BYTES);
    var i := Decode(f);
    ScanTwoSound(turned, st, sub, i.b, i.c);
    var (r, st1) := ScanTwo(turned, st, sub, i.b, i.c);
    if r.Some? && !Scan(turned, st0, sub, f).1.misled {
      var (p, q) := r.value;
      if q.prod.cape.Known? {
        ScanApplySound(turned, st1, p, q, sub, f, i.b, i.c);
      } else {
        IndirectGood(p, q, sub, f, i.b, i.c);
      }
    }
  }

  lemma {:induction false} ScanApplySound(turned: bool, st: Pass, p: Nomm, q: Nomm, sub: Sock, f: Noun, b: Noun, c: Noun)
    requires Decode(f) == Apply(b, c) && Good(p, sub, b) && Good(q, sub, c)
    requires MemoGood(st.memo) && q.prod.cape.Known? && !ScanApply(turned, st, p, q).1.misled
    ensures var (t, st') := ScanApply(turned, st, p, q); MemoGood(st'.memo) && Good(t, sub, f)
    decreases st.arena, 6
  {
    hide Decode, FrondsHold, SockHuge, Computes, Reflects;
    var fol := q.prod.data;
    if fol.Cell? && IsDirect(fol.head) && fol.head.v <= 1 {
      var r := Scan(turned, st, p.prod, fol);
      ScanSound(turned, st, p.prod, fol);
      if r.0.Some? {
        SlotOrQuote(fol);
        InlineGood(p, q, r.0.value, sub, f, b, c);
      } else {
        ScanCallSound(turned, r.1, p, q, sub, f, b, c);
      }
    } else {
      ScanCallSound(turned, st, p, q, sub, f, b, c);
    }
  }

  lemma SlotOrQuote(f: Noun)
    requires f.Cell? && IsDirect(f.head) && f.head.v <= 1
    ensures Decode(f).Axis? || Decode(f).Quote?
  {
  }

  lemma {:induction false} ScanCallSound(turned: bool, st: Pass, p: Nomm, q: Nomm, sub: Sock, f: Noun, b: Noun, c: Noun)
    requires Decode(f) == Apply(b, c) && Good(p, sub, b) && Good(q, sub, c)
    requires MemoGood(st.memo) && q.prod.cape.Known? && !ScanCall(turned, st, p, q, q.prod.data).1.misled
    ensures var (t, st') := ScanCall(turned, st, p, q, q.prod.data); MemoGood(st'.memo) && Good(t, sub, f)
    decreases st.arena, 5
  {
    hide Decode, FrondsHold, SockHuge, Computes, Reflects;
    var fol := q.prod.data;
    var t := ScanCall(turned, st, p, q, q.prod.data).0;
    if FindMemo(turned, st.memo, fol, p.prod).Some? {
      MemoCallOk(turned, st, p, fol, 0);
      DirectGood(p, q, t.body, t.site, t.prod, sub, f, b, c);
    } else if FindLoop(st, st.fols, fol, p.prod).Some? {
      DirectGood(p, q, t.body, t.site, t.prod, sub, f, b, c);
    } else {
      ScanBodySound(turned, st, p, fol, 0);
      if ScanBody(turned, st, p, fol, 0).0.Some? {
        DirectGood(p, q, t.body, t.site, t.prod, sub, f, b, c);
      } else {
        IndirectGood(p, q, sub, f, b, c);
      }
    }
  }

  lemma {:induction false} ScanInvokeCase(turned: bool, st0: Pass, sub: Sock, f: Noun)
    requires f.Cell? && st0.arena >= NOMM_BYTES && MemoGood(st0.memo) && WF(sub)
    requires Decode(f).Invoke?
    ensures ScanOk(turned, st0, sub, f)
    decreases st0.arena, 2
  {
    hide Decode, MemoGood, FrondsHold, SockHuge, Produces, Computes, Reflects;
    var st := st0.(arena := st0.arena - NOMM_BYTES);
    var i := Decode(f);
    ScanSound(turned, st, sub, i.c);
    var (p, st1) := Scan(turned, st, sub, i.c);
    if p.Some? && !Scan(turned, st0, sub, f).1.misled {
      if IsDirect(i.ax) && SockPull(p.value.prod, i.ax).cape.Known? {
        ScanInvokeSound(turned, st1, p.value, sub, f);
      } else {
        ArmGood(p.value, sub, f, i.ax, i.c);
      }
    }
  }

  lemma {:induction false} ScanInvokeSound(turned: bool, st: Pass, p: Nomm, sub: Sock, f: Noun)
    requires Decode(f).Invoke? && Good(p, sub, Decode(f).c) && IsDirect(Decode(f).ax)
    requires var arm := SockPull(p.prod, Decode(f).ax);
             arm.cape.Known? && MemoGood(st.memo) && !ScanInvoke(turned, st, p, Decode(f).ax, arm.data).1.misled
    ensures var (t, st') := ScanInvoke(turned, st, p, Decode(f).ax, SockPull(p.prod, Decode(f).ax).data);
            MemoGood(st'.memo) && Good(t, sub, f)
    decreases st.arena, 5
  {
    hide Decode, FrondsHold, SockHuge, Computes, Reflects;
    var i := Decode(f);
    var fol := SockPull(p.prod, i.ax).data;
    var t := ScanInvoke(turned, st, p, i.ax, fol).0;
    if FindLoop(st, st.fols, fol, p.prod).Some? {
      KnownArmGood(p, t.body, t.site, t.prod, sub, f, i.ax, i.c);
    } else if FindMemo(turned, st.memo, fol, p.prod).Some? {
      MemoCallOk(turned, st, p, fol, i.ax.v);
      KnownArmGood(p, t.body, t.site, t.prod, sub, f, i.ax, i.c);
    } else {
      ScanBodySound(turned, st, p, fol, i.ax.v);
      if ScanBody(turned, st, p, fol, i.ax.v).0.Some? {
        KnownArmGood(p, t.body, t.site, t.prod, sub, f, i.ax, i.c);
      } else {
        ArmGood(p, sub, f, i.ax, i.c);
      }
    }
  }
}
