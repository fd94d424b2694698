/** The memo test as written reuses a scan the wrong way round: a concrete miscompilation. */
module SkaMemo {
  import opened Nouns
  import opened Nock
  import opened Socks
  import opened Ska
  import opened Nomm1s

  // An arm that returns its subject, in a form the scan does not inline.
  const SELF: Noun := Cell(Atom(7), Cell(Cell(Atom(0), Atom(1)), Cell(Atom(0), Atom(1))))
  const SEVEN: Noun := Cell(Atom(1), Atom(7))

  // [2 [1 [1 7]] [1 SELF]]: the arm on a known subject.
  const FIRST: Noun := Cell(Atom(2), Cell(Cell(Atom(1), SEVEN), Cell(Atom(1), SELF)))
  // [2 [0 1] [1 SELF]]: the arm on the whole subject.
  const SECOND: Noun := Cell(Atom(2), Cell(Cell(Atom(0), Atom(1)), Cell(Atom(1), SELF)))
  // [FIRST [2 [1 0] SECOND]]: the second call's result is used as a formula.
  const LAST: Noun := Cell(Atom(2), Cell(Cell(Atom(1), Atom(0)), SECOND))
  const PROGRAM: Noun := Cell(FIRST, LAST)

  // [1 9]
  const SUBJECT: Noun := Cell(Atom(1), Atom(9))

  const START: Pass := Pass(262144, [], 0, [], [], [], false)

  // ----- What Nock answers -----

  lemma QuoteReturns(s: Noun, v: Noun)
    ensures Returns(s, Cell(Atom(1), v), v)
  {
    Answered(s, Cell(Atom(1), v), [], v);
  }

  lemma SubjectReturns(s: Noun)
    ensures Returns(s, Cell(Atom(0), Atom(1)), s)
  {
    Answered(s, Cell(Atom(0), Atom(1)), [], s);
  }

  lemma SelfReturns(s: Noun)
    ensures Returns(s, SELF, s)
  {
    SubjectReturns(s);
    Jumped(s, SELF, [s], s);
  }

  lemma NockAnswer()
    ensures Returns(SUBJECT, PROGRAM, Cell(SEVEN, Atom(9)))
  {
    hide Returns;
    var s := SUBJECT;
    QuoteReturns(s, SEVEN);
    QuoteReturns(s, SELF);
    SelfReturns(SEVEN);
    Jumped(s, FIRST, [SEVEN, SELF], SEVEN);
    SubjectReturns(s);
    SelfReturns(s);
    Jumped(s, SECOND, [s, SELF], s);
    QuoteReturns(s, Atom(0));
    QuoteReturns(Atom(0), Atom(9));
    Jumped(s, LAST, [Atom(0), s], Atom(9));
    Answered(s, PROGRAM, [SEVEN, Atom(9)], Cell(SEVEN, Atom(9)));
  }

  // ----- What the scan builds -----

  const BODY: Nomm := N7(N0(Atom(1), SockKnown(SEVEN)), N0(Atom(1), SockKnown(SEVEN)), SockKnown(SEVEN))
  const UNKNOWN: Sock := Sock(Wild, SUBJECT)

  lemma ScanQuote(st: Pass, sub: Sock, v: Noun)
    requires st.arena >= NOMM_BYTES
    ensures Scan(false, st, sub, Cell(Atom(1), v)) ==
            (Some(N1(v, SockKnown(v))), st.(arena := st.arena - NOMM_BYTES))
  {
  }

  lemma ScanSubject(st: Pass, sub: Sock)
    requires st.arena >= NOMM_BYTES
    ensures Scan(false, st, sub, Cell(Atom(0), Atom(1))) ==
            (Some(N0(Atom(1), sub)), st.(arena := st.arena - NOMM_BYTES))
  {
    assert CapePull(sub.cape, 1) == sub.cape && Slot(1, sub.data) == Some(sub.data);
  }

  lemma ScanSelf(st: Pass, sub: Sock)
    requires st.arena >= 3 * NOMM_BYTES
    ensures Scan(false, st, sub, SELF) ==
            (Some(N7(N0(Atom(1), sub), N0(Atom(1), sub), sub)), st.(arena := st.arena - 3 * NOMM_BYTES))
  {
    ScanSubject(st.(arena := st.arena - NOMM_BYTES), sub);
    ScanSubject(st.(arena := st.arena - 2 * NOMM_BYTES), sub);
  }

  lemma TwoScanned(st: Pass, sub: Sock, a: Noun, b: Noun, p: Nomm, q: Nomm, st1: Pass, st2: Pass)
    requires Scan(false, st, sub, a) == (Some(p), st1) && Scan(false, st1, sub, b) == (Some(q), st2)
    ensures ScanTwo(false, st, sub, a, b) == (Some((p, q)), st2)
  {
    hide Scan, Follows;
  }

  /** A scanned opcode 2 whose formula is known goes on to the call. */
  lemma ScanKnown(st: Pass, f: Noun, b: Noun, c: Noun, p: Nomm, q: Nomm, st1: Pass)
    requires f.Cell? && st.arena >= NOMM_BYTES && Decode(f) == Apply(b, c) && q.prod.cape.Known?
    requires ScanTwo(false, st.(arena := st.arena - NOMM_BYTES), UNKNOWN, b, c) == (Some((p, q)), st1)
    ensures Scan(false, st, UNKNOWN, f) ==
            (Some(ScanApply(false, st1, p, q).0), ScanApply(false, st1, p, q).1)
    ensures q.prod.data == SELF ==> ScanApply(false, st1, p, q) == ScanCall(false, st1, p, q, SELF)
  {
    hide ScanTwo, ScanCall, Decode;
  }

  /** The first call is scanned afresh and remembered for the subject [1 7]. */
  lemma ScanFirst(st: Pass)
    requires st.arena >= 6 * NOMM_BYTES && st.memo == [] && st.fols == [] && st.gen == 0
    ensures Scan(false, st, UNKNOWN, FIRST) ==
            (Some(NDS2(N1(SEVEN, SockKnown(SEVEN)), Some(BODY), SELF, 0, 0, SockKnown(SEVEN))),
             st.(arena := st.arena - 6 * NOMM_BYTES, gen := 1, memo := [Memo(SELF, SockKnown(SEVEN), BODY)]))
  {
    hide Scan, ScanTwo, ScanApply, ScanCall;
    var (p, q) := (N1(SEVEN, SockKnown(SEVEN)), N1(SELF, SockKnown(SELF)));
    var (b, c) := (Cell(Atom(1), SEVEN), Cell(Atom(1), SELF));
    ScanQuote(st.(arena := st.arena - NOMM_BYTES), UNKNOWN, SEVEN);
    ScanQuote(st.(arena := st.arena - 2 * NOMM_BYTES), UNKNOWN, SELF);
    var st1 := st.(arena := st.arena - 3 * NOMM_BYTES);
    TwoScanned(st.(arena := st.arena - NOMM_BYTES), UNKNOWN, b, c, p, q, st.(arena := st.arena - 2 * NOMM_BYTES), st1);
    ScanKnown(st, FIRST, b, c, p, q, st1);
    ScanFresh(st1, p, q);
  }

  lemma ScanFresh(st: Pass, p: Nomm, q: Nomm)
    requires st.arena >= 3 * NOMM_BYTES && st.memo == [] && st.fols == [] && st.gen == 0
    requires p.prod == SockKnown(SEVEN) && q.prod == SockKnown(SELF)
    ensures ScanCall(false, st, p, q, SELF) ==
            (NDS2(p, Some(BODY), SELF, 0, 0, SockKnown(SEVEN)),
             st.(arena := st.arena - 3 * NOMM_BYTES, gen := 1, memo := [Memo(SELF, SockKnown(SEVEN), BODY)]))
  {
    ScanFreshBody(st, p);
  }

  lemma ScanFreshBody(st: Pass, p: Nomm)
    requires st.arena >= 3 * NOMM_BYTES && st.memo == [] && st.fols == [] && st.gen == 0
    requires p.prod == SockKnown(SEVEN)
    ensures ScanBody(false, st, p, SELF, 0) ==
            (Some(NDS2(p, Some(BODY), SELF, 0, 0, SockKnown(SEVEN))),
             st.(arena := st.arena - 3 * NOMM_BYTES, gen := 1, memo := [Memo(SELF, SockKnown(SEVEN), BODY)]))
  {
    hide Scan, CloseBody;
    var st1 := st.(gen := 1, fols := [Frame(SELF, SockKnown(SEVEN), 0)]);
    OpenFirst(st, p);
    ScanSelf(st1, SockKnown(SEVEN));
    CloseFirst(st1.(arena := st1.arena - 3 * NOMM_BYTES), p);
  }

  lemma OpenFirst(st: Pass, p: Nomm)
    requires st.fols == [] && st.gen == 0 && p.prod == SockKnown(SEVEN)
    ensures OpenBody(st, p, SELF) == st.(gen := 1, fols := [Frame(SELF, SockKnown(SEVEN), 0)])
  {
    assert [] + [Frame(SELF, SockKnown(SEVEN), 0)] == [Frame(SELF, SockKnown(SEVEN), 0)];
  }

  lemma CloseFirst(st: Pass, p: Nomm)
    requires st.fols == [Frame(SELF, SockKnown(SEVEN), 0)] && st.memo == [] && p.prod == SockKnown(SEVEN)
    ensures CloseBody((Some(BODY), st), p, SELF, 0, 0) ==
            (Some(NDS2(p, Some(BODY), SELF, 0, 0, SockKnown(SEVEN))),
             st.(fols := [], memo := [Memo(SELF, SockKnown(SEVEN), BODY)]))
  {
    assert st.fols[..0] == [];
    assert st.memo + [Memo(SELF, SockKnown(SEVEN), BODY)] == [Memo(SELF, SockKnown(SEVEN), BODY)];
  }

  /** The second call, on an unknown subject, reuses that memo. */
  lemma ScanSecond(st: Pass)
    requires st.arena >= 3 * NOMM_BYTES && st.memo == [Memo(SELF, SockKnown(SEVEN), BODY)]
    ensures Scan(false, st, UNKNOWN, SECOND) ==
            (Some(NDS2(N0(Atom(1), UNKNOWN), Some(BODY), SELF, 0, st.gen, SockKnown(SEVEN))),
             st.(arena := st.arena - 3 * NOMM_BYTES, gen := st.gen + 1, misled := true))
  {
    var (p, q) := (N0(Atom(1), UNKNOWN), N1(SELF, SockKnown(SELF)));
    ScanSubject(st.(arena := st.arena - NOMM_BYTES), UNKNOWN);
    ScanQuote(st.(arena := st.arena - 2 * NOMM_BYTES), UNKNOWN, SELF);
    var st1 := st.(arena := st.arena - 3 * NOMM_BYTES);
    ScanKnown(st, SECOND, Cell(Atom(0), Atom(1)), Cell(Atom(1), SELF), p, q, st1);
    assert FindMemo(false, st1.memo, SELF, UNKNOWN) == Some(st.memo[0]);
  }

  const INLINED: Nomm := N7(N1(Atom(0), SockKnown(Atom(0))), N1(Atom(7), SockKnown(Atom(7))), SockKnown(Atom(7)))

  lemma ScanLast(st: Pass)
    requires st.arena >= 6 * NOMM_BYTES && st.memo == [Memo(SELF, SockKnown(SEVEN), BODY)]
    ensures Scan(false, st, UNKNOWN, LAST).0 == Some(INLINED) && Scan(false, st, UNKNOWN, LAST).1.misled
  {
    ScanQuote(st.(arena := st.arena - NOMM_BYTES), UNKNOWN, Atom(0));
    var st1 := st.(arena := st.arena - 2 * NOMM_BYTES);
    ScanSecond(st1);
    var p := N1(Atom(0), SockKnown(Atom(0)));
    var q := NDS2(N0(Atom(1), UNKNOWN), Some(BODY), SELF, 0, st.gen, SockKnown(SEVEN));
    var st2 := st.(arena := st.arena - 5 * NOMM_BYTES, gen := st.gen + 1, misled := true);
    ScanKnown(st, LAST, Cell(Atom(1), Atom(0)), SECOND, p, q, st2);
    ScanQuote(st2, SockKnown(Atom(0)), Atom(7));
  }

  /** The whole scan, from the empty pass state `ska_nock` starts with. */
  lemma ScanProgram() returns (t: Nomm)
    ensures Scan(false, START, UNKNOWN, PROGRAM).0 == Some(t) && Scan(false, START, UNKNOWN, PROGRAM).1.misled
    ensures Cook(t) == CODE
  {
    var st := START.(arena := START.arena - NOMM_BYTES);
    hide Scan, Cook, SockKnit;
    ScanFirst(st);
    var (p, st1) := Scan(false, st, UNKNOWN, FIRST);
    ScanLast(st1);
    ScanDist(START, PROGRAM, FIRST, LAST, p.value, INLINED, st1, Scan(false, st1, UNKNOWN, LAST).1);
    t := NDist(p.value, INLINED, SockKnit(SockKnown(SEVEN), SockKnown(Atom(7))));
    CookProgram(p.value, t);
  }

  lemma ScanDist(st: Pass, f: Noun, a: Noun, b: Noun, p: Nomm, q: Nomm, st1: Pass, st2: Pass)
    requires f.Cell? && Decode(f) == Dist(a, b) && st.arena >= NOMM_BYTES
    requires Scan(false, st.(arena := st.arena - NOMM_BYTES), UNKNOWN, a) == (Some(p), st1)
    requires Scan(false, st1, UNKNOWN, b) == (Some(q), st2)
    ensures Scan(false, st, UNKNOWN, f) == (Some(NDist(p, q, SockKnit(p.prod, q.prod))), st2)
  {
    hide Decode, SockKnit, ScanApply, ScanInvoke, SockPull, SockKnown, EqualProd, IfProd, HaxProd, Follows;
    hide ScanTwo;
    TwoScanned(st.(arena := st.arena - NOMM_BYTES), UNKNOWN, a, b, p, q, st1, st2);
  }

  lemma CookProgram(p: Nomm, t: Nomm)
    requires p == NDS2(N1(SEVEN, SockKnown(SEVEN)), Some(BODY), SELF, 0, 0, SockKnown(SEVEN))
    requires t == NDist(p, INLINED, SockKnit(SockKnown(SEVEN), SockKnown(Atom(7))))
    ensures Cook(t) == CODE
  {
  }

  /** A formula that Nock and its compiled code answer differently. */
  lemma Miscompiled()
    ensures var (t, st) := Scan(false, START, UNKNOWN, PROGRAM);
            && t.Some? && st.misled
            && Returns(SUBJECT, PROGRAM, Cell(SEVEN, Atom(9)))
            && RunReturns(Cook(t.value), SUBJECT, Cell(SEVEN, Atom(7)))
  {
    NockAnswer();
    var t := ScanProgram();
    CodeAnswer(SUBJECT);
  }

  const CODE: Nomm1 := MDist(M2(M1(SEVEN), Null, 0, Some(Bell(SockKnown(SEVEN), SELF))), M7(M1(Atom(0)), M1(Atom(7))))

  lemma CodeAnswer(s: Noun)
    ensures RunReturns(CODE, s, Cell(SEVEN, Atom(7)))
  {
    hide Returns, RunReturns;
    RunNode(M1(SEVEN), s, [], SEVEN);
    SelfReturns(SEVEN);
    RunNode(CODE.p, s, [SEVEN], SEVEN);
    RunNode(M1(Atom(0)), s, [], Atom(0));
    RunNode(M1(Atom(7)), Atom(0), [], Atom(7));
    RunNode(CODE.q, s, [Atom(0)], Atom(7));
    RunNode(CODE, s, [SEVEN, Atom(7)], Cell(SEVEN, Atom(7)));
  }
}
