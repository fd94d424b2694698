/** Two formulas on which Nock crashes and compiled code answers. */
module SkaStray {
  import opened Nouns
  import opened Nock
  import opened Socks
  import opened Ska
  import opened Nomm1s
  import opened SkaBack
  import SkaMemo

  const SEVEN: Noun := Cell(Atom(1), Atom(7))
  const SUBJECT: Noun := Cell(Atom(0), Atom(1))
  const NOWHERE: Noun := Cell(Atom(0), Atom(0))

  // [7 [0 0] [1 [1 7]]]: [1 7] if only it got there.
  const MAKER: Noun := Cell(Atom(7), Cell(NOWHERE, Cell(Atom(1), SEVEN)))
  // [2 [0 1] MAKER]
  const DROPPED: Noun := Cell(Atom(2), Cell(SUBJECT, MAKER))
  // [11 [[0 0] [1 0]] [1 7]]: a dynamic hint whose tag is a cell.
  const HINTED: Noun := Cell(Atom(11), Cell(Cell(NOWHERE, Cell(Atom(1), Atom(0))), SEVEN))

  lemma NowhereFails(s: Noun)
    ensures forall r: Noun :: !Returns(s, NOWHERE, r)
  {
    forall r: Noun
      ensures !Returns(s, NOWHERE, r)
    {
      if Returns(s, NOWHERE, r) {
        var _ := Unwind(s, NOWHERE, r);
      }
    }
  }

  lemma MakerFails(s: Noun)
    ensures !Answers(s, MAKER)
  {
    NowhereFails(s);
    hide Returns;
    forall r: Noun
      ensures !Returns(s, MAKER, r)
    {
      if Returns(s, MAKER, r) {
        var _ := Unwind(s, MAKER, r);
      }
    }
  }

  /** Nock evaluates the formula's formula, which crashes; the scan knows its value and drops it. */
  lemma DroppedFormula(s: Noun)
    ensures var (t, st) := Scan(false, SkaMemo.START, Sock(Wild, s), DROPPED);
            && t.Some? && !st.misled
            && (forall r: Noun :: !Returns(s, DROPPED, r))
            && RunReturns(Cook(t.value), s, Atom(7)) && Strays(Cook(t.value), DROPPED, s)
  {
    MakerFails(s);
    DroppedScan(s);
    hide Returns, RunReturns, Scan;
    forall r: Noun
      ensures !Returns(s, DROPPED, r)
    {
      if Returns(s, DROPPED, r) {
        var _ := Unwind(s, DROPPED, r);
      }
    }
    RunNode(M0(Atom(1)), s, [], s);
    RunNode(M1(Atom(7)), s, [], Atom(7));
    RunNode(M7(M0(Atom(1)), M1(Atom(7))), s, [s], Atom(7));
  }

  lemma DroppedScan(s: Noun)
    ensures var (t, st) := Scan(false, SkaMemo.START, Sock(Wild, s), DROPPED);
            t.Some? && !st.misled && Cook(t.value) == M7(M0(Atom(1)), M1(Atom(7)))
  {
    var (st, sub) := (SkaMemo.START.(arena := 262144 - NOMM_BYTES), Sock(Wild, s));
    SkaMemo.ScanSubject(st, sub);
    var st1 := st.(arena := st.arena - NOMM_BYTES);
    MakerScan(st1, sub);
    var (q, st2) := Scan(false, st1, sub, MAKER);
    SkaMemo.ScanQuote(st2, sub, Atom(7));
  }

  lemma MakerScan(st: Pass, sub: Sock)
    requires st.arena >= 10 * NOMM_BYTES && sub.cape.Wild?
    ensures var (t, st') := Scan(false, st, sub, MAKER);
            t.Some? && t.value.prod == SockKnown(SEVEN) && st' == st.(arena := st.arena - 3 * NOMM_BYTES)
  {
    var st1 := st.(arena := st.arena - 2 * NOMM_BYTES);
    assert Scan(false, st.(arena := st.arena - NOMM_BYTES), sub, NOWHERE) == (Some(N0(Atom(0), SockPull(sub, Atom(0)))), st1);
    SkaMemo.ScanQuote(st1, SockPull(sub, Atom(0)), SEVEN);
  }

  /** Nock checks the tag of a dynamic hint; the code does not. */
  lemma LooseHint(s: Noun)
    ensures var (t, st) := Scan(false, SkaMemo.START, Sock(Wild, s), HINTED);
            && t.Some? && !st.misled
            && (forall r: Noun :: !Returns(s, HINTED, r))
            && RunReturns(Cook(t.value), s, Atom(7)) && Strays(Cook(t.value), HINTED, s)
  {
    hide Returns, RunReturns, Scan;
    HintedScan(s);
    forall r: Noun
      ensures !Returns(s, HINTED, r)
    {
      if Returns(s, HINTED, r) {
        var _ := Unwind(s, HINTED, r);
      }
    }
    RunNode(M1(Atom(0)), s, [], Atom(0));
    RunNode(M1(Atom(7)), s, [], Atom(7));
    RunNode(M11Clue(NOWHERE, M1(Atom(0)), M1(Atom(7))), s, [Atom(0)], Atom(7));
  }

  lemma HintedScan(s: Noun)
    ensures var (t, st) := Scan(false, SkaMemo.START, Sock(Wild, s), HINTED);
            t.Some? && !st.misled && Cook(t.value) == M11Clue(NOWHERE, M1(Atom(0)), M1(Atom(7)))
  {
    var (st, sub) := (SkaMemo.START.(arena := 262144 - NOMM_BYTES), Sock(Wild, s));
    SkaMemo.ScanQuote(st, sub, Atom(7));
    SkaMemo.ScanQuote(st.(arena := st.arena - NOMM_BYTES), sub, Atom(0));
  }
}
