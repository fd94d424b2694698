/** When what was scanned for one subject may be reused for another. */
module SkaReuse {
  import opened Nouns
  import opened Nock
  import opened Socks
  import opened Ska
  import opened Nomm1s
  import opened SkaBack
  import opened SkaSound

  /** Whatever was built for the stored subject is good for the new one. */
  ghost predicate ReuseRight(stored: Sock, sub: Sock) {
    forall body: Nomm, f: Noun :: Good(body, stored, f) ==> Good(body, sub, f)
  }

  /** Every noun that `a` stands for, `b` stands for: a test on the two socks. */
  predicate Inside(a: Sock, b: Sock)
    requires WF(a) && WF(b)
    decreases a.cape
  {
    if b.cape.Wild? then true
    else if a.cape.Known? then Covers(b, a.data)
    else if a.cape.Wild? then false
    else b.data.Cell? && Inside(Half(a, false), Half(b, false)) && Inside(Half(a, true), Half(b, true))
  }

  /** Half of a sock on a cell. */
  function Half(s: Sock, tail: bool): (h: Sock)
    requires WF(s) && s.data.Cell?
    ensures WF(h)
  {
    Sock(CapeHalf(s.cape, tail), if tail then s.data.tail else s.data.head)
  }

  lemma {:induction false} InsideCovers(a: Sock, b: Sock, n: Noun)
    requires WF(a) && WF(b) && Inside(a, b) && Covers(a, n)
    ensures Covers(b, n)
    decreases a.cape
  {
    if a.cape.CapeCell? && !b.cape.Wild? {
      InsideCovers(Half(a, false), Half(b, false), n.head);
      InsideCovers(Half(a, true), Half(b, true), n.tail);
    }
  }

  /** A noun that the one stands for and the other does not. */
  lemma {:induction false} Outsider(a: Sock, b: Sock) returns (n: Noun)
    requires WF(a) && WF(b) && !Inside(a, b)
    ensures Covers(a, n) && !Covers(b, n)
    decreases a.cape
  {
    OwnData(a.cape, a.data);
    n := a.data;
    if a.cape.Wild? {
      n := if b.cape.Known? && b.data == Atom(0) then Atom(1) else Atom(0);
    } else if a.cape.CapeCell? && b.data.Cell? {
      if !Inside(Half(a, false), Half(b, false)) {
        var m := Outsider(Half(a, false), Half(b, false));
        n := Cell(m, a.data.tail);
      } else {
        var m := Outsider(Half(a, true), Half(b, true));
        n := Cell(a.data.head, m);
      }
    }
  }

  const WHOLE: Noun := Cell(Atom(0), Atom(1))

  lemma WholeReturns(n: Noun)
    ensures Returns(n, WHOLE, n)
  {
    Answered(n, WHOLE, [], n);
  }

  /** What the scan builds for `[0 1]` on the stored subject. */
  lemma WholeGood(stored: Sock)
    requires WF(stored)
    ensures Good(N0(Atom(1), stored), stored, WHOLE)
  {
    SlotGood(Atom(1), stored, WHOLE);
    assert CapePull(stored.cape, 1) == stored.cape && Slot(1, stored.data) == Some(stored.data);
  }

  lemma SmallerReflects(t: Nomm1, stored: Sock, sub: Sock, f: Noun)
    requires WF(stored) && WF(sub) && Inside(sub, stored) && Reflects(t, stored, f)
    ensures Reflects(t, sub, f)
  {
    hide Returns, RunReturns, Back;
    forall n: Noun, r: Noun | Covers(sub, n) && RunReturns(t, n, r)
      ensures Back(t, f, n, r)
    {
      InsideCovers(sub, stored, n);
      BackOf(t, stored, f, n, r);
    }
  }

  lemma SmallerGood(body: Nomm, stored: Sock, sub: Sock, f: Noun)
    requires WF(stored) && WF(sub) && Inside(sub, stored) && Good(body, stored, f)
    ensures Good(body, sub, f)
  {
    SmallerReflects(Cook(body), stored, sub, f);
    hide Returns, RunReturns, Reflects, Cook, Inside;
    forall n: Noun, r: Noun | Covers(sub, n) && Returns(n, f, r)
      ensures Right(body, n, r)
    {
      InsideCovers(sub, stored, n);
      GoodRight(body, stored, f, n, r);
    }
    GoodIfRight(body, sub, f);
  }

  /** Reuse under a stored subject is right, whatever the formula, exactly when the stored subject
      stands for every noun that the new one stands for: otherwise it is wrong for `[0 1]`. */
  lemma ReuseIff(stored: Sock, sub: Sock)
    requires WF(stored) && WF(sub)
    ensures ReuseRight(stored, sub) <==> Inside(sub, stored)
    ensures !Inside(sub, stored) ==>
              Good(N0(Atom(1), stored), stored, WHOLE) && !Good(N0(Atom(1), stored), sub, WHOLE)
  {
    hide Good, Inside;
    WholeGood(stored);
    if Inside(sub, stored) {
      forall body: Nomm, f: Noun | Good(body, stored, f)
        ensures Good(body, sub, f)
      {
        SmallerGood(body, stored, sub, f);
      }
    } else {
      WholeWrong(stored, sub);
    }
  }

  lemma WholeWrong(stored: Sock, sub: Sock)
    requires WF(stored) && WF(sub) && !Inside(sub, stored)
    ensures !Good(N0(Atom(1), stored), sub, WHOLE)
  {
    var n := Outsider(sub, stored);
    WholeReturns(n);
  }

  /** The turned test lets only right reuses through. */
  lemma TurnedTestRight(stored: Sock, sub: Sock)
    requires WF(stored) && WF(sub) && MemoTest(true, stored, sub)
    ensures ReuseRight(stored, sub)
  {
    if !Inside(sub, stored) {
      var n := Outsider(sub, stored);
      HugeSound(sub, stored, n);
    }
    ReuseIff(stored, sub);
  }

  /** A reuse that the test as written lets through is right exactly when both subjects stand for
      the same nouns. */
  lemma WrittenTestRight(stored: Sock, sub: Sock)
    requires WF(stored) && WF(sub) && MemoTest(false, stored, sub)
    ensures ReuseRight(stored, sub) <==> forall n: Noun :: Covers(stored, n) <==> Covers(sub, n)
  {
    ReuseIff(stored, sub);
    hide ReuseRight;
    if Inside(sub, stored) {
      forall n: Noun
        ensures Covers(stored, n) <==> Covers(sub, n)
      {
        if Covers(stored, n) {
          HugeSound(stored, sub, n);
        }
        if Covers(sub, n) {
          InsideCovers(sub, stored, n);
        }
      }
    } else {
      var n := Outsider(sub, stored);
    }
  }
}
