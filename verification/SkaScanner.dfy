/** The scan as the machine runs it: statics updated in place, searches as loops. */
module SkaScanner {
  import opened Nouns
  import opened Nock
  import opened Socks
  import opened Ska

  class Scanner {
    var arena: nat
    var fols: seq<Frame>
    var gen: nat
    var memo: seq<Memo>
    var fronds: seq<Frond>
    var block: seq<(nat, nat)>
    ghost var misled: bool

    constructor ()
      ensures State() == Pass(0, [], 0, [], [], [], false)
    {
      arena, fols, gen, memo, fronds, block, misled := 0, [], 0, [], [], [], false;
    }

    /** The statics as one value. */
    ghost function State(): Pass
      reads this
    {
      Pass(arena, fols, gen, memo, fronds, block, misled)
    }

    /** `ska_pass_reset`: everything but the block list. */
    method Reset(bytes: nat)
      modifies this
      ensures State() == Pass(bytes, [], 0, [], [], old(block), false)
    {
      fols, gen, fronds, memo, arena, misled := [], 0, [], [], bytes, false;
    }

    method SearchMemo(fol: Noun, sub: Sock) returns (r: Option<Memo>)
      ensures r == FindMemo(false, memo, fol, sub)
    {
      var m := 0;
      while m < |memo|
        invariant m <= |memo|
        invariant FindMemo(false, memo, fol, sub) == FindMemo(false, memo[m..], fol, sub)
      {
        if memo[m].fol == fol && SockHuge(memo[m].sub, sub) {
          return Some(memo[m]);
        }
        assert memo[m..][1..] == memo[m + 1..];
        m := m + 1;
      }
      return None;
    }

    method SearchLoop(fol: Noun, sub: Sock) returns (r: Option<Frame>)
      ensures r == FindLoop(State(), fols, fol, sub)
    {
      var i := |fols|;
      assert fols[..i] == fols;
      while i > 0
        invariant i <= |fols|
        invariant FindLoop(State(), fols, fol, sub) == FindLoop(State(), fols[..i], fol, sub)
      {
        i := i - 1;
        assert fols[..i + 1][..i] == fols[..i];
        var f := fols[i];
        if f.fol == fol && (f.site, gen) !in block && SockHuge(f.sub, sub) {
          return Some(f);
        }
      }
      return None;
    }

    /** A call that reuses a memo takes the next site number. */
    method CallMemo(m: Memo, p: Nomm, arm: nat) returns (n: Nomm)
      requires MemoTest(false, m.sub, p.prod)
      modifies this`gen, this`misled
      ensures (n, State()) == UseMemo(false, old(State()), m, p, arm)
    {
      n := NDS2(p, Some(m.body), m.fol, arm, gen, m.body.prod);
      gen := gen + 1;
      misled := misled || !SockHuge(p.prod, m.sub);
    }

    /** A call back to an open frame records the assumption it rests on. */
    method CallLoop(f: Frame, p: Nomm, arm: nat) returns (n: Nomm)
      requires SockHuge(f.sub, p.prod)
      modifies this`gen, this`fronds
      ensures (n, State()) == UseLoop(false, old(State()), f, p, arm)
    {
      n := NDS2(p, None, f.fol, arm, gen, DUNNO);
      if |fronds| < MAX_FRONDS {
        fronds := fronds + [Frond(f.site, gen, f.sub, p.prod)];
      }
      gen := gen + 1;
    }

    /** `scan` and `scan_cell`. */
    method ScanFormula(sub: Sock, fol: Noun) returns (r: Option<Nomm>)
      modifies this
      ensures (r, State()) == Scan(false, old(State()), sub, fol)
      decreases arena, 3
    {
      hide Decode, SockPull, SockKnit, SockKnown, EqualProd, IfProd, HaxProd, Follows, ScanTwo, ScanApply, ScanInvoke, IsDirect;
      if fol.Atom? || arena < NOMM_BYTES {
        return None;
      }
      arena := arena - NOMM_BYTES;
      match Decode(fol) {
        case Bad => return None;
        case Axis(ax) => return Some(N0(ax, SockPull(sub, ax)));
        case Quote(v) => return Some(N1(v, SockKnown(v)));
        case Dist(a, b) =>
          var p, q := ScanPair(sub, a, b);
          if p.None? || q.None? { return None; }
          return Some(NDist(p.value, q.value, SockKnit(p.value.prod, q.value.prod)));
        case IsCell(b) =>
          var p := ScanFormula(sub, b);
          return if p.Some? then Some(N3(p.value, DUNNO)) else None;
        case Bump(b) =>
          var p := ScanFormula(sub, b);
          return if p.Some? then Some(N4(p.value, DUNNO)) else None;
        case Equal(b, c) =>
          var p, q := ScanPair(sub, b, c);
          if p.None? || q.None? { return None; }
          return Some(N5(p.value, q.value, EqualProd(p.value.prod, q.value.prod)));
        case Hax(ax, c, d) =>
          var v, t := ScanPair(sub, c, d);
          if v.None? || t.None? { return None; }
          return Some(N10(ax, v.value, t.value, HaxProd(ax, v.value.prod, t.value.prod)));
        case Hint(tag, d) =>
          var m := ScanFormula(sub, d);
          return if m.Some? then Some(N11(tag, m.value, m.value.prod)) else None;
        case Scry(b, c) =>
          var p, q := ScanPair(sub, b, c);
          if p.None? || q.None? { return None; }
          return Some(N12(p.value, q.value, DUNNO));
        case Apply(_, _) =>
          r := ScanTarget(sub, fol);
        case If(_, _, _) =>
          r := ScanTarget(sub, fol);
        case Invoke(_, _) =>
          r := ScanTarget(sub, fol);
        case _ =>
          r := ScanOrdered(sub, fol);
      }
    }

    /** The opcodes that choose the formula to go on with, once the node is paid for. */
    method ScanTarget(sub: Sock, fol: Noun) returns (r: Option<Nomm>)
      requires fol.Cell?
      requires var i := Decode(fol); i.Apply? || i.If? || i.Invoke?
      modifies this
      ensures (r, State()) == Scan(false, old(State().(arena := arena + NOMM_BYTES)), sub, fol)
      decreases arena, 8
    {
      hide Decode, SockPull, SockKnit, SockKnown, EqualProd, IfProd, HaxProd, Follows, ScanTwo, ScanApply, ScanInvoke, IsDirect;
      ghost var unpaid := State().(arena := arena + NOMM_BYTES);
      assert unpaid.(arena := unpaid.arena - NOMM_BYTES) == State();
      match Decode(fol) {
        case Apply(b, c) =>
          var p, q := ScanPair(sub, b, c);
          if p.None? || q.None? { return None; }
          if !q.value.prod.cape.Known? { return Some(NI2(p.value, q.value, DUNNO)); }
          var n := Resolve(p.value, q.value);
          return Some(n);
        case If(b, c, d) =>
          var i := ScanFormula(sub, b);
          var y, n := ScanPair(sub, c, d);
          if i.None? || y.None? || n.None? { return None; }
          return Some(N6(i.value, y.value, n.value, IfProd(i.value.prod, y.value.prod, n.value.prod)));
        case Invoke(ax, c) =>
          var p := ScanFormula(sub, c);
          if p.None? { return None; }
          var arm := SockPull(p.value.prod, ax);
          if !IsDirect(ax) || !arm.cape.Known? { return Some(N9(ax, p.value, DUNNO)); }
          var n := ResolveArm(p.value, ax, arm.data);
          return Some(n);
      }
    }

    /** The opcodes whose parts are scanned one after the other, once the node is paid for. */
    method ScanOrdered(sub: Sock, fol: Noun) returns (r: Option<Nomm>)
      requires fol.Cell?
      requires var i := Decode(fol); i.Compose? || i.Push? || i.Clue?
      modifies this
      ensures (r, State()) == Scan(false, old(State().(arena := arena + NOMM_BYTES)), sub, fol)
      decreases arena, 5
    {
      hide Decode, SockPull, SockKnit, SockKnown, EqualProd, IfProd, HaxProd, Follows, ScanTwo, ScanApply, ScanInvoke, IsDirect;
      ghost var unpaid := State().(arena := arena + NOMM_BYTES);
      assert unpaid.(arena := unpaid.arena - NOMM_BYTES) == State();
      match Decode(fol) {
        case Compose(b, c) =>
          var p := ScanFormula(sub, b);
          if p.None? { return None; }
          var q := ScanFormula(p.value.prod, c);
          return if q.Some? then Some(N7(p.value, q.value, q.value.prod)) else None;
        case Push(b, c) =>
          var p := ScanFormula(sub, b);
          if p.None? { return None; }
          var q := ScanFormula(SockKnit(p.value.prod, sub), c);
          return if q.Some? then Some(N8(p.value, q.value, q.value.prod)) else None;
        case Clue(tag, c, d) =>
          var m := ScanFormula(sub, d);
          if m.None? { return None; }
          var p := ScanFormula(sub, c);
          return if p.Some? then Some(N11Clue(tag, p.value, m.value, m.value.prod)) else None;
      }
    }

    /** Two formulas on one subject; the second is scanned whatever becomes of the first. */
    method ScanPair(sub: Sock, f: Noun, g: Noun) returns (p: Option<Nomm>, q: Option<Nomm>)
      modifies this
      ensures (Both(p, q), State()) == ScanTwo(false, old(State()), sub, f, g)
      decreases arena, 4
    {
      hide Scan, Follows;
      p := ScanFormula(sub, f);
      q := ScanFormula(sub, g);
    }

    /** Opcode 2 with a known formula. */
    method Resolve(p: Nomm, q: Nomm) returns (n: Nomm)
      modifies this
      ensures (n, State()) == ScanApply(false, old(State()), p, q)
      decreases arena, 7
    {
      hide Follows, Scan, ScanCall, SockHuge;
      var fol := q.prod.data;
      var trivial := fol.Cell? && IsDirect(fol.head) && fol.head.v <= 1;
      if trivial {
        n := Inline(p, q);
      } else {
        n := CallKnown(p, q, q.prod.data);
      }
    }

    /** A known slot or quote is compiled in place, unless the arena gives out. */
    method Inline(p: Nomm, q: Nomm) returns (n: Nomm)
      requires var fol := q.prod.data; fol.Cell? && IsDirect(fol.head) && fol.head.v <= 1
      modifies this
      ensures (n, State()) == ScanApply(false, old(State()), p, q)
      decreases arena, 6
    {
      hide Follows, Scan, ScanCall, SockHuge;
      var body := ScanFormula(p.prod, q.prod.data);
      if body.Some? {
        return N7(p, body.value, body.value.prod);
      }
      n := CallKnown(p, q, q.prod.data);
    }

    /** A call with a known formula. */
    method CallKnown(p: Nomm, q: Nomm, fol: Noun) returns (n: Nomm)
      modifies this
      ensures (n, State()) == ScanCall(false, old(State()), p, q, fol)
      decreases arena, 5
    {
      hide Follows, Scan, FindMemo, FindLoop, UseMemo, UseLoop, ScanBody, SockHuge;
      ghost var st := State();
      var hit := SearchMemo(fol, p.prod);
      if hit.Some? {
        n := CallMemo(hit.value, p, 0);
        assert ScanCall(false, st, p, q, fol) == UseMemo(false, st, hit.value, p, 0);
        return;
      }
      var loop := SearchLoop(fol, p.prod);
      if loop.Some? {
        n := CallLoop(loop.value, p, 0);
        assert ScanCall(false, st, p, q, fol) == UseLoop(false, st, loop.value, p, 0);
        return;
      }
      var body := ScanFresh(p, fol, 0);
      assert ScanBody(false, st, p, fol, 0) == (body, State());
      n := if body.Some? then body.value else NI2(p, q, DUNNO);
    }

    /** Opcode 9 with a known arm. */
    method ResolveArm(p: Nomm, ax: Noun, fol: Noun) returns (n: Nomm)
      requires IsDirect(ax)
      modifies this
      ensures (n, State()) == ScanInvoke(false, old(State()), p, ax, fol)
      decreases arena, 5
    {
      hide Follows, Scan, FindMemo, FindLoop, SockHuge, UseMemo, UseLoop, ScanBody;
      var loop := SearchLoop(fol, p.prod);
      if loop.Some? {
        n := CallLoop(loop.value, p, ax.v);
        return;
      }
      var hit := SearchMemo(fol, p.prod);
      if hit.Some? {
        n := CallMemo(hit.value, p, ax.v);
        return;
      }
      var body := ScanFresh(p, fol, ax.v);
      return if body.Some? then body.value else N9(ax, p, DUNNO);
    }

    /** A fresh scan in a frame of its own, remembered if it succeeds.  When the frame stack is
        full the push is dropped but the pop still happens. */
    method ScanFresh(p: Nomm, fol: Noun, arm: nat) returns (n: Option<Nomm>)
      modifies this
      ensures (n, State()) == ScanBody(false, old(State()), p, fol, arm)
      decreases arena, 4
    {
      hide Follows, Scan;
      hide CloseBody, OpenBody, Remember, PushFols, PopFols;
      ghost var st := State();
      var site := gen;
      OpenFrame(p, fol);
      assert State() == OpenBody(st, p, fol);
      var body := ScanFormula(p.prod, fol);
      n := CloseFrame(body, p, fol, arm, site);
    }

    method OpenFrame(p: Nomm, fol: Noun)
      modifies this`gen, this`fols
      ensures State() == OpenBody(old(State()), p, fol)
    {
      if |fols| < MAX_FOLS {
        fols := fols + [Frame(fol, p.prod, gen)];
      }
      gen := gen + 1;
    }

    method CloseFrame(body: Option<Nomm>, p: Nomm, fol: Noun, arm: nat, site: nat) returns (n: Option<Nomm>)
      modifies this`memo, this`fols
      ensures (n, State()) == CloseBody((body, old(State())), p, fol, arm, site)
    {
      if |fols| > 0 {
        fols := fols[..|fols| - 1];
      }
      if body.None? {
        return None;
      }
      if |memo| < MAX_MEMO {
        memo := memo + [Memo(fol, p.prod, body.value)];
      }
      return Some(NDS2(p, body, fol, arm, site, body.value.prod));
    }
  }
}
