/** Subject knowledge analysis of src/ska.c: the scan of a formula into an annotated tree. */
module Ska {
  import opened Nouns
  import opened Nock
  import opened Socks

  /** The annotated tree; `prod` is what the scan knows about the result of a node. */
  datatype Nomm =
    | N0(ax: Noun, prod: Sock)
    | N1(val: Noun, prod: Sock)
    | N3(p: Nomm, prod: Sock)
    | N4(p: Nomm, prod: Sock)
    | N5(p: Nomm, q: Nomm, prod: Sock)
    | N6(c: Nomm, y: Nomm, n: Nomm, prod: Sock)
    | N7(p: Nomm, q: Nomm, prod: Sock)
    | N8(p: Nomm, q: Nomm, prod: Sock)
    | N9(ax: Noun, p: Nomm, prod: Sock)
    | N10(ax: Noun, p: Nomm, q: Nomm, prod: Sock)
    | N11(tag: Noun, main: Nomm, prod: Sock)
    | N11Clue(tag: Noun, p: Nomm, main: Nomm, prod: Sock)
    | N12(p: Nomm, q: Nomm, prod: Sock)
    | NDist(p: Nomm, q: Nomm, prod: Sock)
    | NI2(p: Nomm, q: Nomm, prod: Sock)
    // A call whose formula is known; no body is a loop back to an open frame.
    | NDS2(p: Nomm, body: Option<Nomm>, fol: Noun, arm: nat, site: nat, prod: Sock)

  datatype Frame = Frame(fol: Noun, sub: Sock, site: nat)
  datatype Frond = Frond(par: nat, kid: nat, parSub: Sock, kidSub: Sock)
  datatype Memo = Memo(fol: Noun, sub: Sock, body: Nomm)

  const NOMM_BYTES: nat := 80
  const MAX_FOLS: nat := 64
  const MAX_FRONDS: nat := 64
  const MAX_MEMO: nat := 64

  /** The statics of one scan pass.  `misled` is not in the source: it records that a memo was
      reused for a subject its own subject does not cover. */
  datatype Pass = Pass(arena: nat, fols: seq<Frame>, gen: nat, memo: seq<Memo>,
                       fronds: seq<Frond>, block: seq<(nat, nat)>, misled: bool)

  function PushFols(st: Pass, fol: Noun, sub: Sock, site: nat): Pass {
    if |st.fols| >= MAX_FOLS then st else st.(fols := st.fols + [Frame(fol, sub, site)])
  }

  function PopFols(st: Pass): Pass {
    if st.fols == [] then st else st.(fols := st.fols[..|st.fols| - 1])
  }

  function RecordFrond(st: Pass, f: Frond): Pass {
    if |st.fronds| >= MAX_FRONDS then st else st.(fronds := st.fronds + [f])
  }

  function Remember(st: Pass, m: Memo): Pass {
    if |st.memo| < MAX_MEMO then st.(memo := st.memo + [m]) else st
  }

  /** The memo test: as written the stored subject must know at least as much as the new one;
      turned round, the new one must know at least as much as the stored one. */
  predicate MemoTest(turned: bool, stored: Sock, sub: Sock) {
    if turned then SockHuge(sub, stored) else SockHuge(stored, sub)
  }

  /** The first memo of `fol` that passes the test. */
  function FindMemo(turned: bool, memo: seq<Memo>, fol: Noun, sub: Sock): (r: Option<Memo>)
    ensures r.Some? ==> r.value in memo && r.value.fol == fol && MemoTest(turned, r.value.sub, sub)
  {
    if memo == [] then None
    else if memo[0].fol == fol && MemoTest(turned, memo[0].sub, sub) then Some(memo[0])
    else FindMemo(turned, memo[1..], fol, sub)
  }

  /** The innermost open frame of `fol` whose subject knows at least as much. */
  function FindLoop(st: Pass, fols: seq<Frame>, fol: Noun, sub: Sock): (r: Option<Frame>)
    ensures r.Some? ==> SockHuge(r.value.sub, sub) && r.value.fol == fol
  {
    if fols == [] then None
    else
      var f := fols[|fols| - 1];
      if f.fol == fol && (f.site, st.gen) !in st.block && SockHuge(f.sub, sub) then Some(f)
      else FindLoop(st, fols[..|fols| - 1], fol, sub)
  }

  /** Every recorded loop assumption passes the test `ska_nock` puts it to after the scan. */
  predicate FrondsHold(fronds: seq<Frond>) {
    forall j :: 0 <= j < |fronds| ==> SockHuge(fronds[j].parSub, fronds[j].kidSub)
  }

  /** What any part of a scan does to the pass state: it only uses up arena, leaves the block
      list alone, records only loop assumptions that hold, and, with the memo test turned
      round, is never misled. */
  predicate Follows(turned: bool, st: Pass, st': Pass) {
    && st'.arena <= st.arena
    && st'.block == st.block
    && (st.misled ==> st'.misled)
    && (turned && !st.misled ==> !st'.misled)
    && (FrondsHold(st.fronds) ==> FrondsHold(st'.fronds))
  }

  /** A call that reuses the body and product of a memo. */
  function UseMemo(turned: bool, st: Pass, m: Memo, p: Nomm, arm: nat): (r: (Nomm, Pass))
    requires MemoTest(turned, m.sub, p.prod)
    ensures Follows(turned, st, r.1)
  {
    (NDS2(p, Some(m.body), m.fol, arm, st.gen, m.body.prod),
     st.(gen := st.gen + 1, misled := st.misled || !SockHuge(p.prod, m.sub)))
  }

  /** A call that loops back to an open frame. */
  function UseLoop(turned: bool, st: Pass, f: Frame, p: Nomm, arm: nat): (r: (Nomm, Pass))
    requires SockHuge(f.sub, p.prod)
    ensures Follows(turned, st, r.1)
  {
    (NDS2(p, None, f.fol, arm, st.gen, DUNNO),
     RecordFrond(st, Frond(f.site, st.gen, f.sub, p.prod)).(gen := st.gen + 1))
  }

  /** Both operands of a node, or nothing if either could not be scanned. */
  function Both(p: Option<Nomm>, q: Option<Nomm>): Option<(Nomm, Nomm)> {
    if p.Some? && q.Some? then Some((p.value, q.value)) else None
  }

  function EqualProd(p: Sock, q: Sock): Sock {
    if p.cape.Known? && q.cape.Known? && p.data == q.data then SockKnown(YES) else DUNNO
  }

  function IfProd(c: Sock, y: Sock, n: Sock): Sock {
    if c.cape.Known? then (if c.data == YES then y else n) else SockPurr(y, n)
  }

  function HaxProd(ax: Noun, v: Sock, t: Sock): Sock {
    if t.cape.Known? && v.cape.Known? then SockDarn(t, ax, v) else DUNNO
  }

  /** `scan` of a formula against a subject sock. */
  function Scan(turned: bool, st: Pass, sub: Sock, fol: Noun): (r: (Option<Nomm>, Pass))
    ensures r.1.arena <= st.arena && Follows(turned, st, r.1)
    decreases st.arena, 3
  {
    if fol.Atom? || st.arena < NOMM_BYTES then (None, st) else
    var st := st.(arena := st.arena - NOMM_BYTES);
    match Decode(fol)
    case Bad => (None, st)
    case Axis(ax) => (Some(N0(ax, SockPull(sub, ax))), st)
    case Quote(v) => (Some(N1(v, SockKnown(v))), st)
    case Dist(a, b) =>
      var (r, st) := ScanTwo(turned, st, sub, a, b);
      (if r.Some? then Some(NDist(r.value.0, r.value.1, SockKnit(r.value.0.prod, r.value.1.prod))) else None, st)
    case Apply(b, c) =>
      var (r, st) := ScanTwo(turned, st, sub, b, c);
      if r.None? then (None, st) else
      var (p, q) := r.value;
      if !q.prod.cape.Known? then (Some(NI2(p, q, DUNNO)), st) else
      var (n, st) := ScanApply(turned, st, p, q);
      (Some(n), st)
    case IsCell(b) =>
      var (p, st) := Scan(turned, st, sub, b);
      (if p.Some? then Some(N3(p.value, DUNNO)) else None, st)
    case Bump(b) =>
      var (p, st) := Scan(turned, st, sub, b);
      (if p.Some? then Some(N4(p.value, DUNNO)) else None, st)
    case Equal(b, c) =>
      var (r, st) := ScanTwo(turned, st, sub, b, c);
      if r.None? then (None, st) else
      var (p, q) := r.value;
      (Some(N5(p, q, EqualProd(p.prod, q.prod))), st)
    case If(b, c, d) =>
      var (i, st) := Scan(turned, st, sub, b);
      var (r, st) := ScanTwo(turned, st, sub, c, d);
      if i.None? || r.None? then (None, st) else
      var (y, n) := r.value;
      (Some(N6(i.value, y, n, IfProd(i.value.prod, y.prod, n.prod))), st)
    case Compose(b, c) =>
      var (p, st) := Scan(turned, st, sub, b);
      if p.None? then (None, st) else
      var (q, st) := Scan(turned, st, p.value.prod, c);
      (if q.Some? then Some(N7(p.value, q.value, q.value.prod)) else None, st)
    case Push(b, c) =>
      var (p, st) := Scan(turned, st, sub, b);
      if p.None? then (None, st) else
      var (q, st) := Scan(turned, st, SockKnit(p.value.prod, sub), c);
      (if q.Some? then Some(N8(p.value, q.value, q.value.prod)) else None, st)
    case Invoke(ax, c) =>
      var (p, st) := Scan(turned, st, sub, c);
      if p.None? then (None, st) else
      var arm := SockPull(p.value.prod, ax);
      if !IsDirect(ax) || !arm.cape.Known? then (Some(N9(ax, p.value, DUNNO)), st) else
      var (n, st) := ScanInvoke(turned, st, p.value, ax, arm.data);
      (Some(n), st)
    case Hax(ax, c, d) =>
      var (r, st) := ScanTwo(turned, st, sub, c, d);
      if r.None? then (None, st) else
      var (v, t) := r.value;
      (Some(N10(ax, v, t, HaxProd(ax, v.prod, t.prod))), st)
    case Hint(tag, d) =>
      var (m, st) := Scan(turned, st, sub, d);
      (if m.Some? then Some(N11(tag, m.value, m.value.prod)) else None, st)
    case Clue(tag, c, d) =>
      var (m, st) := Scan(turned, st, sub, d);
      if m.None? then (None, st) else
      var (p, st) := Scan(turned, st, sub, c);
      (if p.Some? then Some(N11Clue(tag, p.value, m.value, m.value.prod)) else None, st)
    case Scry(b, c) =>
      var (r, st) := ScanTwo(turned, st, sub, b, c);
      (if r.Some? then Some(N12(r.value.0, r.value.1, DUNNO)) else None, st)
  }

  /** Two formulas against one subject; the second is scanned even if the first fails. */
  function ScanTwo(turned: bool, st: Pass, sub: Sock, f: Noun, g: Noun): (r: (Option<(Nomm, Nomm)>, Pass))
    ensures r.1.arena <= st.arena && Follows(turned, st, r.1)
    decreases st.arena, 4
  {
    hide SockHuge;
    var (p, st) := Scan(turned, st, sub, f);
    var (q, st) := Scan(turned, st, sub, g);
    (Both(p, q), st)
  }

  /** Opcode 2 with a known formula: inline a slot or a quote, else a call. */
  function ScanApply(turned: bool, st: Pass, p: Nomm, q: Nomm): (r: (Nomm, Pass))
    ensures r.1.arena <= st.arena && Follows(turned, st, r.1)
    decreases st.arena, 6
  {
    hide SockHuge, FrondsHold, FindMemo, FindLoop, UseMemo, UseLoop;
    var fol := q.prod.data;
    if fol.Cell? && IsDirect(fol.head) && fol.head.v <= 1 then
      var r := Scan(turned, st, p.prod, fol);
      if r.0.Some? then (N7(p, r.0.value, r.0.value.prod), r.1) else ScanCall(turned, r.1, p, q, fol)
    else ScanCall(turned, st, p, q, fol)
  }

  /** A call with a known formula: memo, loop, fresh scan. */
  function ScanCall(turned: bool, st: Pass, p: Nomm, q: Nomm, fol: Noun): (r: (Nomm, Pass))
    ensures r.1.arena <= st.arena && Follows(turned, st, r.1)
    decreases st.arena, 5
  {
    hide SockHuge, FrondsHold, FindMemo, FindLoop, UseMemo, UseLoop;
    var memo := FindMemo(turned, st.memo, fol, p.prod);
    if memo.Some? then UseMemo(turned, st, memo.value, p, 0) else
    var loop := FindLoop(st, st.fols, fol, p.prod);
    if loop.Some? then UseLoop(turned, st, loop.value, p, 0) else
    var r := ScanBody(turned, st, p, fol, 0);
    (if r.0.Some? then r.0.value else NI2(p, q, DUNNO), r.1)
  }

  /** Opcode 9 with a known arm: loop, memo, fresh scan. */
  function ScanInvoke(turned: bool, st: Pass, p: Nomm, ax: Noun, fol: Noun): (r: (Nomm, Pass))
    requires IsDirect(ax)
    ensures r.1.arena <= st.arena && Follows(turned, st, r.1)
    decreases st.arena, 5
  {
    hide SockHuge, FrondsHold, FindMemo, FindLoop, UseMemo, UseLoop;
    var loop := FindLoop(st, st.fols, fol, p.prod);
    if loop.Some? then UseLoop(turned, st, loop.value, p, ax.v) else
    var memo := FindMemo(turned, st.memo, fol, p.prod);
    if memo.Some? then UseMemo(turned, st, memo.value, p, ax.v) else
    var (body, st') := ScanBody(turned, st, p, fol, ax.v);
    (if body.Some? then body.value else N9(ax, p, DUNNO), st')
  }

  /** A fresh scan of a called formula, in a frame of its own. */
  function ScanBody(turned: bool, st: Pass, p: Nomm, fol: Noun, arm: nat): (r: (Option<Nomm>, Pass))
    ensures r.1.arena <= st.arena && Follows(turned, st, r.1)
    decreases st.arena, 4
  {
    hide SockHuge, OpenBody, CloseBody, FrondsHold;
    OpenFollows(turned, st, p, fol);
    var scanned := Scan(turned, OpenBody(st, p, fol), p.prod, fol);
    CloseFollows(turned, scanned, p, fol, arm, st.gen);
    CloseBody(scanned, p, fol, arm, st.gen)
  }

  function OpenBody(st: Pass, p: Nomm, fol: Noun): Pass {
    PushFols(st.(gen := st.gen + 1), fol, p.prod, st.gen)
  }

  function CloseBody(scanned: (Option<Nomm>, Pass), p: Nomm, fol: Noun, arm: nat, site: nat): (Option<Nomm>, Pass) {
    var (body, st) := (scanned.0, PopFols(scanned.1));
    if body.None? then (None, st) else
    (Some(NDS2(p, body, fol, arm, site, body.value.prod)),
     Remember(st, Memo(fol, p.prod, body.value)))
  }

  lemma OpenFollows(turned: bool, st: Pass, p: Nomm, fol: Noun)
    ensures Follows(turned, st, OpenBody(st, p, fol))
  {
    hide FrondsHold;
  }

  lemma CloseFollows(turned: bool, scanned: (Option<Nomm>, Pass), p: Nomm, fol: Noun, arm: nat, site: nat)
    ensures Follows(turned, scanned.1, CloseBody(scanned, p, fol, arm, site).1)
  {
    hide FrondsHold;
  }
}
