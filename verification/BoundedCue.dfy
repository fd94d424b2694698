/** The resource-bounded decoder of src/bounded_cue.c. */
module BoundedCues {
  import opened Nouns
  import opened Arith
  import opened Bits
  import opened Cues
  import opened Probe
  import AtomStore

  /** The status codes, with what was asked for where a limit refuses it.  `CUE_BOUNDED_BACKREF`
      and `CUE_BOUNDED_ATOM` each stand for two of these, and `CUE_BOUNDED_ALLOC` for the last three:
      an atom that is not made, a cell for which there is no room, a transaction that is live already. */
  datatype Status =
    | Fine | Input | Truncated | Depth | Work(asked: nat) | Nodes | Cells | BackrefLimit | BackrefBad
    | CacheFull | AtomLimit(bytes: nat) | AtomBad | Trailing
    | NoAtom(value: nat) | NoCell | Busy

  datatype Limits = Limits(maxInputBytes: nat, maxDepth: nat, maxNodes: nat, maxCells: nat, maxBackrefs: nat,
                           maxEntries: nat, maxAtomBytes: nat, maxTotalAtomBytes: nat, maxWork: nat)

  const TABLE_SIZE: nat := 131072

  /** The noun memory as a decode finds it: what the atom store allows and holds, the next free cell
      and the end of the room, and whether a transaction is live. */
  datatype Memory = Memory(terms: AtomStore.Terms, ledger: AtomStore.Ledger, top: nat, limit: nat, busy: bool)

  /** What stays the same during a decode: the input, as a number and a count of bits; the limits;
      the table's probe starts; and the memory it began with. */
  datatype Job = Job(a: nat, bits: nat, lim: Limits, hash: nat -> nat, mem: Memory)

  function ShapeOf(j: Job): Shape {
    Shape(j.hash, TABLE_SIZE, j.lim.maxEntries)
  }

  predicate JobOk(j: Job) {
    0 < j.lim.maxEntries <= TABLE_SIZE
  }

  /** The reader's counters and its table, and the noun memory as it stands. */
  datatype Rd = Rd(cur: nat, status: Status, work: nat, atomBytes: nat, nodes: nat, cells: nat, backrefs: nat,
                   entries: nat, depth: nat, table: seq<Entry<Noun>>, ledger: AtomStore.Ledger, top: nat)

  predicate RdOk(r: Rd) {
    |r.table| == TABLE_SIZE
  }

  function Fail(r: Rd, s: Status): Rd {
    r.(status := s)
  }

  /** `charge`. */
  function Charge(j: Job, r: Rd, n: nat): Rd {
    if !r.status.Fine? then r
    else if n > j.lim.maxWork || r.work > j.lim.maxWork - n then Fail(r, Work(n))
    else r.(work := r.work + n)
  }

  /** `read_bit`. */
  function ReadBit(j: Job, r: Rd): (Rd, bool) {
    var r1 := Charge(j, r, 1);
    if !r1.status.Fine? then (r1, false)
    else if r1.cur >= j.bits then (Fail(r1, Truncated), false)
    else (r1.(cur := r1.cur + 1), BitAt(j.a, r1.cur))
  }

  /** The loop of `cache_put`. */
  function CachePut(j: Job, r: Rd, pos: nat, val: Noun, i: nat): (r': Rd)
    requires JobOk(j) && RdOk(r)
    ensures RdOk(r')
    decreases j.lim.maxEntries - i
  {
    if i >= j.lim.maxEntries then Fail(r, CacheFull) else
    var r1 := Charge(j, r, 1);
    if !r1.status.Fine? then r1 else
    var at := At(ShapeOf(j), pos, i);
    if r1.table[at].Vacant? then
      if r1.entries >= j.lim.maxEntries then Fail(r1, CacheFull)
      else r1.(table := r1.table[at := Full(pos, val)], entries := r1.entries + 1)
    else if r1.table[at].key == pos then r1.(table := r1.table[at := Full(pos, val)])
    else CachePut(j, r1, pos, val, i + 1)
  }

  /** The loop of `cache_get`. */
  function CacheGet(j: Job, r: Rd, pos: nat, i: nat): (res: (Rd, Noun))
    requires JobOk(j) && RdOk(r)
    ensures RdOk(res.0)
    decreases j.lim.maxEntries - i
  {
    if i >= j.lim.maxEntries then (Fail(r, BackrefBad), Atom(0)) else
    var r1 := Charge(j, r, 1);
    if !r1.status.Fine? then (r1, Atom(0)) else
    var at := At(ShapeOf(j), pos, i);
    if r1.table[at].Vacant? then (Fail(r1, BackrefBad), Atom(0))
    else if r1.table[at].key == pos then (r1, r1.table[at].val)
    else CacheGet(j, r1, pos, i + 1)
  }

  /** The unary loop of `decode_mat`. */
  function MatZeros(j: Job, r: Rd, z: nat): (res: (Rd, nat))
    requires z <= 63
    ensures res.1 <= 63
    decreases 64 - z
  {
    var (r1, bit) := ReadBit(j, r);
    if !r1.status.Fine? || bit then (r1, z)
    else if z + 1 > 63 then (Fail(r1, AtomBad), z)
    else MatZeros(j, r1, z + 1)
  }

  /** The loops that gather `n` bits. */
  function ReadN(j: Job, r: Rd, n: nat): (Rd, nat)
    decreases n
  {
    if n == 0 then (r, 0) else
    var (r1, bit) := ReadBit(j, r);
    if !r1.status.Fine? then (r1, 0) else
    var (r2, rest) := ReadN(j, r1, n - 1);
    (r2, (if bit then 1 else 0) + 2 * rest)
  }

  /** The head of `decode_mat`: the bit length of the number, 0 for the number 0. */
  function MatHead(j: Job, r: Rd): (Rd, nat) {
    var (r1, z) := MatZeros(j, r, 0);
    if !r1.status.Fine? || z == 0 then (r1, 0) else
    var (r2, low) := ReadN(j, r1, z - 1);
    if !r2.status.Fine? then (r2, 0) else (r2, Pow2(z - 1) + low)
  }

  /** The limits on an atom of so many bytes, and the work it is charged. */
  function Admit(j: Job, r: Rd, bytes: nat): Rd {
    if bytes > j.lim.maxAtomBytes || bytes > 8 * MAX_LIMBS || r.atomBytes + bytes > j.lim.maxTotalAtomBytes then
      Fail(r, AtomLimit(bytes))
    else Charge(j, r.(atomBytes := r.atomBytes + bytes), bytes)
  }

  /** `make_atom_checked`. */
  function TakeAtom(j: Job, r: Rd, v: nat): Rd {
    var made := AtomStore.Made(j.mem.terms, r.ledger, v);
    if made.Some? then r.(ledger := made.value) else Fail(r, NoAtom(v))
  }

  /** `alloc_cell_checked`. */
  function TakeCell(j: Job, r: Rd): Rd {
    if j.mem.terms.noalloc || r.top >= j.mem.limit then Fail(r, NoCell) else r.(top := r.top + 1)
  }

  /** `decode_mat`. */
  function DecodeMat(j: Job, r: Rd): (Rd, nat) {
    var (r1, bits) := MatHead(j, r);
    if !r1.status.Fine? || bits == 0 then (r1, 0) else
    var r2 := Admit(j, r1, (bits + 7) / 8);
    if !r2.status.Fine? then (r2, 0) else
    var (r3, v) := ReadN(j, r2, bits);
    (if r3.status.Fine? then TakeAtom(j, r3, v) else r3, v)
  }

  /** The start of `decode_noun`: the depth, the node, and its work. */
  function Enter(j: Job, r: Rd, depth: nat): Rd {
    var r1 := r.(depth := if depth > r.depth then depth else r.depth);
    if depth > j.lim.maxDepth then Fail(r1, Depth) else
    var r2 := r1.(nodes := r1.nodes + 1);
    if r2.nodes > j.lim.maxNodes then Fail(r2, Nodes) else Charge(j, r2, 1)
  }

  /** `decode_noun`. */
  function Decode(j: Job, r: Rd, depth: nat): (res: (Rd, Noun))
    requires JobOk(j) && RdOk(r)
    ensures RdOk(res.0)
    decreases j.lim.maxDepth - depth, 2
  {
    var r3 := Enter(j, r, depth);
    if !r3.status.Fine? || depth > j.lim.maxDepth then (r3, Atom(0)) else
    var (r4, n) := DecodeNode(j, r3, depth);
    if !r4.status.Fine? then (r4, n) else (CachePut(j, r4, r3.cur, n, 0), n)
  }

  /** The part of `decode_noun` between the start of the node and the store of its result. */
  function DecodeNode(j: Job, r: Rd, depth: nat): (res: (Rd, Noun))
    requires JobOk(j) && RdOk(r) && depth <= j.lim.maxDepth
    ensures RdOk(res.0)
    decreases j.lim.maxDepth - depth, 1
  {
    var (r1, tag0) := ReadBit(j, r);
    if !r1.status.Fine? then (r1, Atom(0)) else
    if !tag0 then
      MatKeepsTable(j, r1);
      var (r2, v) := DecodeMat(j, r1);
      (r2, Atom(v))
    else
      var (r2, tag1) := ReadBit(j, r1);
      if !r2.status.Fine? then (r2, Atom(0))
      else if tag1 then DecodeBackref(j, r2, r.cur)
      else
        var r3 := r2.(cells := r2.cells + 1);
        if r3.cells > j.lim.maxCells then (Fail(r3, Cells), Atom(0)) else
        if depth >= j.lim.maxDepth then (Fail(r3, Depth), Atom(0)) else
        DecodePair(j, r3, depth)
  }

  /** The halves of a cell, and the cell. */
  function DecodePair(j: Job, r: Rd, depth: nat): (res: (Rd, Noun))
    requires JobOk(j) && RdOk(r) && depth < j.lim.maxDepth
    ensures RdOk(res.0)
    decreases j.lim.maxDepth - depth, 0
  {
    var (r1, head) := Decode(j, r, depth + 1);
    if !r1.status.Fine? then (r1, head) else
    var (r2, tail) := Decode(j, r1, depth + 1);
    (if r2.status.Fine? then TakeCell(j, r2) else r2, Cell(head, tail))
  }

  /** The branch for a back-reference, behind its tag. */
  function DecodeBackref(j: Job, r: Rd, start: nat): (res: (Rd, Noun))
    requires JobOk(j) && RdOk(r)
    ensures RdOk(res.0)
  {
    var r1 := r.(backrefs := r.backrefs + 1);
    if r1.backrefs > j.lim.maxBackrefs then (Fail(r1, BackrefLimit), Atom(0)) else
    MatKeepsTable(j, r1);
    var (r2, pos) := DecodeMat(j, r1);
    if !r2.status.Fine? then (r2, Atom(0))
    else if pos >= DIRECT_LIMIT || pos >= start then (Fail(r2, BackrefBad), Atom(0))
    else CacheGet(j, r2, pos, 0)
  }

  predicate SameTable(r: Rd, r': Rd) {
    r'.table == r.table && r'.entries == r.entries && r'.nodes == r.nodes && r'.cells == r.cells
    && r'.backrefs == r.backrefs && r'.depth == r.depth
  }

  lemma {:induction false} ZerosKeepTable(j: Job, r: Rd, z: nat)
    requires z <= 63
    ensures SameTable(r, MatZeros(j, r, z).0)
    decreases 64 - z
  {
    hide BitAt;
    var (r1, bit) := ReadBit(j, r);
    if r1.status.Fine? && !bit && z + 1 <= 63 {
      ZerosKeepTable(j, r1, z + 1);
    }
  }

  lemma {:induction false} ReadNKeepsTable(j: Job, r: Rd, n: nat)
    ensures SameTable(r, ReadN(j, r, n).0)
    decreases n
  {
    hide BitAt;
    if n > 0 {
      var (r1, bit) := ReadBit(j, r);
      if r1.status.Fine? {
        ReadNKeepsTable(j, r1, n - 1);
      }
    }
  }

  /** Reading a number touches neither the table nor any counter but its own. */
  lemma MatKeepsTable(j: Job, r: Rd)
    ensures SameTable(r, DecodeMat(j, r).0)
  {
    hide MatZeros, ReadN, Pow2;
    ZerosKeepTable(j, r, 0);
    var (r1, z) := MatZeros(j, r, 0);
    if r1.status.Fine? && z > 0 {
      ReadNKeepsTable(j, r1, z - 1);
    }
    hide MatHead;
    var (r2, bits) := MatHead(j, r);
    ReadNKeepsTable(j, Admit(j, r2, (bits + 7) / 8), bits);
  }

  // ----- The whole input -----

  function Vacants(n: nat): (t: seq<Entry<Noun>>)
    ensures |t| == n
  {
    seq(n, _ => Vacant)
  }

  /** The reader at the start, with a cleared table. */
  function Begin(j: Job): (r: Rd)
    ensures RdOk(r)
  {
    Rd(0, Fine, 0, 0, 0, 0, 0, 0, 0, Vacants(TABLE_SIZE), j.mem.ledger, j.mem.top)
  }

  /** The bits behind the noun must be zero. */
  function Trail(j: Job, r: Rd): Rd
    decreases j.bits - r.cur
  {
    if r.cur >= j.bits then r else
    var (r1, bit) := ReadBit(j, r);
    if !r1.status.Fine? then r1
    else if bit then Fail(r1, Trailing)
    else Trail(j, r1)
  }

  /** The noun, and nothing but zero bits behind it. */
  function Whole(j: Job): (Rd, Noun)
    requires JobOk(j)
  {
    var (r, n) := Decode(j, Begin(j), 1);
    if !r.status.Fine? then (r, Atom(0))
    else if r.cur + 7 < j.bits then (Fail(r, Trailing), Atom(0))
    else (Trail(j, r), n)
  }

  /** `cue_bounded_bytes` on an input of `j.bits` bits: the reader at the end, whose status is the
      answer, and the noun on success. */
  function Bounded(j: Job): (Rd, Noun) {
    if j.bits == 0 || j.bits / 8 > j.lim.maxInputBytes || !JobOk(j) then (Fail(Begin(j), Input), Atom(0)) else
    if j.mem.busy then (Fail(Begin(j), Busy), Atom(0)) else
    Whole(j)
  }
}
