/** What `blake3_hash` computes, as a term over the compression function. */
module Blake3Terms {
  import opened Arith
  import opened Bytes
  import opened Blake3
  import opened Blake3Machine

  datatype Term = Iv | Compress(cv: Term, block: Block<Term>, len: nat, counter: nat, flags: nat)

  /** The term's value on a machine. */
  function Value<V>(m: Machine<V>, t: Term): V {
    match t
    case Iv => m.iv
    case Compress(cv, Data(bytes), len, counter, flags) => m.compress(Value(m, cv), Data(bytes), len, counter, flags)
    case Compress(cv, Pair(l, r), len, counter, flags) => m.compress(Value(m, cv), Pair(Value(m, l), Value(m, r)), len, counter, flags)
  }

  /** What is not a parent, from left to right. */
  function Leaves(t: Term): (ts: seq<Term>)
    ensures |ts| > 0
  {
    if t.Compress? && t.block.Pair? then Leaves(t.block.left) + Leaves(t.block.right) else [t]
  }

  /** A compression as a link of a chain. */
  datatype Link = Link(block: Block<Term>, len: nat, counter: nat, flags: nat)

  /** The compressions that lead from the initial value to the term, first to last. */
  function Links(t: Term): seq<Link> {
    match t
    case Iv => []
    case Compress(cv, block, len, counter, flags) => Links(cv) + [Link(block, len, counter, flags)]
  }

  /** A chunk of no bytes has one block. */
  function BlockCount(len: nat): nat {
    if len == 0 then 1 else (len + BLOCK_LEN - 1) / BLOCK_LEN
  }

  /** The `k`-th block of a chunk. */
  function Expected(data: seq<Byte>, i: nat, root: bool, k: nat): Link
    requires BLOCK_LEN * k <= |data|
  {
    var n := Min(BLOCK_LEN, |data| - BLOCK_LEN * k);
    Link(Data(data[BLOCK_LEN * k..BLOCK_LEN * k + n] + Zeros(BLOCK_LEN - n)), n, i,
         (if k == 0 then CHUNK_START else 0) + (if k + 1 == BlockCount(|data|) then CHUNK_END + (if root then ROOT else 0) else 0))
  }

  lemma BlockInside(len: nat, k: nat)
    requires k < BlockCount(len)
    ensures BLOCK_LEN * k <= len
  {
  }

  /** A chunk: its blocks in order, each with the chunk's counter, the first marked, and the last. */
  predicate IsChunk(t: Term, data: seq<Byte>, i: nat, root: bool) {
    && |Links(t)| == BlockCount(|data|)
    && forall k :: 0 <= k < |Links(t)| ==> BLOCK_LEN * k <= |data| && Links(t)[k] == Expected(data, i, root, k)
  }

  /** Every parent pairs the value over the lower chunks with the value over the higher ones, the
      lower being the largest power of two that leaves some; only the topmost has ROOT. */
  predicate ParentsOk(t: Term, root: bool) {
    t.Compress? && t.block.Pair? ==>
      && t.cv == Iv && t.len == BLOCK_LEN && t.counter == 0 && t.flags == PARENT + (if root then ROOT else 0)
      && |Leaves(t.block.left)| == HighBit(|Leaves(t)| - 1)
      && ParentsOk(t.block.left, false) && ParentsOk(t.block.right, false)
  }

  /** The leaves are the chunks from `lo` on. */
  predicate LeavesOk(t: Term, input: seq<Byte>, lo: nat, root: bool) {
    forall i :: 0 <= i < |Leaves(t)| ==> IsChunk(Leaves(t)[i], Chunk(input, lo + i), lo + i, root && |Leaves(t)| == 1)
  }

  /** The term is the hash tree of the input. */
  predicate IsHash(t: Term, input: seq<Byte>) {
    |Leaves(t)| == ChunkCount(|input|) && LeavesOk(t, input, 0, true) && ParentsOk(t, true)
  }

  // ----- The program's value is that of such a term -----

  const TERMS: Machine<Term> := Machine(Iv, (cv, block, len, counter, flags) => Compress(cv, block, len, counter, flags))

  /** The first `k` blocks. */
  predicate Chained(cv: Term, data: seq<Byte>, i: nat, root: bool, k: nat) {
    && |Links(cv)| == k && !(cv.Compress? && cv.block.Pair?)
    && forall x :: 0 <= x < k ==> BLOCK_LEN * x <= |data| && Links(cv)[x] == Expected(data, i, root, x)
  }

  lemma OneMore(cv: Term, data: seq<Byte>, i: nat, root: bool, k: nat)
    requires Chained(cv, data, i, root, k) && BLOCK_LEN * k <= |data|
    ensures var e := Expected(data, i, root, k);
            Chained(Compress(cv, e.block, e.len, e.counter, e.flags), data, i, root, k + 1)
  {
    hide Expected;
    var e := Expected(data, i, root, k);
    var next := Compress(cv, e.block, e.len, e.counter, e.flags);
    assert Links(next) == Links(cv) + [e];
    DataBlock(data, i, root, k);
  }

  lemma DataBlock(data: seq<Byte>, i: nat, root: bool, k: nat)
    requires BLOCK_LEN * k <= |data|
    ensures Expected(data, i, root, k).block.Data?
  {
  }

  /** One turn of the block loop. */
  lemma Turn(data: seq<Byte>, i: nat, root: bool, cv: Term, k: nat)
    requires k < BlockCount(|data|) && BLOCK_LEN * k <= |data|
    ensures var e := Expected(data, i, root, k);
            var next := Compress(cv, e.block, e.len, e.counter, e.flags);
            ChunkFrom(TERMS, data, i, RootFlag(root), cv, BLOCK_LEN * k)
              == if k + 1 == BlockCount(|data|) then next
                 else (BlockInside(|data|, k + 1); ChunkFrom(TERMS, data, i, RootFlag(root), next, BLOCK_LEN * (k + 1)))
  {
    var n := Min(BLOCK_LEN, |data| - BLOCK_LEN * k);
    assert BLOCK_LEN * k + n >= |data| <==> k + 1 == BlockCount(|data|);
    assert k + 1 < BlockCount(|data|) ==> BLOCK_LEN * k + n == BLOCK_LEN * (k + 1);
    hide ChunkFrom;
    TurnIs(TERMS, data, i, RootFlag(root), cv, BLOCK_LEN * k);
  }

  lemma TurnIs<V>(m: Machine<V>, data: seq<Byte>, i: nat, final: nat, cv: V, pos: nat)
    requires pos <= |data|
    ensures var n := Min(BLOCK_LEN, |data| - pos);
            var flags := (if pos == 0 then CHUNK_START else 0) + (if pos + n >= |data| then CHUNK_END + final else 0);
            var next := m.compress(cv, Data(BlockAt(data, pos, n)), n, i, flags);
            ChunkFrom(m, data, i, final, cv, pos) == if pos + n >= |data| then next else ChunkFrom(m, data, i, final, next, pos + n)
  {
    hide BlockAt;
  }

  /** The chain from some block on. */
  lemma {:induction false} ChunkTerm(data: seq<Byte>, i: nat, root: bool, cv: Term, k: nat)
    requires k < BlockCount(|data|) && BLOCK_LEN * k <= |data| && Chained(cv, data, i, root, k)
    ensures Chained(ChunkFrom(TERMS, data, i, RootFlag(root), cv, BLOCK_LEN * k), data, i, root, BlockCount(|data|))
    decreases BlockCount(|data|) - k
  {
    hide ChunkFrom, Chained, Expected, BlockCount;
    Turn(data, i, root, cv, k);
    OneMore(cv, data, i, root, k);
    if k + 1 < BlockCount(|data|) {
      var e := Expected(data, i, root, k);
      BlockInside(|data|, k + 1);
      ChunkTerm(data, i, root, Compress(cv, e.block, e.len, e.counter, e.flags), k + 1);
    }
  }

  lemma {:induction false} ChunkValue<V>(m: Machine<V>, data: seq<Byte>, i: nat, final: nat, cv: Term, pos: nat)
    requires pos <= |data|
    ensures ChunkFrom(m, data, i, final, Value(m, cv), pos) == Value(m, ChunkFrom(TERMS, data, i, final, cv, pos))
    decreases |data| - pos
  {
    var n := Min(BLOCK_LEN, |data| - pos);
    if pos + n < |data| {
      var flags := if pos == 0 then CHUNK_START else 0;
      ChunkValue(m, data, i, final, Compress(cv, Data(BlockAt(data, pos, n)), n, i, flags), pos + n);
    }
  }

  lemma LeafTerm(input: seq<Byte>, lo: nat, root: bool)
    ensures var t := ChunkFrom(TERMS, Chunk(input, lo), lo, RootFlag(root), Iv, 0);
            Leaves(t) == [t] && LeavesOk(t, input, lo, root) && ParentsOk(t, root)
  {
    hide ChunkFrom, Expected, Chunk;
    ChunkTerm(Chunk(input, lo), lo, root, Iv, 0);
  }

  lemma LeavesOfPair(t: Term)
    requires t.Compress? && t.block.Pair?
    ensures Leaves(t) == Leaves(t.block.left) + Leaves(t.block.right)
  {
  }

  lemma LeavesSplit(t: Term, l: Term, r: Term, input: seq<Byte>, lo: nat, root: bool)
    requires Leaves(t) == Leaves(l) + Leaves(r)
    requires LeavesOk(l, input, lo, false) && LeavesOk(r, input, lo + |Leaves(l)|, false)
    ensures LeavesOk(t, input, lo, root)
  {
    hide Chunk, IsChunk, Leaves;
    LeavesAreSome(l);
    LeavesAreSome(r);
    var (ls, h) := (Leaves(t), |Leaves(l)|);
    forall i | 0 <= i < |ls|
      ensures IsChunk(ls[i], Chunk(input, lo + i), lo + i, root && |ls| == 1)
    {
      if i < h {
        assert ls[i] == Leaves(l)[i];
      } else {
        assert ls[i] == Leaves(r)[i - h] && lo + h + (i - h) == lo + i;
      }
    }
  }

  lemma LeavesAreSome(t: Term)
    ensures |Leaves(t)| > 0
  {
  }

  lemma NodeTerm(input: seq<Byte>, lo: nat, l: Term, r: Term, root: bool)
    requires LeavesOk(l, input, lo, false) && LeavesOk(r, input, lo + |Leaves(l)|, false)
    requires ParentsOk(l, false) && ParentsOk(r, false) && |Leaves(l)| == HighBit(|Leaves(l)| + |Leaves(r)| - 1)
    ensures var t := Compress(Iv, Pair(l, r), BLOCK_LEN, 0, PARENT + RootFlag(root));
            |Leaves(t)| == |Leaves(l)| + |Leaves(r)| && LeavesOk(t, input, lo, root) && ParentsOk(t, root)
  {
    hide Leaves, LeavesOk, HighBit;
    var t := Compress(Iv, Pair(l, r), BLOCK_LEN, 0, PARENT + RootFlag(root));
    LeavesOfPair(t);
    LeavesSplit(t, l, r, input, lo, root);
  }

  lemma SubtreeNode(input: seq<Byte>, lo: nat, n: nat, root: bool)
    requires n > 1
    ensures var (p, h) := (PrimsOf(TERMS, input), HighBit(n - 1));
            Subtree(p, lo, n, root)
              == Compress(Iv, Pair(Subtree(p, lo, h, false), Subtree(p, lo + h, n - h, false)), BLOCK_LEN, 0, PARENT + RootFlag(root))
  {
    hide HighBit, ChunkFrom, Chunk;
  }

  /** The subtree over some chunks, as a term. */
  lemma {:induction false} SubtreeTerm(input: seq<Byte>, lo: nat, n: nat, root: bool)
    requires n > 0
    ensures var t := Subtree(PrimsOf(TERMS, input), lo, n, root);
            |Leaves(t)| == n && LeavesOk(t, input, lo, root) && ParentsOk(t, root)
    decreases n
  {
    hide LeavesOk, ParentsOk, Leaves, Subtree, HighBit, PrimsOf;
    if n == 1 {
      LeafTerm(input, lo, root);
      SubtreeLeaf(input, lo, root);
    } else {
      var (p, h) := (PrimsOf(TERMS, input), HighBit(n - 1));
      SubtreeTerm(input, lo, h, false);
      SubtreeTerm(input, lo + h, n - h, false);
      SubtreeNode(input, lo, n, root);
      NodeTerm(input, lo, Subtree(p, lo, h, false), Subtree(p, lo + h, n - h, false), root);
    }
  }

  lemma SubtreeLeaf(input: seq<Byte>, lo: nat, root: bool)
    ensures Subtree(PrimsOf(TERMS, input), lo, 1, root) == ChunkFrom(TERMS, Chunk(input, lo), lo, RootFlag(root), Iv, 0)
  {
    hide ChunkFrom, Chunk;
  }

  lemma {:induction false} SubtreeValue<V>(m: Machine<V>, input: seq<Byte>, lo: nat, n: nat, root: bool)
    requires n > 0
    ensures Subtree(PrimsOf(m, input), lo, n, root) == Value(m, Subtree(PrimsOf(TERMS, input), lo, n, root))
    decreases n
  {
    hide ChunkFrom, Chunk;
    if n == 1 {
      ChunkValue(m, Chunk(input, lo), lo, RootFlag(root), Iv, 0);
    } else {
      var h := HighBit(n - 1);
      SubtreeValue(m, input, lo, h, false);
      SubtreeValue(m, input, lo + h, n - h, false);
    }
  }

  /** The root of the left-full tree is, on any machine, the value of the hash tree's term. */
  lemma RootIsHash<V>(m: Machine<V>, input: seq<Byte>) returns (t: Term)
    ensures IsHash(t, input) && Subtree(PrimsOf(m, input), 0, ChunkCount(|input|), true) == Value(m, t)
  {
    hide IsChunk, ChunkFrom, PrimsOf;
    t := Subtree(PrimsOf(TERMS, input), 0, ChunkCount(|input|), true);
    SubtreeTerm(input, 0, ChunkCount(|input|), true);
    SubtreeValue(m, input, 0, ChunkCount(|input|), true);
  }

  // ----- There is no other such term -----

  lemma {:induction false} SameLinks(s: Term, t: Term)
    requires Links(s) == Links(t)
    ensures s == t
  {
    if s.Compress? && t.Compress? {
      var (a, b) := (Links(s), Links(t));
      assert a[|a| - 1] == b[|b| - 1] && a[..|a| - 1] == Links(s.cv) && b[..|b| - 1] == Links(t.cv);
      SameLinks(s.cv, t.cv);
    }
  }

  lemma SameChunk(s: Term, t: Term, data: seq<Byte>, i: nat, root: bool)
    requires IsChunk(s, data, i, root) && IsChunk(t, data, i, root)
    ensures s == t
  {
    assert Links(s) == Links(t);
    SameLinks(s, t);
  }

  lemma {:induction false} SameTree(s: Term, t: Term, root: bool)
    requires ParentsOk(s, root) && ParentsOk(t, root) && Leaves(s) == Leaves(t)
    ensures s == t
  {
    hide HighBit, Leaves;
    LeavesIs(s);
    LeavesIs(t);
    if s.Compress? && s.block.Pair? {
      var (a, b) := (Leaves(s.block.left), Leaves(t.block.left));
      SameParts(a, Leaves(s.block.right), b, Leaves(t.block.right));
      SameTree(s.block.left, t.block.left, false);
      SameTree(s.block.right, t.block.right, false);
    }
  }

  lemma LeavesIs(t: Term)
    ensures if t.Compress? && t.block.Pair? then Leaves(t) == Leaves(t.block.left) + Leaves(t.block.right) && |Leaves(t)| >= 2
            else Leaves(t) == [t]
  {
  }

  lemma SameParts<T>(a: seq<T>, x: seq<T>, b: seq<T>, y: seq<T>)
    requires a + x == b + y && |a| == |b|
    ensures a == b && x == y
  {
    assert a == (a + x)[..|a|] && b == (b + y)[..|b|];
    assert x == (a + x)[|a|..] && y == (b + y)[|b|..];
  }

  /** The hash tree of an input is one term. */
  lemma OneHash(s: Term, t: Term, input: seq<Byte>)
    requires IsHash(s, input) && IsHash(t, input)
    ensures s == t
  {
    hide IsChunk, ParentsOk;
    var n := |Leaves(s)|;
    forall i | 0 <= i < n
      ensures Leaves(s)[i] == Leaves(t)[i]
    {
      SameChunk(Leaves(s)[i], Leaves(t)[i], Chunk(input, i), i, n == 1);
    }
    SameTree(s, t, true);
  }
}
