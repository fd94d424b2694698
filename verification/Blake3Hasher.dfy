/** `blake3_hash` as the program runs it, over a stack of 54 chaining values. */
module Blake3Hasher {
  import opened Arith
  import opened Bytes
  import opened Blake3
  import opened Blake3Machine
  import opened Blake3Terms

  /** `hash_chunk`. */
  method HashChunk<V>(m: Machine<V>, data: seq<Byte>, idx: nat, final: nat) returns (cv: V)
    ensures cv == ChunkFrom(m, data, idx, final, m.iv, 0)
  {
    hide BlockAt;
    cv := m.iv;
    var pos := 0;
    var first := true;
    while true
      invariant 0 <= pos <= |data| && first == (pos == 0) && (pos == 0 || pos < |data|)
      invariant ChunkFrom(m, data, idx, final, m.iv, 0) == ChunkFrom(m, data, idx, final, cv, pos)
      decreases |data| - pos, first
    {
      var n := Min(BLOCK_LEN, |data| - pos);
      var block := BlockAt(data, pos, n);
      var flags := 0;
      if first {
        flags := flags + CHUNK_START;
        first := false;
      }
      pos := pos + n;
      if pos >= |data| {
        flags := flags + CHUNK_END + final;
      }
      cv := m.compress(cv, Data(block), n, idx, flags);
      if pos >= |data| {
        return;
      }
    }
  }

  /** The merges after a push: as many as the chunk count has trailing zeros. */
  method MergeDown<V>(m: Machine<V>, input: seq<Byte>, stack: array<V>, height: nat, k: nat) returns (top: nat)
    requires 0 < height <= stack.Length && k > 0
    requires stack[..height] == Stack(PrimsOf(m, input), 0, k - 1) + [Subtree(PrimsOf(m, input), k - 1, 1, false)]
    modifies stack
    ensures 0 < top <= height && stack[..top] == Stack(PrimsOf(m, input), 0, k)
  {
    hide Stack, Subtree;
    ghost var p := PrimsOf(m, input);
    top := height;
    var tz := k;
    ghost var i: nat := 0;
    while tz % 2 == 0 && top > 1
      invariant 0 < top <= height && tz > 0 && k == Pow2(i) * tz
      invariant Pow2(i) <= k && stack[..top] == Stack(p, 0, k - Pow2(i)) + [Subtree(p, k - Pow2(i), Pow2(i), false)]
      decreases tz
    {
      ghost var below, x, y := EqualOnTop(p, k, i, tz);
      assert stack[..top] == below + [x] + [y];
      assert stack[..top - 2] == below;
      top := top - 1;
      stack[top - 1] := ParentOf(m, stack[top - 1], stack[top], 0);
      ParentPrim(m, input, x, y, false);
      assert stack[..top] == below + [p.parent(x, y, false)];
      tz := tz / 2;
      i := i + 1;
    }
    OddCount(p, k, i, tz, stack[..top]);
  }

  /** Below the top of an even count lies a subtree of the same height. */
  lemma EqualOnTop<V>(p: Prims<V>, k: nat, i: nat, tz: nat) returns (below: seq<V>, x: V, y: V)
    requires tz % 2 == 0 && tz > 0 && k == Pow2(i) * tz
    ensures Pow2(i) <= k && Pow2(i + 1) <= k && k == Pow2(i + 1) * (tz / 2)
    ensures y == Subtree(p, k - Pow2(i), Pow2(i), false) && below == Stack(p, 0, k - Pow2(i + 1))
    ensures Stack(p, 0, k - Pow2(i)) == below + [x]
    ensures p.parent(x, y, false) == Subtree(p, k - Pow2(i + 1), Pow2(i + 1), false)
  {
    hide Pow2, Stack, Subtree;
    EvenCount(k, i, tz);
    LowBitOnTop(p, 0, i, tz / 2 - 1);
    MergeEqual(p, k - Pow2(i + 1), i);
    below, x, y := Stack(p, 0, k - Pow2(i + 1)), Subtree(p, k - Pow2(i + 1), Pow2(i), false), Subtree(p, k - Pow2(i), Pow2(i), false);
  }

  /** An even count has another digit to merge. */
  lemma EvenCount(k: nat, i: nat, tz: nat)
    requires tz % 2 == 0 && tz > 0 && k == Pow2(i) * tz
    ensures k == Pow2(i + 1) * (tz / 2) && Pow2(i + 1) == 2 * Pow2(i) <= k
    ensures k - Pow2(i) == Pow2(i + 1) * (tz / 2 - 1) + Pow2(i) && k - Pow2(i + 1) == Pow2(i + 1) * (tz / 2 - 1)
  {
    assert Pow2(i + 1) == 2 * Pow2(i);
    hide Pow2;
    EvenArith(k, Pow2(i), Pow2(i + 1), tz / 2);
  }

  lemma EvenArith(k: nat, w: nat, w2: nat, t: nat)
    requires w2 == 2 * w && k == w * (2 * t) && t > 0
    ensures k == w2 * t && w2 <= k && k - w2 == w2 * (t - 1)
  {
    assert w * (2 * t) == w2 * t;
    assert w2 * (t - 1) == w2 * t - w2;
    assert w2 * (t - 1) >= 0;
  }

  /** An odd count is all merged; an even one has at least two entries left. */
  lemma OddCount<V>(p: Prims<V>, k: nat, i: nat, tz: nat, s: seq<V>)
    requires tz > 0 && k == Pow2(i) * tz && (tz % 2 == 1 || |s| <= 1)
    requires Pow2(i) <= k && s == Stack(p, 0, k - Pow2(i)) + [Subtree(p, k - Pow2(i), Pow2(i), false)]
    ensures s == Stack(p, 0, k)
  {
    NotEmpty(p, k - Pow2(i));
    hide Stack, Subtree;
    if tz % 2 == 1 {
      OddSplit(k, i, tz);
      LowBitOnTop(p, 0, i, tz / 2);
    } else {
      EvenCount(k, i, tz);
    }
  }

  lemma OddSplit(k: nat, i: nat, tz: nat)
    requires tz % 2 == 1 && k == Pow2(i) * tz
    ensures k == Pow2(i + 1) * (tz / 2) + Pow2(i)
  {
    var (w, t) := (Pow2(i), tz / 2);
    assert Pow2(i + 1) == 2 * w;
    hide Pow2;
    assert tz == 2 * t + 1;
    assert w * (2 * t + 1) == (2 * w) * t + w;
  }

  lemma NotEmpty<V>(p: Prims<V>, k: nat)
    ensures k > 0 ==> |Stack(p, 0, k)| > 0
  {
  }

  lemma ParentPrim<V>(m: Machine<V>, input: seq<Byte>, x: V, y: V, root: bool)
    ensures PrimsOf(m, input).parent(x, y, root) == ParentOf(m, x, y, if root then ROOT else 0)
  {
  }

  lemma ChunkPrim<V>(m: Machine<V>, input: seq<Byte>, k: nat, root: bool)
    ensures PrimsOf(m, input).chunk(k, root) == Subtree(PrimsOf(m, input), k, 1, root) == ChunkFrom(m, Chunk(input, k), k, if root then ROOT else 0, m.iv, 0)
  {
  }

  /** The final merges. */
  method MergeAll<V>(m: Machine<V>, input: seq<Byte>, stack: array<V>, height: nat) returns (root: V)
    requires 2 <= height <= stack.Length
    modifies stack
    ensures root == Fold(PrimsOf(m, input), old(stack[..height]), true)
  {
    ghost var p := PrimsOf(m, input);
    var top := height;
    while top > 1
      invariant 1 <= top <= height && Fold(p, stack[..top], true) == Fold(p, old(stack[..height]), true)
    {
      ghost var (s, x, y) := (stack[..top - 2], stack[top - 2], stack[top - 1]);
      assert stack[..top] == s + [x, y];
      top := top - 1;
      var flags := if top == 1 then ROOT else 0;
      ParentPrim(m, input, x, y, top == 1);
      stack[top - 1] := ParentOf(m, stack[top - 1], stack[top], flags);
      if top > 1 {
        assert stack[..top] == s + [p.parent(x, y, false)];
        FoldFromRight(p, s, x, y, true);
      } else {
        assert [x, y][1..] == [y];
        assert s == [] && stack[..1] == [stack[0]];
        assert Fold(p, [y], false) == y;
      }
    }
    return stack[0];
  }

  /** `blake3_hash`: the chaining value of the root of the left-full tree over the input's chunks, which
      is the value of the hash tree of the input as a term. */
  method Hash<V>(m: Machine<V>, input: seq<Byte>) returns (out: V)
    requires ChunkCount(|input|) < Pow2(STACK_MAX)
    ensures out == Subtree(PrimsOf(m, input), 0, ChunkCount(|input|), true)
    ensures exists t: Term :: IsHash(t, input) && out == Value(m, t)
  {
    hide Stack, Fold, Pow2, Subtree, ChunkFrom, PrimsOf, IsHash, Value;
    ghost var _ := RootIsHash(m, input);
    ghost var p, n := PrimsOf(m, input), ChunkCount(|input|);
    var stack := new V[STACK_MAX](_ => m.iv);
    var top, k := 0, 0;
    var rem := |input|;
    EmptyStack(p);
    while true
      invariant 0 <= top && 0 <= k < n && rem == |input| - CHUNK_LEN * k && (k > 0 ==> rem > 0)
      invariant top == |Stack(p, 0, k)| <= STACK_MAX && stack[..top] == Stack(p, 0, k)
      decreases n - k
    {
      var clen := Min(rem, CHUNK_LEN);
      var data := input[|input| - rem..|input| - rem + clen];
      rem := rem - clen;
      var only := k == 0 && rem == 0;
      assert data == Chunk(input, k);
      var cv := HashChunk(m, data, k, if only then ROOT else 0);
      StackFits(p, k);
      ChunkPrim(m, input, k, only);
      k := k + 1;
      if only {
        return cv;
      }
      stack[top] := cv;
      assert stack[..top + 1] == stack[..top] + [cv];
      top := top + 1;
      if rem > 0 {
        top := MergeDown(m, input, stack, top, k);
      } else {
        break;
      }
    }
    FoldIsTree(p, 0, k - 1, true);
    NotEmpty(p, k - 1);
    out := MergeAll(m, input, stack, top);
  }

  lemma EmptyStack<V>(p: Prims<V>)
    ensures Stack(p, 0, 0) == []
  {
  }

  // ----- ROOT is used once -----

  /** The tree itself, with the flags its nodes are given. */
  datatype Tree = Leaf(index: nat, root: bool) | Node(left: Tree, right: Tree, root: bool)

  const SYMBOLIC: Prims<Tree> := Prims((i, root) => Leaf(i, root), (l, r, root) => Node(l, r, root))

  function Roots(t: Tree): nat {
    match t
    case Leaf(_, root) => if root then 1 else 0
    case Node(l, r, root) => (if root then 1 else 0) + Roots(l) + Roots(r)
  }

  function Leaves(t: Tree): seq<nat> {
    match t
    case Leaf(i, _) => [i]
    case Node(l, r, _) => Leaves(l) + Leaves(r)
  }

  /** The tree has ROOT at its top and nowhere else, and its leaves are the chunks in order. */
  lemma {:induction false} RootOnce(lo: nat, n: nat, root: bool)
    requires n > 0
    ensures var t := Subtree(SYMBOLIC, lo, n, root);
            t.root == root && Roots(t) == (if root then 1 else 0) && |Leaves(t)| == n
            && forall i :: 0 <= i < n ==> Leaves(t)[i] == lo + i
    decreases n
  {
    if n > 1 {
      var l := HighBit(n - 1);
      RootOnce(lo, l, false);
      RootOnce(lo + l, n - l, false);
    }
  }
}
