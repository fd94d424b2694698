/** The tree of src/blake3.c: the subtree stack with its delayed merges computes the left-full tree
    of section 2.1 of the BLAKE3 specification.  The compression function is a parameter. */
module Blake3 {
  import opened Arith

  const BLOCK_LEN: nat := 64
  const CHUNK_LEN: nat := 1024
  const CHUNK_START: nat := 1
  const CHUNK_END: nat := 2
  const PARENT: nat := 4
  const ROOT: nat := 8
  const STACK_MAX: nat := 54

  /** How chunks and parents become chaining values; the flag is ROOT. */
  datatype Prims<!V> = Prims(chunk: (nat, bool) -> V, parent: (V, V, bool) -> V)

  // ----- The tree -----

  /** The largest power of two at most `n`. */
  function HighBit(n: nat): (h: nat)
    requires n > 0
    ensures 0 < h <= n < 2 * h
  {
    if n == 1 then 1 else 2 * HighBit(n / 2)
  }

  /** The tree over `n` chunks from `lo`: the left subtree is the largest power of two below `n`. */
  function Subtree<V>(p: Prims<V>, lo: nat, n: nat, root: bool): V
    requires n > 0
    decreases n
  {
    if n == 1 then p.chunk(lo, root)
    else
      var l := HighBit(n - 1);
      p.parent(Subtree(p, lo, l, false), Subtree(p, lo + l, n - l, false), root)
  }

  // ----- The stack -----

  /** The stack after `k` chunks: the complete subtrees of the binary digits of `k`, largest first. */
  function Stack<V>(p: Prims<V>, lo: nat, k: nat): seq<V>
    decreases k
  {
    if k == 0 then []
    else var h := HighBit(k); [Subtree(p, lo, h, false)] + Stack(p, lo + h, k - h)
  }

  /** The final merges, right to left, with ROOT on the last. */
  function Fold<V>(p: Prims<V>, s: seq<V>, root: bool): V
    requires |s| > 0
    decreases |s|
  {
    if |s| == 1 then s[0] else p.parent(s[0], Fold(p, s[1..], false), root)
  }

  /** Merging the last two of the stack first gives the same. */
  lemma {:induction false} FoldFromRight<V>(p: Prims<V>, s: seq<V>, x: V, y: V, root: bool)
    requires |s| > 0
    ensures Fold(p, s + [x, y], root) == Fold(p, s + [p.parent(x, y, false)], root)
    decreases |s|
  {
    var (a, b) := (s + [x, y], s + [p.parent(x, y, false)]);
    assert a[0] == s[0] == b[0] && a[1..] == s[1..] + [x, y] && b[1..] == s[1..] + [p.parent(x, y, false)];
    if |s| == 1 {
      assert a[1..] == [x, y] && b[1..] == [p.parent(x, y, false)];
      assert [x, y][1..] == [y];
      assert Fold(p, [x, y], false) == p.parent(x, Fold(p, [y], false), false);
    } else {
      FoldFromRight(p, s[1..], x, y, false);
    }
  }

  /** The stack of all chunks but the last, and the last chunk on top, folds to the whole tree. */
  lemma {:induction false} FoldIsTree<V>(p: Prims<V>, lo: nat, k: nat, root: bool)
    requires k > 0
    ensures Fold(p, Stack(p, lo, k) + [p.chunk(lo + k, false)], root) == Subtree(p, lo, k + 1, root)
    decreases k
  {
    var h := HighBit(k);
    var rest := Stack(p, lo + h, k - h) + [p.chunk(lo + k, false)];
    var s := Stack(p, lo, k) + [p.chunk(lo + k, false)];
    assert s == [Subtree(p, lo, h, false)] + rest;
    assert s[1..] == rest;
    if k == h {
      assert Stack(p, lo + h, 0) == [];
      assert rest == [p.chunk(lo + k, false)];
    } else {
      FoldIsTree(p, lo + h, k - h, false);
    }
  }

  lemma {:induction false} HighBitPower(i: nat)
    ensures HighBit(Pow2(i)) == Pow2(i)
    ensures i > 0 ==> HighBit(Pow2(i) - 1) == Pow2(i - 1)
  {
    if i > 0 {
      HighBitPower(i - 1);
      HighBitUnique(Pow2(i) - 1, i - 1);
    }
  }

  /** The power of two that fits is the high bit. */
  lemma {:induction false} HighBitUnique(n: nat, i: nat)
    requires Pow2(i) <= n < 2 * Pow2(i)
    ensures HighBit(n) == Pow2(i)
    decreases i
  {
    if i > 0 {
      HighBitUnique(n / 2, i - 1);
    }
  }

  lemma {:induction false} HighBitIsPower(n: nat) returns (i: nat)
    requires n > 0
    ensures HighBit(n) == Pow2(i)
  {
    if n == 1 {
      i := 0;
    } else {
      var j := HighBitIsPower(n / 2);
      i := j + 1;
    }
  }

  lemma {:induction false} Pow2Below(i: nat, j: nat)
    requires Pow2(i) < Pow2(j)
    ensures i < j
  {
    if j > 0 && i > 0 {
      Pow2Below(i - 1, j - 1);
    }
  }

  /** Two equal subtrees make the next larger one. */
  lemma MergeEqual<V>(p: Prims<V>, lo: nat, i: nat)
    ensures p.parent(Subtree(p, lo, Pow2(i), false), Subtree(p, lo + Pow2(i), Pow2(i), false), false)
         == Subtree(p, lo, Pow2(i + 1), false)
  {
    HighBitPower(i + 1);
  }

  /** The lowest binary digit of the count is the top of the stack. */
  lemma {:induction false} LowBitOnTop<V>(p: Prims<V>, lo: nat, i: nat, q: nat)
    ensures Stack(p, lo, Pow2(i + 1) * q + Pow2(i))
         == Stack(p, lo, Pow2(i + 1) * q) + [Subtree(p, lo + Pow2(i + 1) * q, Pow2(i), false)]
    decreases q
  {
    hide Stack, Subtree, HighBit, Pow2;
    var (w, x) := (Pow2(i), Pow2(i + 1) * q);
    if q == 0 {
      SingleStack(p, lo, i, x);
    } else {
      var h, rest := HighOfMultiple(i, q);
      LowBitOnTop(p, lo + h, i, rest);
      StackStep(p, lo, x + w, h);
      StackStep(p, lo, x, h);
      Regroup([Subtree(p, lo, h, false)], Stack(p, lo + h, x - h), [Subtree(p, lo + x, w, false)]);
    }
  }

  lemma SingleStack<V>(p: Prims<V>, lo: nat, i: nat, x: nat)
    requires x == 0
    ensures Stack(p, lo, x + Pow2(i)) == Stack(p, lo, x) + [Subtree(p, lo + x, Pow2(i), false)]
  {
    HighBitPower(i);
    hide Pow2;
    assert Stack(p, lo + Pow2(i), 0) == [];
  }

  lemma StackStep<V>(p: Prims<V>, lo: nat, k: nat, h: nat)
    requires k > 0 && h == HighBit(k)
    ensures h <= k && Stack(p, lo, k) == [Subtree(p, lo, h, false)] + Stack(p, lo + h, k - h)
  {
  }

  lemma Regroup<V>(a: seq<V>, b: seq<V>, c: seq<V>)
    ensures a + (b + c) == (a + b) + c
  {
  }

  /** Adding a low digit leaves the high digit of a multiple where it is, and what is left is again
      a multiple. */
  lemma HighOfMultiple(i: nat, q: nat) returns (h: nat, rest: nat)
    requires q > 0
    ensures rest < q && h > 0 && Pow2(i + 1) * q == h + Pow2(i + 1) * rest
    ensures h == HighBit(Pow2(i + 1) * q) && h == HighBit(Pow2(i + 1) * q + Pow2(i))
  {
    var j := HighBitIsPower(q);
    var (g, m) := (Pow2(j), Pow2(i + 1));
    h, rest := Pow2(i + 1 + j), q - g;
    Pow2Add(i + 1, j);
    MulLe(g, q, m);
    MulLt(q, 2 * g, m);
    assert m == 2 * Pow2(i);
    hide Pow2;
    Spread(m, g, rest);
    DoubleRight(m, g);
    HighBitUnique(m * q, i + 1 + j);
    HighBitUnique(m * q + Pow2(i), i + 1 + j);
  }

  lemma Spread(m: nat, g: nat, rest: nat)
    ensures m * (g + rest) == m * g + m * rest
    ensures g * m == m * g && (g + rest) * m == m * (g + rest)
  {
  }

  lemma DoubleRight(m: nat, g: nat)
    ensures (2 * g) * m == 2 * (m * g)
  {
  }

  /** The stack stays low: `k` chunks need at most as many entries as `k + 1` has doublings. */
  lemma {:induction false} StackLow<V>(p: Prims<V>, lo: nat, k: nat)
    ensures Pow2(|Stack(p, lo, k)|) <= k + 1
    decreases k
  {
    if k > 0 {
      var h := HighBit(k);
      StackLow(p, lo + h, k - h);
    }
  }

  lemma StackFits<V>(p: Prims<V>, k: nat)
    requires k + 1 < Pow2(STACK_MAX)
    ensures |Stack(p, 0, k)| < STACK_MAX
  {
    StackLow(p, 0, k);
    Pow2Below(|Stack(p, 0, k)|, STACK_MAX);
  }
}
