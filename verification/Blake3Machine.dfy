/** Chunks and parents of the hash of src/blake3.c, over any compression function. */
module Blake3Machine {
  import opened Arith
  import opened Bytes
  import opened Blake3

  /** A block: 64 bytes of data, or two chaining values side by side. */
  datatype Block<V> = Data(bytes: seq<Byte>) | Pair(left: V, right: V)

  /** The initial value and the compression function.  Its arguments are the chaining value, the
      block, the block's length, the counter and the flags. */
  datatype Machine<!V> = Machine(iv: V, compress: (V, Block<V>, nat, nat, nat) -> V)

  /** A block of the chunk, zero-padded. */
  function BlockAt(data: seq<Byte>, pos: nat, n: nat): seq<Byte>
    requires pos + n <= |data| && n <= BLOCK_LEN
  {
    data[pos..pos + n] + Zeros(BLOCK_LEN - n)
  }

  /** The blocks of a chunk from `pos` on: the first carries CHUNK_START, the last CHUNK_END and the
      final flags. */
  function ChunkFrom<V>(m: Machine<V>, data: seq<Byte>, idx: nat, final: nat, cv: V, pos: nat): V
    requires pos <= |data|
    decreases |data| - pos
  {
    var n := Min(BLOCK_LEN, |data| - pos);
    var flags := (if pos == 0 then CHUNK_START else 0) + (if pos + n >= |data| then CHUNK_END + final else 0);
    var next := m.compress(cv, Data(BlockAt(data, pos, n)), n, idx, flags);
    if pos + n >= |data| then next else ChunkFrom(m, data, idx, final, next, pos + n)
  }

  function ParentOf<V>(m: Machine<V>, l: V, r: V, flags: nat): V {
    m.compress(m.iv, Pair(l, r), BLOCK_LEN, 0, PARENT + flags)
  }

  function Chunk(input: seq<Byte>, i: nat): seq<Byte> {
    if CHUNK_LEN * i >= |input| then [] else input[CHUNK_LEN * i..Min(CHUNK_LEN * (i + 1), |input|)]
  }

  function RootFlag(root: bool): nat {
    if root then ROOT else 0
  }

  function PrimsOf<V>(m: Machine<V>, input: seq<Byte>): Prims<V> {
    Prims((i, root) => ChunkFrom(m, Chunk(input, i), i, RootFlag(root), m.iv, 0),
          (l, r, root) => ParentOf(m, l, r, RootFlag(root)))
  }

  /** The number of chunks: an empty input has one. */
  function ChunkCount(len: nat): (n: nat)
    ensures n > 0
  {
    if len == 0 then 1 else (len + CHUNK_LEN - 1) / CHUNK_LEN
  }
}
