/** The decoder as the program runs it: loops over the bits of the atom, and the position table
    changed in place. */
module CueReader {
  import opened Nouns
  import opened Arith
  import opened Bits
  import opened Cues
  import opened Probe

  /** The unary loop of `do_rub`. */
  method ZerosLoop(a: nat, start: nat) returns (r: Option<(nat, nat)>)
    ensures r == CountZeros(a, start, 0)
  {
    hide BitAt;
    var z, cur := 0, start;
    while !BitAt(a, cur)
      invariant 0 <= z <= 64 && cur == start + z && CountZeros(a, start, 0) == CountZeros(a, cur, z)
      decreases 65 - z
    {
      z := z + 1;
      cur := cur + 1;
      if z > 64 {
        return None;
      }
    }
    return Some((z, cur));
  }

  /** The loop that gathers `n` bits. */
  method BitsLoop(a: nat, start: nat, n: nat) returns (value: nat)
    ensures value == ReadBits(a, start, n)
  {
    hide BitAt;
    value := 0;
    var i := 0;
    while i < n
      invariant 0 <= i <= n && value == ReadBits(a, start, i)
    {
      ReadOneMore(a, start, i);
      if BitAt(a, start + i) {
        value := value + Pow2(i);
      }
      i := i + 1;
    }
  }

  lemma {:induction false} ReadOneMore(a: nat, start: nat, i: nat)
    ensures ReadBits(a, start, i + 1) == ReadBits(a, start, i) + if BitAt(a, start + i) then Pow2(i) else 0
    decreases i
  {
    hide BitAt;
    if i > 0 {
      ReadOneMore(a, start + 1, i - 1);
      assert ReadBits(a, start, i + 1) == (if BitAt(a, start) then 1 else 0) + 2 * ReadBits(a, start + 1, i);
    } else {
      assert ReadBits(a, start, 1) == (if BitAt(a, start) then 1 else 0) + 2 * ReadBits(a, start + 1, 0);
    }
  }

  /** `do_rub`. */
  method DoRub(limbs: nat, wraps: bool, a: nat, start: nat) returns (r: Option<(nat, nat)>)
    ensures r == Rub(limbs, wraps, a, start)
  {
    hide BitAt, CountZeros, ReadBits;
    var zeros := ZerosLoop(a, start);
    if zeros.None? {
      return None;
    }
    var (z, at) := zeros.value;
    if z == 0 {
      return Some((0, at + 1));
    }
    var lbits := BitsLoop(a, at + 1, z - 1);
    var len := Pow2(z - 1) + lbits;
    var count := (if wraps then (len + 63) % WORD else len + 63) / 64;
    if count == 0 {
      return Some((0, at + z));
    }
    if count > limbs {
      return None;
    }
    var value := BitsLoop(a, at + z, len);
    return Some((value, at + z + len));
  }

  class Reader {
    const table: Table<Noun>

    ghost predicate Valid()
      reads this, table, table.slots
    {
      table.slots.Length == CUE.entries && table.Valid(CUE.entries)
    }

    /** `ccache_init`. */
    constructor (hash: nat -> nat)
      ensures Valid() && fresh(table) && fresh(table.slots) && table.contents == map[]
    {
      table := new Table<Noun>(hash, CUE.entries);
    }

    /** `do_cue`: it returns what the specification returns, with the table standing for its map;
        no answer is a crash. */
    method DoCue(a: nat, start: nat) returns (r: Option<(Noun, nat)>)
      requires Valid()
      modifies table, table.slots
      ensures Valid()
      ensures var spec := Cue(CUE, a, start, old(table.contents));
              if spec.None? then r == None
              else r == Some((spec.value.noun, spec.value.cur)) && table.contents == spec.value.cache
      decreases if BitAt(a, start) then Met(a) - start else 0
    {
      hide BitAt, Rub, Met, Cue;
      CueIs(a, start, table.contents);
      var node := Node(a, start);
      if node.None? {
        return None;
      }
      ghost var before := table.contents;
      var kept := table.Put(start, node.value.0, CUE.entries);
      if !kept {
        return None;
      }
      KeepIs(before, start, node.value.0);
      return node;
    }

    /** The part of `do_cue` before the result is put in the table. */
    method Node(a: nat, start: nat) returns (r: Option<(Noun, nat)>)
      requires Valid()
      modifies table, table.slots
      ensures Valid()
      ensures var spec := CueNode(CUE, a, start, old(table.contents));
              if spec.None? then r == None
              else r == Some((spec.value.noun, spec.value.cur)) && table.contents == spec.value.cache
      decreases if BitAt(a, start) then Met(a) - start else 0, 0
    {
      hide BitAt, Rub, Met, Cue;
      if !BitAt(a, start) {
        var v := DoRub(CUE.limbs, CUE.wraps, a, start + 1);
        return if v.None? then None else Some((Atom(v.value.0), v.value.1));
      }
      if !BitAt(a, start + 1) {
        BitBelowMet(a, start);
        var head := DoCue(a, start + 2);
        if head.None? {
          return None;
        }
        var tail := DoCue(a, head.value.1);
        return if tail.None? then None else Some((Cell(head.value.0, tail.value.0), tail.value.1));
      }
      var ref := DoRub(CUE.limbs, CUE.wraps, a, start + 2);
      if ref.None? || ref.value.0 >= DIRECT_LIMIT {
        return None;
      }
      var n := table.Get(ref.value.0, CUE.entries);
      return if n.None? then None else Some((n.value, ref.value.1));
    }
  }

  lemma CueIs(a: nat, cur: nat, cache: map<nat, Noun>)
    ensures var node := CueNode(CUE, a, cur, cache);
            Cue(CUE, a, cur, cache) == if node.None? then None else
              var kept := Keep(CUE, node.value.cache, cur, node.value.noun);
              if kept.None? then None else Some(node.value.(cache := kept.value))
  {
    hide CueNode;
  }

  lemma KeepIs(cache: map<nat, Noun>, pos: nat, n: Noun)
    ensures Keep(CUE, cache, pos, n) == if pos !in cache && |cache| >= CUE.entries then None else Some(cache[pos := n])
  {
  }

  /** `cue`. */
  method CueWhole(a: nat, hash: nat -> nat) returns (r: Option<Noun>)
    ensures r == CueAtom(a)
  {
    var reader := new Reader(hash);
    var n := reader.DoCue(a, 0);
    return if n.None? then None else Some(n.value.0);
  }
}
