/** The encoder as the program runs it: a fixed limb buffer written bit by bit, and the noun cache
    changed in place. */
module JamWriter {
  import opened Nouns
  import opened Arith
  import opened Limbs
  import opened Bits
  import opened Jams
  import Knuth

  const JAM_MAX_LIMBS: nat := 16384
  const JAM_MAX_BITS: nat := 64 * JAM_MAX_LIMBS

  // ----- Bits in limbs -----

  lemma {:induction false} FromBitsSnoc(s: seq<bool>, b: bool)
    ensures FromBits(s + [b]) == FromBits(s) + if b then Pow2(|s|) else 0
    ensures FromBits(s) < Pow2(|s|)
  {
    if s == [] {
      assert (s + [b])[1..] == [];
    } else {
      FromBitsSnoc(s[1..], b);
      assert (s + [b])[1..] == s[1..] + [b];
    }
  }

  lemma {:induction false} Pow2Limbs(w: nat)
    ensures Pow2(64 * w) == BPow(w)
  {
    if w > 0 {
      Pow2Limbs(w - 1);
      Pow2Add(64, 64 * (w - 1));
      Knuth.Pow64();
      hide Pow2;
    }
  }

  /** A position's weight, from its limb and its place in the limb. */
  lemma Weight(cur: nat)
    ensures Pow2(cur) == BPow(cur / 64) * Pow2(cur % 64) && Pow2(cur % 64) <= Knuth.HALF
  {
    hide Pow2, BPow;
    var (w, o) := (cur / 64, cur % 64);
    Pow2Limbs(w);
    Pow2Add(64 * w, o);
    TopBit(o);
  }

  lemma TopBit(o: nat)
    requires o <= 63
    ensures Pow2(o) <= Knuth.HALF
  {
    Knuth.Pow64();
    hide Pow2;
    Pow2Monotone(o, 63);
    Doubled();
  }

  lemma Doubled()
    ensures Pow2(64) == 2 * Pow2(63)
  {
  }

  /** Below the cursor's weight, the cursor's limb holds less than the cursor's bit, and the limbs
      above hold nothing. */
  lemma BelowCursor(s: seq<Limb>, w: nat, p: nat)
    requires w < |s| && 0 < p <= Knuth.HALF && Val(s) < BPow(w) * p
    ensures s[w] < p
  {
    hide Val, BPow;
    ValSplit(s, w);
    MulCancelLt(Val(s[w..]), p, BPow(w));
    First(s, w);
  }

  lemma First(s: seq<Limb>, w: nat)
    requires w < |s|
    ensures Val(s[w..]) >= s[w]
  {
  }

  lemma ValPlus(s: seq<Limb>, w: nat, p: nat)
    requires w < |s| && s[w] + p < B
    ensures Val(s[w := s[w] + p]) == Val(s) + BPow(w) * p
  {
    hide Val, BPow;
    var t := s[w := s[w] + p];
    assert t[..w] == s[..w] && t[w + 1..] == s[w + 1..];
    FromLimb(s, w);
    FromLimb(t, w);
    assert BPow(w) * (s[w] + p) == BPow(w) * s[w] + BPow(w) * p;
  }

  /** The bit at the cursor is clear, so setting it adds its weight. */
  lemma SetBit(s: seq<Limb>, bits: seq<bool>, cur: nat)
    requires Val(s) == FromBits(bits) && |bits| == cur < 64 * |s|
    ensures s[cur / 64] + Pow2(cur % 64) < B
    ensures Val(s[cur / 64 := s[cur / 64] + Pow2(cur % 64)]) == FromBits(bits + [true])
  {
    hide Val, BPow, Pow2, FromBits;
    Weight(cur);
    FromBitsSnoc(bits, true);
    BelowCursor(s, cur / 64, Pow2(cur % 64));
    ValPlus(s, cur / 64, Pow2(cur % 64));
  }

  lemma FromLimb(s: seq<Limb>, w: nat)
    requires w < |s|
    ensures Val(s) == Val(s[..w]) + BPow(w) * s[w] + BPow(w + 1) * Val(s[w + 1..])
  {
    ValSplit(s, w + 1);
    assert s[..w + 1] == s[..w] + [s[w]];
    ValSnoc(s[..w], s[w]);
  }

  lemma {:induction false} LowBitsAt(k: nat, n: nat, i: nat)
    requires i < n
    ensures LowBits(k, n)[i] == BitAt(k, i)
    decreases i
  {
    if i > 0 {
      LowBitsAt(k / 2, n - 1, i - 1);
      HalfBit(k, i);
      hide BitAt;
    } else {
      assert Pow2(0) == 1;
    }
  }

  lemma HalfBit(k: nat, i: nat)
    requires i > 0
    ensures BitAt(k / 2, i - 1) == BitAt(k, i)
  {
    ShiftStep(k, i - 1);
    hide Pow2;
  }

  class Writer {
    const buf: array<Limb>
    var cur: nat
    const table: array<Slot>
    var used: nat
    const config: Config
    ghost var bits: seq<bool>

    ghost predicate Valid()
      reads this, buf
    {
      buf.Length == JAM_MAX_LIMBS && table.Length == CACHE_SIZE && cur == |bits| <= JAM_MAX_BITS
      && Val(buf[..]) == FromBits(bits)
    }

    /** The state of the encoder that the buffers stand for. */
    ghost function State(): JamState
      reads this, buf, table
      requires Valid()
    {
      JamState(bits, Cache(table[..], used))
    }

    /** `jb_init` and `jcache_init`. */
    constructor (config: Config)
      ensures Valid() && fresh(buf) && fresh(table) && this.config == config && State() == Start()
    {
      buf := new Limb[JAM_MAX_LIMBS](_ => 0);
      table := new Slot[CACHE_SIZE](_ => Vacant);
      cur, used, bits := 0, 0, [];
      this.config := config;
      new;
      ValZeros(buf[..]);
      assert table[..] == Vacants(CACHE_SIZE);
    }

    /** `jb_write`; a refusal is the overflow crash. */
    method Write(bit: bool) returns (ok: bool)
      requires Valid()
      modifies `cur, `bits, buf
      ensures Valid() && ok == (|old(bits)| < JAM_MAX_BITS)
      ensures bits == if ok then old(bits) + [bit] else old(bits)
    {
      if cur >= JAM_MAX_BITS {
        return false;
      }
      hide Val, BPow, Pow2, FromBits;
      var (w, o) := (cur / 64, cur % 64);
      if bit {
        SetBit(buf[..], bits, cur);
        ghost var limbs := buf[..];
        buf[w] := buf[w] + Pow2(o);
        assert buf[..] == limbs[w := limbs[w] + Pow2(o)];
      } else {
        FromBitsSnoc(bits, false);
      }
      cur := cur + 1;
      bits := bits + [bit];
      return true;
    }

    /** `jb_write_n` and `jb_write_atom`. */
    method WriteN(val: nat, n: nat) returns (ok: bool)
      requires Valid()
      modifies `cur, `bits, buf
      ensures Valid() && ok == (|old(bits)| + n <= JAM_MAX_BITS)
      ensures ok ==> bits == old(bits) + LowBits(val, n)
    {
      hide Val, FromBits, BitAt;
      var i := 0;
      ok := true;
      while i < n
        invariant 0 <= i <= n && Valid() && bits == old(bits) + LowBits(val, n)[..i]
      {
        LowBitsAt(val, n, i);
        ok := Write(BitAt(val, i));
        if !ok {
          return;
        }
        assert LowBits(val, n)[..i + 1] == LowBits(val, n)[..i] + [LowBits(val, n)[i]];
        i := i + 1;
      }
      assert LowBits(val, n)[..n] == LowBits(val, n);
    }

    /** `do_mat`. */
    method WriteMat(k: nat) returns (ok: bool)
      requires Valid()
      modifies `cur, `bits, buf
      ensures Valid() && ok == (|old(bits)| + |Mat(k)| <= JAM_MAX_BITS)
      ensures ok ==> bits == old(bits) + Mat(k)
    {
      hide Val, FromBits, LowBits, Falses, Mat, Met;
      var a := Met(k);
      if a == 0 {
        MatZero(k);
        ok := Write(true);
        return;
      }
      var b := Met(a);
      MatIs(k, a, b);
      MatLength(k, a, b);
      var i := 0;
      while i < b
        invariant 0 <= i <= b && Valid() && bits == old(bits) + Falses(i)
      {
        ok := Write(false);
        if !ok {
          return;
        }
        FalsesSnoc(i);
        i := i + 1;
      }
      ok := Write(true);
      if !ok {
        return;
      }
      ok := WriteN(a, b - 1);
      if !ok {
        return;
      }
      ok := WriteN(k, a);
    }

    /** `jcache_get`. */
    method Lookup(n: Wnoun) returns (pos: Option<nat>)
      requires Valid()
      ensures pos == Get(config, table[..], n)
    {
      hide Same;
      var i := 0;
      while i < CACHE_SIZE
        invariant 0 <= i <= CACHE_SIZE && Find(config, table[..], n, 0) == Find(config, table[..], n, i)
      {
        var at := (config.hash(n.word) + i) % CACHE_SIZE;
        if table[at].Vacant? {
          return None;
        }
        if Same(config, table[at].key, n) {
          return Some(table[at].pos);
        }
        i := i + 1;
      }
      return None;
    }

    /** `jcache_put`, at the cursor. */
    method Store(n: Wnoun)
      requires Valid()
      modifies `used, table
      ensures Cache(table[..], used) == Put(config, Cache(old(table[..]), old(used)), n, cur)
    {
      hide Same;
      var i := 0;
      while i < CACHE_SIZE
        invariant 0 <= i <= CACHE_SIZE && Find(config, table[..], n, 0) == Find(config, table[..], n, i)
        invariant table[..] == old(table[..]) && used == old(used)
      {
        var at := (config.hash(n.word) + i) % CACHE_SIZE;
        if table[at].Vacant? {
          if used < CACHE_ADMITTED {
            table[at] := Used(n, cur);
            used := used + 1;
          }
          return;
        }
        if Same(config, table[at].key, n) {
          table[at] := Used(table[at].key, cur);
          return;
        }
        i := i + 1;
      }
    }

    /** A back-reference. */
    method WriteBackref(pos: nat) returns (ok: bool)
      requires Valid()
      modifies `cur, `bits, buf
      ensures Valid() && ok == (|old(bits)| + |Backref(pos)| <= JAM_MAX_BITS)
      ensures ok ==> bits == old(bits) + Backref(pos)
    {
      hide Mat, Val, FromBits;
      ok := Write(true);
      if ok { ok := Write(true); }
      if ok { ok := WriteMat(pos); }
    }

    /** The tag of a cell. */
    method WriteCell() returns (ok: bool)
      requires Valid()
      modifies `cur, `bits, buf
      ensures Valid() && ok == (|old(bits)| + 2 <= JAM_MAX_BITS)
      ensures ok ==> bits == old(bits) + [true, false]
    {
      hide Val, FromBits;
      ok := Write(true);
      if ok { ok := Write(false); }
    }

    method WriteAtom(v: nat) returns (ok: bool)
      requires Valid()
      modifies `cur, `bits, buf
      ensures Valid() && ok == (|old(bits)| + |AtomBits(v)| <= JAM_MAX_BITS)
      ensures ok ==> bits == old(bits) + AtomBits(v)
    {
      hide Mat, Val, FromBits;
      ok := Write(false);
      if ok { ok := WriteMat(v); }
    }

    /** `do_jam`: it writes what the specification writes, and crashes exactly when that does not
        fit. */
    method DoJam(n: Wnoun) returns (ok: bool)
      requires Valid()
      modifies this, buf, table
      ensures Valid() && ok == (|Jam(config, n, old(State())).bits| <= JAM_MAX_BITS)
      ensures ok ==> State() == Jam(config, n, old(State()))
      decreases n
    {
      hide Val, FromBits, Get, Put, Mat, MatLen, Met, Backref, AtomBits;
      ghost var s := State();
      var found := Lookup(n);
      match n
      case WCell(_, h, t) =>
        if found.Some? {
          ok := WriteBackref(found.value);
        } else {
          Store(n);
          ghost var s1 := Emit(Remember(config, s, n), [true, false]);
          JamExtends(config, h, s1);
          JamExtends(config, t, Jam(config, h, s1));
          assert Jam(config, n, s) == Jam(config, t, Jam(config, h, s1));
          ok := WriteCell();
          if ok {
            assert State() == s1;
            ok := DoJam(h);
          }
          if ok { ok := DoJam(t); }
        }
      case WAtom(_, v) =>
        var choice := Choose(config, v, found);
        JamAtom(config, n, s);
        hide Choose;
        if choice.Fresh? {
          Store(n);
          ok := WriteAtom(v);
        } else if choice.Again? {
          ok := WriteAtom(v);
        } else {
          ok := WriteBackref(found.value);
        }
    }

    /** The atom in the buffer. */
    method Encoded() returns (a: nat)
      requires Valid()
      ensures a == FromBits(bits)
    {
      hide Val, FromBits, BPow, Pow2;
      var limbs := (cur + 63) / 64;
      if limbs == 0 {
        limbs := 1;
      }
      a := Val(buf[..limbs]);
      FromBitsSnoc(bits, false);
      Pow2Monotone(cur, 64 * limbs);
      Pow2Limbs(limbs);
      Knuth.HighLimbsZero(buf[..], limbs);
      ValSplit(buf[..], limbs);
      assert buf[..][..limbs] == buf[..limbs];
    }
  }

  lemma JamAtom(c: Config, n: Wnoun, s: JamState)
    requires n.WAtom?
    ensures var found := Get(c, s.cache.table, n); var choice := Choose(c, n.v, found);
            Jam(c, n, s) == if choice.Fresh? then Emit(Remember(c, s, n), AtomBits(n.v))
                            else if choice.Again? then Emit(s, AtomBits(n.v))
                            else Emit(s, if found.Some? then Backref(found.value) else [])
    ensures Choose(c, n.v, Get(c, s.cache.table, n)).Refer? ==> Get(c, s.cache.table, n).Some?
  {
    hide Get, Put, Met, MatLen, Mat;
  }

  lemma MatZero(k: nat)
    requires Met(k) == 0
    ensures Mat(k) == [true]
  {
  }

  lemma FalsesSnoc(n: nat)
    ensures Falses(n + 1) == Falses(n) + [false]
  {
  }

  /** `jam`: the atom, or the overflow crash. */
  method JamWhole(config: Config, n: Wnoun) returns (a: Option<nat>)
    ensures var bits := Jam(config, n, Start()).bits;
            a == if |bits| <= JAM_MAX_BITS then Some(FromBits(bits)) else None
  {
    hide FromBits, Jam;
    var w := new Writer(config);
    var ok := w.DoJam(n);
    if !ok {
      return None;
    }
    var x := w.Encoded();
    return Some(x);
  }
}
