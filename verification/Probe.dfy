/** Open addressing with linear probing and a cap on the probes, as the decoders' tables do it. */
module Probe {
  import opened Nouns
  import opened Arith

  datatype Entry<V> = Vacant | Full(key: nat, val: V)

  /** Where a key's probe goes. */
  datatype Shape = Shape(hash: nat -> nat, size: nat, cap: nat)

  predicate ShapeOk(p: Shape) {
    0 < p.cap <= p.size
  }

  function At(p: Shape, key: nat, i: nat): (s: nat)
    requires p.size > 0
    ensures s < p.size
  {
    (p.hash(key) + i) % p.size
  }

  /** The probe loop: the first slot, within the cap, that is vacant or holds the key. */
  function Find<V>(p: Shape, t: seq<Entry<V>>, key: nat, i: nat): (r: Option<nat>)
    requires ShapeOk(p) && |t| == p.size
    ensures r.Some? ==> i <= r.value < p.cap && (var e := t[At(p, key, r.value)]; e.Vacant? || e.key == key)
    ensures forall j :: i <= j < (if r.Some? then r.value else p.cap) ==> Blocked(p, t, key, j)
    decreases p.cap - i
  {
    if i >= p.cap then None
    else
      var e := t[At(p, key, i)];
      if e.Vacant? || e.key == key then Some(i) else Find(p, t, key, i + 1)
  }

  /** The slot is where the key's probe finds it. */
  predicate Reachable<V>(p: Shape, t: seq<Entry<V>>, key: nat, i: nat)
    requires ShapeOk(p) && |t| == p.size && i < p.cap
  {
    var e := t[At(p, key, i)];
    e.Full? && e.key == key && forall j :: 0 <= j < i ==> Blocked(p, t, key, j)
  }

  predicate Blocked<V>(p: Shape, t: seq<Entry<V>>, key: nat, j: nat)
    requires ShapeOk(p) && |t| == p.size
  {
    var e := t[At(p, key, j)]; e.Full? && e.key != key
  }

  ghost predicate Values<V>(t: seq<Entry<V>>, m: map<nat, V>) {
    forall s :: 0 <= s < |t| && t[s].Full? ==> t[s].key in m && t[s].val == m[t[s].key]
  }

  ghost predicate Findable<V>(p: Shape, t: seq<Entry<V>>, m: map<nat, V>)
    requires ShapeOk(p) && |t| == p.size
  {
    forall k :: k in m ==> exists i: nat :: i < p.cap && Reachable(p, t, k, i)
  }

  predicate Once<V>(t: seq<Entry<V>>) {
    forall s, r :: 0 <= s < |t| && 0 <= r < |t| && t[s].Full? && t[r].Full? && t[s].key == t[r].key ==> s == r
  }

  /** The table stands for the map: every key of the map is where its probe finds it, and nothing
      else is in the table. */
  ghost predicate Represents<V>(p: Shape, t: seq<Entry<V>>, m: map<nat, V>) {
    ShapeOk(p) && |t| == p.size && Values(t, m) && Findable(p, t, m) && Once(t)
  }

  /** A lookup in the table is a lookup in the map. */
  lemma GetIs<V>(p: Shape, t: seq<Entry<V>>, m: map<nat, V>, key: nat)
    requires Represents(p, t, m)
    ensures var f := Find(p, t, key, 0);
            if key in m then f.Some? && t[At(p, key, f.value)] == Full(key, m[key])
            else f.None? || t[At(p, key, f.value)].Vacant?
  {
    var f := Find(p, t, key, 0);
    if key in m {
      var i: nat :| i < p.cap && Reachable(p, t, key, i);
      assert !Blocked(p, t, key, i);
      assert f.Some? && f.value <= i;
      assert f.value < i ==> Blocked(p, t, key, f.value);
    }
  }

  /** Writing at the slot the probe finds updates the map. */
  lemma PutIs<V>(p: Shape, t: seq<Entry<V>>, m: map<nat, V>, key: nat, val: V)
    requires Represents(p, t, m) && Find(p, t, key, 0).Some?
    ensures Represents(p, t[At(p, key, Find(p, t, key, 0).value) := Full(key, val)], m[key := val])
  {
    hide At, Findable;
    var f := Find(p, t, key, 0).value;
    var s := At(p, key, f);
    GetIs(p, t, m, key);
    StillFindable(p, t, m, key, val, f);
    assert key !in m ==> forall r :: 0 <= r < |t| && t[r].Full? ==> t[r].key != key;
  }

  lemma StillFindable<V>(p: Shape, t: seq<Entry<V>>, m: map<nat, V>, key: nat, val: V, f: nat)
    requires Represents(p, t, m) && Find(p, t, key, 0) == Some(f)
    ensures Findable(p, t[At(p, key, f) := Full(key, val)], m[key := val])
  {
    hide At;
    var (t', m') := (t[At(p, key, f) := Full(key, val)], m[key := val]);
    forall k | k in m'
      ensures exists i: nat :: i < p.cap && Reachable(p, t', k, i)
    {
      if k == key {
        KeyReachable(p, t, key, val, f);
      } else {
        var i: nat :| i < p.cap && Reachable(p, t, k, i);
        OtherReachable(p, t, key, val, f, k, i);
      }
    }
  }

  lemma KeyReachable<V>(p: Shape, t: seq<Entry<V>>, key: nat, val: V, f: nat)
    requires ShapeOk(p) && |t| == p.size && Find(p, t, key, 0) == Some(f)
    ensures f < p.cap && Reachable(p, t[At(p, key, f) := Full(key, val)], key, f)
  {
    hide At;
    var t' := t[At(p, key, f) := Full(key, val)];
    forall j | 0 <= j < f
      ensures Blocked(p, t', key, j)
    {
      assert Blocked(p, t, key, j);
    }
  }

  lemma OtherReachable<V>(p: Shape, t: seq<Entry<V>>, key: nat, val: V, f: nat, k: nat, i: nat)
    requires ShapeOk(p) && |t| == p.size && Find(p, t, key, 0) == Some(f)
    requires k != key && i < p.cap && Reachable(p, t, k, i)
    ensures Reachable(p, t[At(p, key, f) := Full(key, val)], k, i)
  {
    hide At;
    var t' := t[At(p, key, f) := Full(key, val)];
    forall j | 0 <= j < i
      ensures Blocked(p, t', k, j)
    {
      assert Blocked(p, t, k, j);
    }
  }

  /** A failed probe means at least as many keys as the cap. */
  lemma FullIs<V>(p: Shape, t: seq<Entry<V>>, m: map<nat, V>, key: nat)
    requires Represents(p, t, m) && Find(p, t, key, 0).None?
    ensures key !in m && |m| >= p.cap
  {
    GetIs(p, t, m, key);
    var keys := ProbedKeys(p, t, m, key, p.cap);
    KeysWithin(keys, m.Keys);
    assert |m| == |m.Keys|;
  }

  lemma KeysWithin(a: set<nat>, b: set<nat>)
    requires a <= b
    ensures |a| <= |b|
  {
    if a != {} {
      var x :| x in a;
      KeysWithin(a - {x}, b - {x});
    }
  }

  /** The first probes of a failed search meet distinct slots, so distinct keys. */
  lemma {:induction false} ProbedKeys<V>(p: Shape, t: seq<Entry<V>>, m: map<nat, V>, key: nat, n: nat) returns (keys: set<nat>)
    requires Represents(p, t, m) && Find(p, t, key, 0).None? && n <= p.cap
    ensures |keys| == n && keys <= m.Keys
    ensures forall k :: k in keys ==> exists i: nat :: i < n && t[At(p, key, i)].Full? && t[At(p, key, i)].key == k
  {
    hide At, Findable;
    if n == 0 {
      keys := {};
    } else {
      var rest := ProbedKeys(p, t, m, key, n - 1);
      assert Blocked(p, t, key, n - 1);
      var e := t[At(p, key, n - 1)];
      forall i: nat | i < n - 1
        ensures At(p, key, i) != At(p, key, n - 1)
      {
        DistinctSlots(p, key, i, n - 1);
      }
      assert e.key !in rest;
      keys := rest + {e.key};
    }
  }

  lemma DistinctSlots(p: Shape, key: nat, i: nat, j: nat)
    requires ShapeOk(p) && i < j < p.cap
    ensures At(p, key, i) != At(p, key, j)
  {
    ModApart(p.hash(key), i, j, p.size);
  }

  lemma ModApart(h: nat, i: nat, j: nat, n: nat)
    requires i < j < n
    ensures (h + i) % n != (h + j) % n
  {
    var (a, b) := ((h + i) / n, (h + j) / n);
    DivMod(h + i, n);
    DivMod(h + j, n);
    if b <= a {
      MulLe(b, a, n);
    } else {
      MulLt(a, b, n);
    }
  }

  function KeysBelow<V>(t: seq<Entry<V>>, n: nat): set<nat>
    requires n <= |t|
  {
    if n == 0 then {} else KeysBelow(t, n - 1) + (if t[n - 1].Full? then {t[n - 1].key} else {})
  }

  lemma {:induction false} KeysBelowCount<V>(t: seq<Entry<V>>, n: nat, vacant: nat)
    requires n <= |t| && vacant < |t| && t[vacant].Vacant?
    ensures |KeysBelow(t, n)| <= (if vacant < n then n - 1 else n)
    ensures forall s :: 0 <= s < n && t[s].Full? ==> t[s].key in KeysBelow(t, n)
  {
    if n > 0 {
      KeysBelowCount(t, n - 1, vacant);
    }
  }

  /** A vacant slot means fewer keys than slots. */
  lemma VacantIs<V>(p: Shape, t: seq<Entry<V>>, m: map<nat, V>, vacant: nat)
    requires Represents(p, t, m) && vacant < |t| && t[vacant].Vacant?
    ensures |m| < p.size
  {
    hide At;
    KeysBelowCount(t, |t|, vacant);
    forall k | k in m.Keys
      ensures k in KeysBelow(t, |t|)
    {
      var i: nat :| i < p.cap && Reachable(p, t, k, i);
    }
    KeysWithin(m.Keys, KeysBelow(t, |t|));
    assert |m| == |m.Keys|;
  }

  lemma RepresentsShape<V>(p: Shape, t: seq<Entry<V>>, m: map<nat, V>)
    requires Represents(p, t, m)
    ensures ShapeOk(p) && |t| == p.size
  {
  }

  lemma FullIn<V>(p: Shape, t: seq<Entry<V>>, m: map<nat, V>, s: nat)
    requires Represents(p, t, m) && s < |t| && t[s].Full?
    ensures t[s].key in m
  {
  }

  // ----- The table in place -----

  class Table<V(0)> {
    const slots: array<Entry<V>>
    const hash: nat -> nat
    ghost var contents: map<nat, V>

    ghost predicate Valid(cap: nat)
      reads this, slots
    {
      Represents(Shape(hash, slots.Length, cap), slots[..], contents)
    }

    constructor (hash: nat -> nat, size: nat)
      ensures fresh(slots) && this.hash == hash && slots.Length == size && contents == map[]
      ensures forall cap :: 0 < cap <= size ==> Valid(cap)
    {
      slots := new Entry<V>[size](_ => Vacant);
      this.hash := hash;
      contents := map[];
    }

    /** The lookup loop. */
    method Get(key: nat, cap: nat) returns (r: Option<V>)
      requires Valid(cap)
      ensures r == if key in contents then Some(contents[key]) else None
    {
      hide Represents;
      ghost var p := Shape(hash, slots.Length, cap);
      RepresentsShape(p, slots[..], contents);
      GetIs(p, slots[..], contents, key);
      var i := 0;
      while i < cap
        invariant 0 <= i <= cap && Find(p, slots[..], key, 0) == Find(p, slots[..], key, i)
      {
        var at := (hash(key) + i) % slots.Length;
        assert at == At(p, key, i);
        if slots[at].Vacant? {
          return None;
        }
        if slots[at].key == key {
          return Some(slots[at].val);
        }
        i := i + 1;
      }
      return None;
    }

    /** The store loop: it fails only on a new key, when the map has as many keys as the cap. */
    method Put(key: nat, val: V, cap: nat) returns (ok: bool)
      requires Valid(cap)
      modifies this, slots
      ensures Valid(cap)
      ensures ok ==> contents == old(contents)[key := val] && (key in old(contents) || |old(contents)| < slots.Length)
      ensures !ok ==> contents == old(contents) && key !in contents && |contents| >= cap
    {
      hide Represents;
      ghost var p := Shape(hash, slots.Length, cap);
      RepresentsShape(p, slots[..], contents);
      var i := 0;
      while i < cap
        invariant 0 <= i <= cap && Find(p, slots[..], key, 0) == Find(p, slots[..], key, i)
        invariant slots[..] == old(slots[..]) && contents == old(contents)
      {
        var at := (hash(key) + i) % slots.Length;
        assert at == At(p, key, i);
        if slots[at].Vacant? || slots[at].key == key {
          PutIs(p, slots[..], contents, key, val);
          if slots[at].Vacant? {
            VacantIs(p, slots[..], contents, at);
          } else {
            FullIn(p, slots[..], contents, at);
          }
          slots[at] := Full(key, val);
          contents := contents[key := val];
          return true;
        }
        i := i + 1;
      }
      FullIs(p, slots[..], contents, key);
      return false;
    }
  }
}
