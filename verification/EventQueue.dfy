/** The event queue of src/kernel.c: a linked list with a tail pointer and a counter, and a ring of
    timing records beside it. */
module EventQueue {
  import opened Nouns

  const EVQ_CAP: nat := 256

  datatype Timing = Timing(admitted: nat, due: nat, flags: nat)

  /** A queued event with its timing. */
  datatype Queued = Queued(event: Noun, timing: Timing)

  class Node {
    var event: Noun
    var next: Node?

    constructor (event: Noun)
      ensures this.event == event && next == null
    {
      this.event, next := event, null;
    }
  }

  /** Distinct nodes, each pointing to the one after it. */
  ghost predicate Linked(nodes: seq<Node>)
    reads nodes
  {
    && (forall i :: 0 <= i < |nodes| ==> nodes[i].next == NextIn(nodes, i))
    && (forall i, j :: 0 <= i < j < |nodes| ==> nodes[i] != nodes[j])
  }

  ghost function NextIn(nodes: seq<Node>, i: nat): Node?
    requires i < |nodes|
  {
    if i + 1 < |nodes| then nodes[i + 1] else null
  }

  ghost function Events(nodes: seq<Node>): (s: seq<Noun>)
    reads nodes
    ensures |s| == |nodes|
  {
    seq(|nodes|, i requires 0 <= i < |nodes| reads nodes => nodes[i].event)
  }

  /** The slot `i` past the ring's head. */
  function RingAt(head: nat, i: nat): (slot: nat)
    ensures slot < EVQ_CAP
  {
    (head + i) % EVQ_CAP
  }

  /** The ring's records from its head on. */
  function FromRing(ring: seq<Timing>, head: nat, n: nat): (s: seq<Timing>)
    requires |ring| == EVQ_CAP
    ensures |s| == n
  {
    seq(n, i requires 0 <= i < n => ring[RingAt(head, i)])
  }

  function Zip(events: seq<Noun>, timings: seq<Timing>): (s: seq<Queued>)
    requires |events| == |timings|
    ensures |s| == |events|
  {
    seq(|events|, i requires 0 <= i < |events| => Queued(events[i], timings[i]))
  }

  lemma RingPut(ring: seq<Timing>, head: nat, n: nat, t: Timing)
    requires |ring| == EVQ_CAP && n < EVQ_CAP
    ensures FromRing(ring[RingAt(head, n) := t], head, n + 1) == FromRing(ring, head, n) + [t]
  {
    forall i: nat | i < n
      ensures RingAt(head, i) != RingAt(head, n)
    {
      RingApart(head, i, n);
    }
    hide RingAt;
  }

  lemma RingApart(head: nat, i: nat, j: nat)
    requires i < j < EVQ_CAP
    ensures RingAt(head, i) != RingAt(head, j)
  {
  }

  lemma RingDrop(ring: seq<Timing>, head: nat, n: nat)
    requires |ring| == EVQ_CAP && 0 < n
    ensures FromRing(ring, RingAt(head, 1), n - 1) == FromRing(ring, head, n)[1..]
  {
    hide RingAt;
    forall i: nat | i < n - 1
      ensures RingAt(RingAt(head, 1), i) == RingAt(head, i + 1)
    {
      RingStep(head, i);
    }
  }

  lemma RingStep(head: nat, i: nat)
    ensures RingAt(RingAt(head, 1), i) == RingAt(head, i + 1)
  {
  }

  class Queue {
    var head: Node?
    var tail: Node?
    var n: nat
    var hwm: nat
    var overflows: nat
    const timing: array<Timing>
    var timingHead: nat
    ghost var nodes: seq<Node>

    /** The list is the nodes in order, the counter is their number, the tail is the last one. */
    ghost predicate Valid()
      reads this, nodes
    {
      && n == |nodes| <= EVQ_CAP && timing.Length == EVQ_CAP && timingHead < EVQ_CAP
      && head == (if nodes == [] then null else nodes[0])
      && tail == (if nodes == [] then null else nodes[|nodes| - 1])
      && Linked(nodes)
    }

    /** What the queue holds, oldest first: the k-th event's timing is k slots past the ring's head. */
    ghost function Contents(): (s: seq<Queued>)
      reads this, nodes, timing
      requires Valid()
      ensures |s| == n
    {
      Zip(Events(nodes), FromRing(timing[..], timingHead, n))
    }

    constructor ()
      ensures Valid() && Contents() == [] && nodes == [] && fresh(timing) && timingHead == 0
    {
      head, tail, n, hwm, overflows, timingHead := null, null, 0, 0, 0, 0;
      timing := new Timing[EVQ_CAP](_ => Timing(0, 0, 0));
      nodes := [];
    }

    /** `evq_clear`. */
    method Clear()
      requires Valid()
      modifies this
      ensures Valid() && Contents() == [] && hwm == old(hwm) && overflows == old(overflows) && nodes == []
    {
      head, tail, n, timingHead := null, null, 0, 0;
      nodes := [];
    }

    /** `evq_enq_prebuilt`: append a node without allocation, or refuse when the queue is full. */
    method EnqPrebuilt(cell: Node, t: Timing, countOverflow: bool) returns (ok: bool)
      requires Valid() && cell !in nodes && cell.next == null
      modifies this, nodes, timing
      ensures Valid() && ok == (old(n) < EVQ_CAP) && timingHead == old(timingHead)
      ensures ok ==> nodes == old(nodes) + [cell] && Contents() == old(Contents()) + [Queued(cell.event, t)] && overflows == old(overflows)
      ensures !ok ==> nodes == old(nodes) && Contents() == old(Contents())
                      && overflows == old(overflows) + (if countOverflow then 1 else 0)
    {
      hide FromRing, Zip, Events, Linked, RingAt;
      if n >= EVQ_CAP {
        if countOverflow {
          overflows := overflows + 1;
        }
        return false;
      }
      ghost var (events, ring, k) := (Events(nodes), timing[..], n);
      Append(cell);
      var slot := RingAt(timingHead, n);
      timing[slot] := t;
      n := n + 1;
      if n > hwm {
        hwm := n;
      }
      assert timing[..] == ring[slot := t];
      RingPut(ring, timingHead, k, t);
      ZipSnoc(events, FromRing(ring, timingHead, k), cell.event, t);
      assert Events(nodes) == events + [cell.event];
      return true;
    }

    /** The link to a new last node. */
    method Append(cell: Node)
      requires Linked(nodes) && cell !in nodes && cell.next == null
      requires head == (if nodes == [] then null else nodes[0]) && tail == (if nodes == [] then null else nodes[|nodes| - 1])
      modifies `head, `tail, `nodes, nodes
      ensures nodes == old(nodes) + [cell] && Linked(nodes) && head == nodes[0] && tail == cell
      ensures Events(nodes) == old(Events(nodes)) + [cell.event] && cell.event == old(cell.event)
    {
      if head == null {
        head := cell;
      } else {
        tail.next := cell;
      }
      tail := cell;
      nodes := nodes + [cell];
    }

    /** `evq_enq_timed`: drop-newest when full. */
    method EnqTimed(event: Noun, t: Timing) returns (ok: bool)
      requires Valid()
      modifies this, nodes, timing
      ensures Valid() && ok == (old(n) < EVQ_CAP) && timingHead == old(timingHead) && fresh(set x | x in nodes && x !in old(nodes))
      ensures Contents() == if ok then old(Contents()) + [Queued(event, t)] else old(Contents())
      ensures overflows == old(overflows) + (if ok then 0 else 1)
    {
      hide FromRing, Zip, Events, Linked;
      if n >= EVQ_CAP {
        overflows := overflows + 1;
        return false;
      }
      var cell := new Node(event);
      ok := EnqPrebuilt(cell, t, true);
    }

    /** `evq_deq_timed`. */
    method DeqTimed() returns (r: Option<Queued>)
      requires Valid()
      modifies this
      ensures Valid()
      ensures if old(Contents()) == [] then r == None && Contents() == []
              else r == Some(old(Contents())[0]) && Contents() == old(Contents())[1..] && nodes == old(nodes)[1..]
    {
      if head == null {
        return None;
      }
      hide FromRing, Zip, Events, Linked, RingAt;
      FrontIs(nodes, timing[..], timingHead);
      r := Some(Queued(head.event, timing[timingHead]));
      timingHead := RingAt(timingHead, 1);
      head := head.next;
      if n > 0 {
        n := n - 1;
      }
      if head == null {
        tail := null;
      }
      nodes := nodes[1..];
    }

    /** Stamp the records of this queue, built from an empty one, that have no admission time. */
    method Stamped(tick: nat)
      requires Valid() && timingHead == 0
      modifies timing
      ensures Valid() && Contents() == Stamp(old(Contents()), tick)
    {
      ghost var ring := timing[..];
      var i := 0;
      while i < n
        invariant 0 <= i <= n
        invariant forall j :: 0 <= j < EVQ_CAP ==> timing[j] == if j < i then StampOne(ring[j], tick) else ring[j]
      {
        if timing[i].admitted == 0 {
          timing[i] := timing[i].(admitted := tick);
        }
        i := i + 1;
      }
      FromStart(timing[..], n);
      FromStart(ring, n);
    }

    /** Publish a queue built elsewhere as this one. */
    method Publish(cand: Queue)
      requires Valid() && cand.Valid() && cand.timingHead == 0 && cand != this && cand.timing != timing
      modifies this, timing
      ensures Valid() && Contents() == old(cand.Contents()) && nodes == cand.nodes && overflows == old(overflows)
    {
      hide Linked, Events, Zip;
      head, tail, n, nodes := cand.head, cand.tail, cand.n, cand.nodes;
      timingHead := 0;
      var i := 0;
      while i < n
        invariant 0 <= i <= n && forall j :: 0 <= j < i ==> timing[j] == cand.timing[j]
        modifies timing
      {
        timing[i] := cand.timing[i];
        i := i + 1;
      }
      if n > hwm {
        hwm := n;
      }
      FromStart(timing[..], n);
      FromStart(cand.timing[..], n);
      assert timing[..][..n] == cand.timing[..][..n];
      assert cand.timing[..] == old(cand.timing[..]);
      assert Events(nodes) == old(Events(cand.nodes));
      hide FromRing;
    }

    /** `evq_peek_timed`. */
    method PeekTimed() returns (r: Option<Queued>)
      requires Valid()
      ensures r == if Contents() == [] then None else Some(Contents()[0])
    {
      if head == null {
        return None;
      }
      return Some(Queued(head.event, timing[timingHead]));
    }
  }

  function StampOne(t: Timing, tick: nat): Timing {
    if t.admitted == 0 then t.(admitted := tick) else t
  }

  /** Publication stamps the events that have no admission time. */
  function Stamp(q: seq<Queued>, tick: nat): (s: seq<Queued>)
    ensures |s| == |q|
  {
    seq(|q|, i requires 0 <= i < |q| => q[i].(timing := StampOne(q[i].timing, tick)))
  }

  /** An event that was admitted before keeps its timing; one that was not is admitted now. */
  lemma StampedOnce(q: seq<Queued>, tick: nat, i: nat)
    requires i < |q|
    ensures var x := Stamp(q, tick)[i];
            && x.event == q[i].event && (q[i].timing.admitted != 0 ==> x == q[i])
            && (q[i].timing.admitted == 0 ==> x.timing == q[i].timing.(admitted := tick))
  {
  }

  lemma FromStart(ring: seq<Timing>, n: nat)
    requires |ring| == EVQ_CAP && n <= EVQ_CAP
    ensures FromRing(ring, 0, n) == ring[..n]
  {
  }

  lemma ZipSnoc(events: seq<Noun>, timings: seq<Timing>, e: Noun, t: Timing)
    requires |events| == |timings|
    ensures Zip(events + [e], timings + [t]) == Zip(events, timings) + [Queued(e, t)]
  {
  }

  /** The front of the queue, and what is behind it. */
  lemma FrontIs(nodes: seq<Node>, ring: seq<Timing>, head: nat)
    requires nodes != [] && |ring| == EVQ_CAP && head < EVQ_CAP && Linked(nodes)
    ensures var all := Zip(Events(nodes), FromRing(ring, head, |nodes|));
            && all[0] == Queued(nodes[0].event, ring[head])
            && all[1..] == Zip(Events(nodes[1..]), FromRing(ring, RingAt(head, 1), |nodes| - 1))
    ensures Linked(nodes[1..]) && nodes[0].next == (if |nodes| > 1 then nodes[1] else null)
  {
    RingDrop(ring, head, |nodes|);
    assert Events(nodes[1..]) == Events(nodes)[1..];
    forall i | 0 <= i < |nodes[1..]|
      ensures nodes[1..][i].next == NextIn(nodes[1..], i)
    {
      assert nodes[i + 1].next == NextIn(nodes, i + 1);
    }
    assert nodes[0].next == NextIn(nodes, 0);
  }
}
