/** The timer table of src/kernel.c and its poll into the event queue. */
module Timers {
  import opened Nouns
  import opened EventQueue

  const TARM_MAX: nat := 16
  const FLAG_TIMER: nat := 1
  const CORD_EI: nat := 0x6965
  const CORD_TICK: nat := 0x4B43_4954
  const CORD_I2_TIMER: nat := 0x7265_6D69_742D_3269

  /** A timer as the specification sees it: a token makes it a one-shot I2 timer, none a periodic
      legacy one. */
  datatype Arm = Arm(active: bool, id: nat, period: nat, next: nat, token: Option<Noun>)

  function Disarmed(a: Arm): Arm {
    a.(active := false, token := None)
  }

  /** `[%i2-timer token fired-at]`. */
  function TimerEvent(token: Noun, fired: nat): Noun {
    Cell(Atom(CORD_I2_TIMER), Cell(token, Atom(fired)))
  }

  /** `make_tick_event`. */
  function TickEvent(id: nat): Noun {
    Cell(Atom(CORD_EI), Cell(Atom(id), Cell(Atom(CORD_TICK), Atom(0))))
  }

  /** What one poll sees: the time, and which tokens are still current for their owner. */
  datatype Now = Now(time: nat, current: (Noun, nat) -> bool)

  /** One turn of the loop of `tarm_poll`. */
  function PollOne(now: Now, q: seq<Queued>, a: Arm): (seq<Queued>, Arm) {
    if !a.active || now.time < a.next then (q, a)
    else if a.token.Some? then
      if !now.current(a.token.value, a.id) then (q, Disarmed(a))
      else if |q| >= EVQ_CAP then (q, a)
      else (q + [Queued(TimerEvent(a.token.value, now.time), Timing(now.time, a.next, FLAG_TIMER))], Disarmed(a))
    else
      (if |q| >= EVQ_CAP then q else q + [Queued(TickEvent(a.id), Timing(now.time, a.next, FLAG_TIMER))],
       a.(next := now.time + a.period))
  }

  /** The loop over the arms. */
  function Poll(now: Now, q: seq<Queued>, arms: seq<Arm>): (r: (seq<Queued>, seq<Arm>))
    ensures |r.1| == |arms|
    decreases |arms|
  {
    if arms == [] then (q, [])
    else
      var (q1, a) := PollOne(now, q, arms[0]);
      var (q2, rest) := Poll(now, q1, arms[1..]);
      (q2, [a] + rest)
  }

  /** `tarm_clear`. */
  function AllDisarmed(arms: seq<Arm>): (s: seq<Arm>)
    ensures |s| == |arms|
  {
    seq(|arms|, i requires 0 <= i < |arms| => Disarmed(arms[i]))
  }

  // ----- No timer token is lost or duplicated -----

  /** Whether the event is this token's timer event. */
  predicate IsFiring(e: Noun, token: Noun) {
    e.Cell? && e.head == Atom(CORD_I2_TIMER) && e.tail.Cell? && e.tail.head == token
  }

  function Firings(q: seq<Queued>, token: Noun): nat {
    if q == [] then 0 else Firings(q[..|q| - 1], token) + if IsFiring(q[|q| - 1].event, token) then 1 else 0
  }

  predicate Holds(a: Arm, token: Noun) {
    a.active && a.token == Some(token)
  }

  function Armed(arms: seq<Arm>, token: Noun): nat {
    if arms == [] then 0 else (if Holds(arms[0], token) then 1 else 0) + Armed(arms[1..], token)
  }

  lemma FiringsSnoc(q: seq<Queued>, x: Queued, token: Noun)
    ensures Firings(q + [x], token) == Firings(q, token) + if IsFiring(x.event, token) then 1 else 0
  {
    assert (q + [x])[..|q|] == q;
  }

  /** A poll moves a current token from the table to the queue, or leaves it in the table: together
      they hold it as often as before, whatever the queue's length. */
  lemma {:induction false} PollConserves(now: Now, q: seq<Queued>, arms: seq<Arm>, token: Noun)
    requires forall i :: 0 <= i < |arms| && Holds(arms[i], token) ==> now.current(token, arms[i].id)
    ensures var (q', arms') := Poll(now, q, arms);
            Armed(arms', token) + Firings(q', token) == Armed(arms, token) + Firings(q, token)
    decreases |arms|
  {
    if arms != [] {
      hide PollOne, Firings, Holds;
      var (q1, a) := PollOne(now, q, arms[0]);
      OneConserves(now, q, arms[0], token);
      PollConserves(now, q1, arms[1..], token);
      assert Poll(now, q, arms).1 == [a] + Poll(now, q1, arms[1..]).1;
      assert Poll(now, q, arms).1[1..] == Poll(now, q1, arms[1..]).1;
    }
  }

  lemma OneConserves(now: Now, q: seq<Queued>, a: Arm, token: Noun)
    requires Holds(a, token) ==> now.current(token, a.id)
    ensures var (q', a') := PollOne(now, q, a);
            (if Holds(a', token) then 1 else 0) + Firings(q', token) == (if Holds(a, token) then 1 else 0) + Firings(q, token)
  {
    hide Firings;
    if a.token.Some? {
      FiringsSnoc(q, Queued(TimerEvent(a.token.value, now.time), Timing(now.time, a.next, FLAG_TIMER)), token);
    } else {
      FiringsSnoc(q, Queued(TickEvent(a.id), Timing(now.time, a.next, FLAG_TIMER)), token);
    }
  }

  /** A full queue keeps every current timer armed as it is. */
  lemma {:induction false} FullKeepsArmed(now: Now, q: seq<Queued>, arms: seq<Arm>, i: nat)
    requires |q| >= EVQ_CAP && i < |arms| && arms[i].active && arms[i].token.Some?
    requires now.current(arms[i].token.value, arms[i].id)
    ensures Poll(now, q, arms).0 == q && Poll(now, q, arms).1[i] == arms[i]
    decreases |arms|
  {
    var (q1, a) := PollOne(now, q, arms[0]);
    assert q1 == q;
    if i > 0 {
      FullKeepsArmed(now, q1, arms[1..], i - 1);
    } else {
      FullPoll(now, q, arms[1..]);
    }
  }

  lemma {:induction false} FullPoll(now: Now, q: seq<Queued>, arms: seq<Arm>)
    requires |q| >= EVQ_CAP
    ensures Poll(now, q, arms).0 == q
    decreases |arms|
  {
    if arms != [] {
      FullPoll(now, q, arms[1..]);
    }
  }

  /** The queue only grows, and only up to its capacity. */
  lemma {:induction false} PollGrows(now: Now, q: seq<Queued>, arms: seq<Arm>)
    ensures q <= Poll(now, q, arms).0
    ensures |q| <= EVQ_CAP ==> |Poll(now, q, arms).0| <= EVQ_CAP
    decreases |arms|
  {
    if arms != [] {
      PollGrows(now, PollOne(now, q, arms[0]).0, arms[1..]);
    }
  }

  /** A due timer with a current token fires, once, if there is still room when its turn comes. */
  lemma {:induction false} DueFires(now: Now, q: seq<Queued>, arms: seq<Arm>, i: nat)
    requires i < |arms| && arms[i].active && arms[i].next <= now.time && arms[i].token.Some?
    requires now.current(arms[i].token.value, arms[i].id) && |q| + i < EVQ_CAP
    ensures !Poll(now, q, arms).1[i].active
    ensures Queued(Cell(Atom(CORD_I2_TIMER), Cell(arms[i].token.value, Atom(now.time))), Timing(now.time, arms[i].next, FLAG_TIMER))
            in Poll(now, q, arms).0
    decreases |arms|
  {
    var (q1, a) := PollOne(now, q, arms[0]);
    if i > 0 {
      DueFires(now, q1, arms[1..], i - 1);
    } else {
      PollGrows(now, q1, arms[1..]);
      assert q1[|q|] in Poll(now, q1, arms[1..]).0;
    }
  }

  /** What a poll makes of one arm, wherever it is in the table: one that is not due stays as it is; a
      legacy one that is due is set to its next period, and ticks if there is room when its turn comes;
      an I2 one that is due and no longer current is freed without an event. */
  lemma {:induction false} PolledArm(now: Now, q: seq<Queued>, arms: seq<Arm>, i: nat)
    requires i < |arms|
    ensures var (q', arms') := Poll(now, q, arms); var a := arms[i];
            && (!a.active || now.time < a.next ==> arms'[i] == a)
            && (a.active && a.next <= now.time && a.token.None? ==>
                  arms'[i] == a.(next := now.time + a.period)
                  && (|q| + i < EVQ_CAP ==>
                        Queued(Cell(Atom(CORD_EI), Cell(Atom(a.id), Cell(Atom(CORD_TICK), Atom(0)))), Timing(now.time, a.next, FLAG_TIMER)) in q'))
            && (a.active && a.next <= now.time && a.token.Some? && !now.current(a.token.value, a.id) ==> arms'[i] == Disarmed(a))
    decreases |arms|
  {
    var (q1, a) := PollOne(now, q, arms[0]);
    if i > 0 {
      PolledArm(now, q1, arms[1..], i - 1);
    } else {
      PollGrows(now, q1, arms[1..]);
      if |q| < |q1| {
        assert q1[|q|] in Poll(now, q1, arms[1..]).0;
      }
    }
  }

  /** A poll queues nothing but what its arms are due: at most one event for each. */
  lemma {:induction false} PollQueues(now: Now, q: seq<Queued>, arms: seq<Arm>, x: Queued)
    requires x in Poll(now, q, arms).0 && x !in q
    ensures exists i :: 0 <= i < |arms| && Fires(now, arms[i], x)
    decreases |arms|
  {
    var (q1, a) := PollOne(now, q, arms[0]);
    if x in q1 {
      assert Fires(now, arms[0], x);
    } else {
      PollQueues(now, q1, arms[1..], x);
      var i :| 0 <= i < |arms| - 1 && Fires(now, arms[1..][i], x);
      assert Fires(now, arms[i + 1], x);
    }
  }

  /** The event is that of the arm, which is due. */
  predicate Fires(now: Now, a: Arm, x: Queued) {
    && a.active && a.next <= now.time && x.timing == Timing(now.time, a.next, FLAG_TIMER)
    && (if a.token.Some? then
          now.current(a.token.value, a.id) && x.event == Cell(Atom(CORD_I2_TIMER), Cell(a.token.value, Atom(now.time)))
        else x.event == Cell(Atom(CORD_EI), Cell(Atom(a.id), Cell(Atom(CORD_TICK), Atom(0)))))
  }

  // ----- The table in place -----

  /** A timer as the program keeps it, with the queue node reserved when it was armed. */
  datatype Tarm = Tarm(active: bool, id: nat, period: nat, next: nat, token: Option<Noun>, cell: Node?)

  function View(t: Tarm): Arm {
    Arm(t.active, t.id, t.period, t.next, t.token)
  }

  predicate Kept(t: Tarm) {
    t.active && t.token.Some? && t.cell != null
  }

  function Views(ts: seq<Tarm>): (s: seq<Arm>)
    ensures |s| == |ts|
  {
    seq(|ts|, i requires 0 <= i < |ts| => View(ts[i]))
  }

  /** The reserved nodes. */
  ghost function Reserved(ts: seq<Tarm>): (s: set<Node>)
    ensures forall i :: 0 <= i < |ts| && Kept(ts[i]) ==> ts[i].cell in s
  {
    set i | 0 <= i < |ts| && Kept(ts[i]) :: ts[i].cell
  }

  /** Every I2 timer has a node, no two the same, none in the queue, each unlinked. */
  ghost predicate NodesOk(ts: seq<Tarm>, queued: seq<Node>)
    reads Reserved(ts)
  {
    && (forall i :: 0 <= i < |ts| && ts[i].active && ts[i].token.Some? ==> ts[i].cell != null)
    && (forall i, j :: 0 <= i < j < |ts| && Kept(ts[i]) && Kept(ts[j]) ==> ts[i].cell != ts[j].cell)
    && (forall i :: 0 <= i < |ts| && Kept(ts[i]) ==> ts[i].cell !in queued && ts[i].cell.next == null)
  }

  class Table {
    const tarms: array<Tarm>
    const queue: Queue

    ghost predicate Valid()
      reads this, tarms, queue, queue.nodes, Reserved(tarms[..])
    {
      tarms.Length == TARM_MAX && queue.Valid() && NodesOk(tarms[..], queue.nodes)
    }

    constructor (queue: Queue)
      requires queue.Valid()
      ensures Valid() && this.queue == queue && fresh(tarms)
    {
      this.queue := queue;
      tarms := new Tarm[TARM_MAX](_ => Tarm(false, 0, 0, 0, None, null));
    }

    /** A due timer whose token is current: its node goes to the queue, or the arm is kept. */
    method FireToken(now: Now, i: nat) returns (ok: bool)
      requires Valid() && i < TARM_MAX && Kept(tarms[i])
      modifies tarms, queue, queue.timing, queue.nodes, tarms[i].cell
      ensures Valid() && ok == (old(queue.n) < EVQ_CAP)
      ensures !ok ==> queue.Contents() == old(queue.Contents()) && tarms[..] == old(tarms[..]) && queue.nodes == old(queue.nodes)
      ensures ok ==>
                && queue.Contents() == old(queue.Contents())
                     + [Queued(TimerEvent(old(tarms[i].token.value), now.time), Timing(now.time, old(tarms[i].next), FLAG_TIMER))]
                && tarms[..] == old(tarms[..])[i := old(tarms[i]).(active := false, token := None, cell := null)]
                && queue.nodes == old(queue.nodes) + [old(tarms[i].cell)]
    {
      hide Zip, FromRing, Events, Linked;
      var t := tarms[i];
      ghost var (ts, nodes) := (tarms[..], queue.nodes);
      t.cell.event := TimerEvent(t.token.value, now.time);
      ok := queue.EnqPrebuilt(t.cell, Timing(now.time, t.next, FLAG_TIMER), false);
      if ok {
        tarms[i] := t.(active := false, token := None, cell := null);
        assert tarms[..] == ts[i := tarms[i]];
      }
    }

    /** A due legacy timer: a tick event, dropped when the queue is full, and the next period. */
    method FireTick(now: Now, i: nat)
      requires Valid() && i < TARM_MAX && tarms[i].active && tarms[i].token.None?
      modifies tarms, queue, queue.timing, queue.nodes
      ensures Valid() && fresh((set x | x in queue.nodes) - (set x | x in old(queue.nodes)))
      ensures queue.Contents() == if old(queue.n) >= EVQ_CAP then old(queue.Contents())
                                  else old(queue.Contents()) + [Queued(TickEvent(old(tarms[i].id)), Timing(now.time, old(tarms[i].next), FLAG_TIMER))]
      ensures tarms[..] == old(tarms[..])[i := old(tarms[i]).(next := now.time + old(tarms[i].period))]
    {
      hide Zip, FromRing, Events, Linked;
      var t := tarms[i];
      ghost var (ts, nodes) := (tarms[..], queue.nodes);
      var ok := queue.EnqTimed(TickEvent(t.id), Timing(now.time, t.next, FLAG_TIMER));
      tarms[i] := t.(next := now.time + t.period);
      assert tarms[..] == ts[i := tarms[i]];
    }

    /** A due timer whose token is stale. */
    method Drop(i: nat)
      requires Valid() && i < TARM_MAX
      modifies tarms
      ensures Valid() && tarms[..] == old(tarms[..])[i := old(tarms[i]).(active := false, token := None, cell := null)]
    {
      hide Zip, FromRing, Events, Linked;
      ghost var ts := tarms[..];
      tarms[i] := tarms[i].(active := false, token := None, cell := null);
      assert tarms[..] == ts[i := tarms[i]];
    }

    /** One turn of the loop of `tarm_poll`. */
    method PollArm(now: Now, i: nat)
      requires Valid() && i < TARM_MAX
      modifies tarms, queue, queue.timing, queue.nodes, if Kept(tarms[i]) then {tarms[i].cell} else {}
      ensures Valid()
      ensures (queue.Contents(), View(tarms[i])) == PollOne(now, old(queue.Contents()), old(View(tarms[i])))
      ensures tarms[..] == old(tarms[..])[i := tarms[i]] && (Kept(tarms[i]) ==> tarms[i] == old(tarms[i]))
      ensures fresh((set x | x in queue.nodes) - (set x | x in old(queue.nodes)) - old(if Kept(tarms[i]) then {tarms[i].cell} else {}))
    {
      hide Zip, FromRing, Events, Linked, PollOne;
      PollOneIs(now, queue.Contents(), View(tarms[i]));
      var t := tarms[i];
      if t.active && now.time >= t.next {
        if t.token.Some? {
          if !now.current(t.token.value, t.id) {
            Drop(i);
          } else {
            var ok := FireToken(now, i);
          }
        } else {
          FireTick(now, i);
        }
      }
    }

    /** `tarm_poll`. */
    method TarmPoll(now: Now)
      requires Valid()
      modifies tarms, queue, queue.timing, queue.nodes, Reserved(tarms[..])
      ensures Valid()
      ensures (queue.Contents(), Views(tarms[..])) == Poll(now, old(queue.Contents()), old(Views(tarms[..])))
    {
      hide Zip, FromRing, Events, Linked, PollOne;
      ghost var (q0, a0) := (queue.Contents(), Views(tarms[..]));
      ghost var known := Reserved(tarms[..]);
      var i := 0;
      PollSplit(now, q0, a0, 0);
      while i < TARM_MAX
        invariant 0 <= i <= TARM_MAX && Valid()
        invariant fresh((set x | x in queue.nodes) - (set x | x in old(queue.nodes)) - known)
        invariant Reserved(tarms[..]) <= known
        invariant forall j :: i <= j < TARM_MAX ==> View(tarms[j]) == a0[j]
        invariant (queue.Contents(), Views(tarms[..])[..i]) == Poll(now, q0, a0[..i])
      {
        ghost var ts := tarms[..];
        PollSplit(now, q0, a0, i);
        PollArm(now, i);
        assert Views(tarms[..])[..i + 1] == Views(ts)[..i] + [View(tarms[i])];
        i := i + 1;
      }
      assert a0[..TARM_MAX] == a0 && Views(tarms[..])[..TARM_MAX] == Views(tarms[..]);
    }

    /** `tarm_clear`: every arm is free and the queue is as it was. */
    method TarmClear()
      requires Valid()
      modifies tarms
      ensures Valid() && queue.Contents() == old(queue.Contents())
      ensures Views(tarms[..]) == AllDisarmed(old(Views(tarms[..]))) && Reserved(tarms[..]) == {}
    {
      hide Zip, FromRing, Events, Linked;
      ghost var ts := tarms[..];
      var i := 0;
      while i < TARM_MAX
        invariant 0 <= i <= TARM_MAX
        invariant forall j :: 0 <= j < i ==> tarms[j] == ts[j].(active := false, token := None, cell := null)
        invariant forall j :: i <= j < TARM_MAX ==> tarms[j] == ts[j]
        invariant queue.Valid() && queue.Contents() == old(queue.Contents())
      {
        tarms[i] := tarms[i].(active := false, token := None, cell := null);
        i := i + 1;
      }
    }
  }

  /** The poll of one more arm. */
  lemma {:induction false} PollSplit(now: Now, q: seq<Queued>, arms: seq<Arm>, i: nat)
    requires i <= |arms|
    ensures Poll(now, q, arms[..0]) == (q, [])
    ensures i < |arms| ==>
              var (q1, done) := Poll(now, q, arms[..i]); var (q2, a) := PollOne(now, q1, arms[i]);
              Poll(now, q, arms[..i + 1]) == (q2, done + [a])
    decreases i
  {
    hide PollOne;
    if 0 < i < |arms| {
      var (q1, a0) := PollOne(now, q, arms[0]);
      PollSplit(now, q1, arms[1..], i - 1);
      assert arms[..i][1..] == arms[1..][..i - 1] && arms[..i + 1][1..] == arms[1..][..i];
      var (qd, done) := Poll(now, q1, arms[1..][..i - 1]);
      var (q2, a) := PollOne(now, qd, arms[i]);
      assert Poll(now, q, arms[..i]) == (qd, [a0] + done);
      assert Poll(now, q, arms[..i + 1]) == (q2, [a0] + (done + [a]));
      assert [a0] + (done + [a]) == ([a0] + done) + [a];
    } else if i < |arms| {
      var (q1, a) := PollOne(now, q, arms[0]);
      assert arms[..1][1..] == [] && Poll(now, q1, []) == (q1, []);
      assert [a] + [] == [] + [a];
    }
  }

  lemma PollOneIs(now: Now, q: seq<Queued>, a: Arm)
    ensures PollOne(now, q, a) ==
              if !a.active || now.time < a.next then (q, a)
              else if a.token.Some? then
                if !now.current(a.token.value, a.id) then (q, Disarmed(a))
                else if |q| >= EVQ_CAP then (q, a)
                else (q + [Queued(TimerEvent(a.token.value, now.time), Timing(now.time, a.next, FLAG_TIMER))], Disarmed(a))
              else
                (if |q| >= EVQ_CAP then q else q + [Queued(TickEvent(a.id), Timing(now.time, a.next, FLAG_TIMER))],
                 a.(next := now.time + a.period))
  {
  }
}
