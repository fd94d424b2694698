/** What becomes of a timer token over any run of polls, arrivals, deliveries, promotions and clears. */
module TimerRuns {
  import opened Nouns
  import opened EventQueue
  import opened Timers
  import opened Promotion
  import opened Lifecycle

  /** The queue, the timers, what has been delivered, the events retired undelivered, and the arms
      retired before they fired. */
  datatype System = System(q: seq<Queued>, arms: seq<Arm>, delivered: seq<Queued>, retired: seq<Queued>, disarmed: seq<Arm>)

  datatype Event =
    | Polled(now: Now)
    | Arrived(x: Queued)
    | Delivered
    | Cleared(queueToo: bool, armsToo: bool)
    | Promoted(w: World, causes: seq<Noun>, effects: seq<Effect>, consume: bool, life: Life, tick: nat)

  predicate Accepted(s: System, e: Event) {
    e.Promoted? && |s.arms| == TARM_MAX && During(e.life, e.consume)
    && Preflight(e.w, s.arms, |s.q|, e.effects, |e.causes|, e.consume)
  }

  /** `evq_clear` and `tarm_clear` retire what they clear: at the start of a stop and before a fourth
      transaction the queue; at the boundary of a stop, a failed restart, a forced stop, a deployment
      and a hard crash both. */
  function Clear(s: System, queueToo: bool, armsToo: bool): System {
    s.(q := if queueToo then [] else s.q,
       retired := if queueToo then s.retired + s.q else s.retired,
       arms := if armsToo then AllDisarmed(s.arms) else s.arms,
       disarmed := if armsToo then s.disarmed + s.arms else s.disarmed)
  }

  /** A promotion that is accepted, and for which there is memory, publishes; any other changes
      nothing. */
  function Step(s: System, e: Event): System {
    match e
    case Polled(now) => var (q, arms) := Poll(now, s.q, s.arms); s.(q := q, arms := arms)
    case Arrived(x) => if |s.q| < EVQ_CAP then s.(q := s.q + [x]) else s
    case Delivered => if s.q == [] then s else s.(q := s.q[1..], delivered := s.delivered + [s.q[0]])
    case Cleared(queueToo, armsToo) => Clear(s, queueToo, armsToo)
    case Promoted(w, causes, effects, consume, life, tick) =>
      if !Accepted(s, e) then s else
      PreflightSuffices(w, s.arms, s.q, effects, causes, consume, life);
      System(Stamp(Retained(s.q, consume, Discards(life)).value + Untimed(causes) + Untimed(Completions(effects)), tick),
             ApplyTimers(w, CarriedAll(s.arms), effects).value,
             if consume then s.delivered + [s.q[0]] else s.delivered,
             if Discards(life) then s.retired + s.q else s.retired,
             s.disarmed)
  }

  function Run(s: System, es: seq<Event>): System
    decreases |es|
  {
    if es == [] then s else Run(Step(s, es[0]), es[1..])
  }

  /** How often the token was retired, queued or armed. */
  function Gone(s: System, token: Noun): nat {
    Firings(s.retired, token) + Armed(s.disarmed, token)
  }

  /** How often the token is anywhere: armed, queued, delivered or retired. */
  function Count(s: System, token: Noun): nat {
    Armed(s.arms, token) + Firings(s.q, token) + Firings(s.delivered, token) + Gone(s, token)
  }

  function SetsOf(effects: seq<Effect>, token: Noun): nat {
    if effects == [] then 0 else (if effects[0].TimerSet? && effects[0].token == token then 1 else 0) + SetsOf(effects[1..], token)
  }

  function CancelsOf(effects: seq<Effect>, token: Noun): nat {
    if effects == [] then 0 else (if effects[0].TimerCancel? && effects[0].token == token then 1 else 0) + CancelsOf(effects[1..], token)
  }

  /** The accepted sets less the accepted cancels of a run. */
  function Net(s: System, es: seq<Event>, token: Noun): int
    decreases |es|
  {
    if es == [] then 0 else
    (if Accepted(s, es[0]) then SetsOf(es[0].effects, token) - CancelsOf(es[0].effects, token) else 0) + Net(Step(s, es[0]), es[1..], token)
  }

  /** Nobody forges the token's event, and the token is current whenever a poll finds it armed. */
  predicate Honest(s: System, e: Event, token: Noun) {
    match e
    case Polled(now) => forall i :: 0 <= i < |s.arms| && Timers.Holds(s.arms[i], token) ==> now.current(token, s.arms[i].id)
    case Arrived(x) => !IsFiring(x.event, token)
    case Delivered => true
    case Cleared(_, _) => true
    case Promoted(_, causes, _, _, _, _) => forall i :: 0 <= i < |causes| ==> !IsFiring(causes[i], token)
  }

  predicate HonestRun(s: System, es: seq<Event>, token: Noun)
    decreases |es|
  {
    es == [] || (Honest(s, es[0], token) && HonestRun(Step(s, es[0]), es[1..], token))
  }

  // ----- Counting -----

  lemma {:induction false} FiringsConcat(a: seq<Queued>, b: seq<Queued>, token: Noun)
    ensures Firings(a + b, token) == Firings(a, token) + Firings(b, token)
    decreases |b|
  {
    if b == [] {
      assert a + b == a;
    } else {
      var n := |b| - 1;
      assert (a + b)[..|a + b| - 1] == a + b[..n] && (a + b)[|a + b| - 1] == b[n];
      FiringsConcat(a, b[..n], token);
    }
  }

  lemma FiringsFirst(q: seq<Queued>, token: Noun)
    requires q != []
    ensures Firings(q, token) == Firings([q[0]], token) + Firings(q[1..], token)
  {
    assert q == [q[0]] + q[1..];
    FiringsConcat([q[0]], q[1..], token);
  }

  lemma {:induction false} FiringsSame(a: seq<Queued>, b: seq<Queued>, token: Noun)
    requires |a| == |b| && forall i :: 0 <= i < |a| ==> a[i].event == b[i].event
    ensures Firings(a, token) == Firings(b, token)
    decreases |a|
  {
    if a != [] {
      FiringsSame(a[..|a| - 1], b[..|b| - 1], token);
    }
  }

  lemma {:induction false} NoFirings(q: seq<Queued>, token: Noun)
    requires forall i :: 0 <= i < |q| ==> !IsFiring(q[i].event, token)
    ensures Firings(q, token) == 0
    decreases |q|
  {
    if q != [] {
      NoFirings(q[..|q| - 1], token);
    }
  }

  lemma {:induction false} ServicesDoNotFire(effects: seq<Effect>, token: Noun)
    ensures forall i :: 0 <= i < |Completions(effects)| ==> !IsFiring(Completions(effects)[i], token)
  {
    if effects != [] {
      ServicesDoNotFire(effects[1..], token);
    }
  }

  lemma {:induction false} ArmedUpdate(arms: seq<Arm>, i: nat, a: Arm, token: Noun)
    requires i < |arms|
    ensures Armed(arms[i := a], token)
         == Armed(arms, token) - (if Timers.Holds(arms[i], token) then 1 else 0) + (if Timers.Holds(a, token) then 1 else 0)
  {
    if i == 0 {
      assert arms[0 := a][1..] == arms[1..];
    } else {
      ArmedUpdate(arms[1..], i - 1, a, token);
      assert arms[i := a][1..] == arms[1..][i - 1 := a];
    }
  }

  lemma {:induction false} ArmedCarried(arms: seq<Arm>, token: Noun)
    requires token.Cell?
    ensures Armed(CarriedAll(arms), token) == Armed(arms, token)
  {
    if arms != [] {
      ArmedCarried(arms[1..], token);
      assert CarriedAll(arms)[1..] == CarriedAll(arms[1..]);
    }
  }

  lemma {:induction false} ArmedConcat(a: seq<Arm>, b: seq<Arm>, token: Noun)
    ensures Armed(a + b, token) == Armed(a, token) + Armed(b, token)
  {
    if a == [] {
      assert a + b == b;
    } else {
      ArmedConcat(a[1..], b, token);
      assert (a + b)[1..] == a[1..] + b;
    }
  }

  lemma {:induction false} NoneArmed(arms: seq<Arm>, token: Noun)
    ensures Armed(AllDisarmed(arms), token) == 0
  {
    if arms != [] {
      NoneArmed(arms[1..], token);
      assert AllDisarmed(arms)[1..] == AllDisarmed(arms[1..]);
    }
  }

  /** What is cleared is retired. */
  lemma Clearing(s: System, queueToo: bool, armsToo: bool, token: Noun)
    ensures Count(Clear(s, queueToo, armsToo), token) == Count(s, token)
  {
    FiringsConcat(s.retired, s.q, token);
    ArmedConcat(s.disarmed, s.arms, token);
    NoneArmed(s.arms, token);
    NoFirings([], token);
  }

  lemma OneEffect(w: World, arms: seq<Arm>, e: Effect, token: Noun)
    requires ApplyTimer(w, arms, e).Some?
    ensures Armed(ApplyTimer(w, arms, e).value, token)
         == Armed(arms, token) + (if e.TimerSet? && e.token == token then 1 else 0) - (if e.TimerCancel? && e.token == token then 1 else 0)
  {
    match e
    case TimerSet(t, delay) =>
      var i := FirstFree(arms);
      ArmedUpdate(arms, i, Arm(true, w.owner(t), w.ticks(delay), w.time + w.ticks(delay), Some(t)), token);
    case TimerCancel(t) =>
      var i := FirstHolding(arms, t);
      ArmedUpdate(arms, i, Disarmed(arms[i]), token);
    case _ =>
  }

  lemma {:induction false} AllEffects(w: World, arms: seq<Arm>, effects: seq<Effect>, token: Noun)
    requires ApplyTimers(w, arms, effects).Some?
    ensures Armed(ApplyTimers(w, arms, effects).value, token) == Armed(arms, token) + SetsOf(effects, token) - CancelsOf(effects, token)
    decreases |effects|
  {
    if effects != [] {
      OneEffect(w, arms, effects[0], token);
      AllEffects(w, ApplyTimer(w, arms, effects[0]).value, effects[1..], token);
    }
  }

  // ----- One step -----

  /** The queue after a promotion holds the token as often as what was retained. */
  lemma QueuedAfter(kept: seq<Queued>, causes: seq<Noun>, effects: seq<Effect>, tick: nat, token: Noun)
    requires forall i :: 0 <= i < |causes| ==> !IsFiring(causes[i], token)
    ensures Firings(Stamp(kept + Untimed(causes) + Untimed(Completions(effects)), tick), token) == Firings(kept, token)
  {
    var (c, d) := (Untimed(causes), Untimed(Completions(effects)));
    FiringsSame(Stamp(kept + c + d, tick), kept + c + d, token);
    FiringsConcat(kept + c, d, token);
    FiringsConcat(kept, c, token);
    NoFirings(c, token);
    ServicesDoNotFire(effects, token);
    NoFirings(d, token);
  }

  lemma Promoting(s: System, e: Event, token: Noun)
    requires Accepted(s, e) && Honest(s, e, token) && token.Cell?
    ensures Count(Step(s, e), token) == Count(s, token) + SetsOf(e.effects, token) - CancelsOf(e.effects, token)
  {
    PreflightSuffices(e.w, s.arms, s.q, e.effects, e.causes, e.consume, e.life);
    var kept := Retained(s.q, e.consume, Discards(e.life)).value;
    QueuedAfter(kept, e.causes, e.effects, e.tick, token);
    AllEffects(e.w, CarriedAll(s.arms), e.effects, token);
    ArmedCarried(s.arms, token);
    hide Armed, ApplyTimers, Preflight, Completions, Stamp;
    if e.consume {
      NeverBoth(e.life, e.consume);
      FiringsFirst(s.q, token);
      FiringsConcat(s.delivered, [s.q[0]], token);
    }
    if Discards(e.life) {
      FiringsConcat(s.retired, s.q, token);
      NoFirings([], token);
    }
    hide Firings;
  }

  lemma StepCounts(s: System, e: Event, token: Noun)
    requires Honest(s, e, token) && token.Cell?
    ensures Count(Step(s, e), token) == Count(s, token) + if Accepted(s, e) then SetsOf(e.effects, token) - CancelsOf(e.effects, token) else 0
  {
    match e
    case Polled(now) => PollConserves(now, s.q, s.arms, token);
    case Arrived(x) => FiringsSnoc(s.q, x, token);
    case Delivered =>
      if s.q != [] {
        FiringsFirst(s.q, token);
        FiringsConcat(s.delivered, [s.q[0]], token);
      }
    case Cleared(queueToo, armsToo) => Clearing(s, queueToo, armsToo, token);
    case Promoted(_, _, _, _, _, _) =>
      if Accepted(s, e) {
        Promoting(s, e, token);
      }
  }

  // ----- Runs -----

  /** Over every run a token is somewhere exactly as often as it was set and not cancelled: no step
      loses it, and none doubles it. */
  lemma {:induction false} RunCounts(s: System, es: seq<Event>, token: Noun)
    requires HonestRun(s, es, token) && token.Cell?
    ensures Count(Run(s, es), token) == Count(s, token) + Net(s, es, token)
    decreases |es|
  {
    if es != [] {
      StepCounts(s, es[0], token);
      hide Step, Honest, Count, Accepted;
      RunCounts(Step(s, es[0]), es[1..], token);
    }
  }

  /** A token that is new and set once is delivered at most once, and until it is delivered or
      retired it is armed or queued, once. */
  lemma DeliveredOnce(s: System, es: seq<Event>, token: Noun)
    requires HonestRun(s, es, token) && token.Cell? && Count(s, token) == 0 && Net(s, es, token) == 1
    ensures var t := Run(s, es);
            && Firings(t.delivered, token) <= 1
            && Armed(t.arms, token) + Firings(t.q, token) == 1 - Firings(t.delivered, token) - Gone(t, token)
  {
    hide Run, Firings, Armed, Net, HonestRun;
    RunCounts(s, es, token);
  }

  /** How often a step retires the token: as often as it is queued when the queue is cleared or left
      out by a promotion, and as often as it is armed when the timers are cleared. */
  function Loss(s: System, e: Event, token: Noun): nat {
    if e.Cleared? then (if e.queueToo then Firings(s.q, token) else 0) + (if e.armsToo then Armed(s.arms, token) else 0)
    else if Accepted(s, e) && Discards(e.life) then Firings(s.q, token)
    else 0
  }

  function Losses(s: System, es: seq<Event>, token: Noun): nat
    decreases |es|
  {
    if es == [] then 0 else Loss(s, es[0], token) + Losses(Step(s, es[0]), es[1..], token)
  }

  lemma StepRetires(s: System, e: Event, token: Noun)
    ensures Gone(Step(s, e), token) == Gone(s, token) + Loss(s, e, token)
  {
    FiringsConcat(s.retired, s.q, token);
    ArmedConcat(s.disarmed, s.arms, token);
    hide Firings, Armed, Poll;
  }

  /** Over every run a token is retired exactly as often as it was queued or armed when that was
      cleared, or queued when a promotion left the backlog out. */
  lemma {:induction false} RetiredCounts(s: System, es: seq<Event>, token: Noun)
    ensures Gone(Run(s, es), token) == Gone(s, token) + Losses(s, es, token)
    decreases |es|
  {
    if es != [] {
      StepRetires(s, es[0], token);
      hide Step, Gone, Loss;
      RetiredCounts(Step(s, es[0]), es[1..], token);
    }
  }

  /** Nothing is retired without a clear or a promotion that leaves the backlog out. */
  lemma {:induction false} NothingRetired(s: System, es: seq<Event>)
    requires forall i :: 0 <= i < |es| ==> !es[i].Cleared? && (es[i].Promoted? ==> !Discards(es[i].life))
    ensures Run(s, es).retired == s.retired && Run(s, es).disarmed == s.disarmed
    decreases |es|
  {
    if es != [] {
      assert !es[0].Cleared? && (es[0].Promoted? ==> !Discards(es[0].life));
      NothingRetired(Step(s, es[0]), es[1..]);
    }
  }
}
