/** The promotion step of src/kernel.c: what preflight accepts, and the state that is published. */
module Promotion {
  import opened Nouns
  import opened EventQueue
  import opened Timers
  import opened Lifecycle

  const MAX_EFFECTS: nat := 1
  const MAX_CAUSES: nat := 2
  const MAX_SERVICES: nat := 4
  const SEEN_MAX: nat := 2 * TARM_MAX + MAX_SERVICES

  /** An effect by its tag; the other tags, and data of the wrong shape, are all refused. */
  datatype Effect = TimerSet(token: Noun, delay: nat) | TimerCancel(token: Noun) | ServiceRequest(token: Noun) | Refused

  /** What the step is told: which effects the authority checks permit, the owner of a token, the
      conversion of a delay, and the time. */
  datatype World = World(permits: Effect -> bool, owner: Noun -> nat, ticks: nat -> nat, time: nat)

  // ----- Preflight -----

  /** The index of the first arm with this property, or the number of arms. */
  function FirstFree(arms: seq<Arm>): (i: nat)
    ensures i <= |arms| && (i < |arms| ==> !arms[i].active) && forall j :: 0 <= j < i ==> arms[j].active
  {
    if arms == [] || !arms[0].active then 0 else 1 + FirstFree(arms[1..])
  }

  function FirstHolding(arms: seq<Arm>, token: Noun): (i: nat)
    ensures i <= |arms| && (i < |arms| ==> Timers.Holds(arms[i], token)) && forall j :: 0 <= j < i ==> !Timers.Holds(arms[j], token)
  {
    if arms == [] || Timers.Holds(arms[0], token) then 0 else 1 + FirstHolding(arms[1..], token)
  }

  function ActiveCount(arms: seq<Arm>): (n: nat)
    ensures n <= |arms|
  {
    if arms == [] then 0 else (if arms[0].active then 1 else 0) + ActiveCount(arms[1..])
  }

  /** The counters of the preflight loop. */
  datatype Checked = Checked(seen: seq<Noun>, live: int, timers: nat, services: nat, effects: nat)

  /** One turn of the loop of `i2_preflight_effects`; no answer is the refusal. */
  function CheckOne(w: World, arms: seq<Arm>, c: Checked, e: Effect): Option<Checked> {
    var c := c.(effects := c.effects + 1);
    if c.effects > MAX_EFFECTS || !w.permits(e) || e.Refused? then None
    else if !e.token.Cell? || e.token in c.seen || |c.seen| >= SEEN_MAX then None
    else
      var c := c.(seen := c.seen + [e.token]);
      match e
      case TimerSet(token, delay) =>
        if delay == 0 || FirstHolding(arms, token) < |arms| || c.live + c.timers + 1 > TARM_MAX then None
        else Some(c.(timers := c.timers + 1))
      case TimerCancel(token) =>
        if FirstHolding(arms, token) == |arms| then None else Some(c.(live := c.live - 1))
      case ServiceRequest(_) =>
        if c.services + 1 > MAX_SERVICES then None else Some(c.(services := c.services + 1))
  }

  function CheckAll(w: World, arms: seq<Arm>, c: Checked, effects: seq<Effect>): Option<Checked>
    decreases |effects|
  {
    if effects == [] then Some(c)
    else
      var next := CheckOne(w, arms, c, effects[0]);
      if next.None? then None else CheckAll(w, arms, next.value, effects[1..])
  }

  /** `i2_preflight_effects`, on proper lists. */
  predicate Preflight(w: World, arms: seq<Arm>, queued: nat, effects: seq<Effect>, causes: nat, consume: bool) {
    var c := CheckAll(w, arms, Checked([], ActiveCount(arms), 0, 0, 0), effects);
    c.Some? && causes <= MAX_CAUSES && (consume ==> queued > 0)
    && queued - (if consume then 1 else 0) + causes + c.value.services <= EVQ_CAP
  }

  // ----- The candidate -----

  /** The arms the candidate starts from: only live tokens are carried over. */
  function Carried(a: Arm): Arm {
    if a.active && a.token.Some? && a.token.value.Cell? then a else a.(token := None)
  }

  function CarriedAll(arms: seq<Arm>): (s: seq<Arm>)
    ensures |s| == |arms|
  {
    seq(|arms|, i requires 0 <= i < |arms| => Carried(arms[i]))
  }

  /** A timer effect on the candidate arms; no answer is the divergence crash. */
  function ApplyTimer(w: World, arms: seq<Arm>, e: Effect): (r: Option<seq<Arm>>)
    ensures r.Some? ==> |r.value| == |arms|
  {
    match e
    case TimerSet(token, delay) =>
      var i := FirstFree(arms);
      if i == |arms| then None
      else Some(arms[i := Arm(true, w.owner(token), w.ticks(delay), w.time + w.ticks(delay), Some(token))])
    case TimerCancel(token) =>
      var i := FirstHolding(arms, token);
      if i == |arms| then None else Some(arms[i := Disarmed(arms[i])])
    case _ => Some(arms)
  }

  function ApplyTimers(w: World, arms: seq<Arm>, effects: seq<Effect>): (r: Option<seq<Arm>>)
    ensures r.Some? ==> |r.value| == |arms|
    decreases |effects|
  {
    if effects == [] then Some(arms)
    else
      var next := ApplyTimer(w, arms, effects[0]);
      if next.None? then None else ApplyTimers(w, next.value, effects[1..])
  }

  /** The completion events of the service requests, in order. */
  function Completions(effects: seq<Effect>): seq<Noun> {
    if effects == [] then []
    else (if effects[0].ServiceRequest? then [ServiceEvent(effects[0].token)] else []) + Completions(effects[1..])
  }

  /** `[%i2-service token [status detail] data]`; the tag is the two-limb atom of the name. */
  function ServiceEvent(token: Noun): Noun {
    Cell(Atom(SERVICE_TAG), Cell(token, Cell(Cell(Atom(0), Atom(0)), Atom(0))))
  }

  const SERVICE_TAG: nat := 0x6563_6976_7265_732D_3269

  /** The events that stay queued; no answer when there is none to consume. */
  function Retained(q: seq<Queued>, consume: bool, discard: bool): Option<seq<Queued>> {
    var kept := if discard then [] else q;
    if !consume then Some(kept) else if kept == [] then None else Some(kept[1..])
  }

  const NO_TIMING: Timing := Timing(0, 0, 0)

  function Untimed(events: seq<Noun>): (s: seq<Queued>)
    ensures |s| == |events|
  {
    seq(|events|, i requires 0 <= i < |events| => Queued(events[i], NO_TIMING))
  }

  // ----- What preflight promises -----

  lemma {:induction false} ActiveUpdate(arms: seq<Arm>, i: nat, a: Arm)
    requires i < |arms|
    ensures ActiveCount(arms[i := a]) == ActiveCount(arms) - (if arms[i].active then 1 else 0) + (if a.active then 1 else 0)
  {
    if i == 0 {
      assert arms[0 := a][1..] == arms[1..];
    } else {
      ActiveUpdate(arms[1..], i - 1, a);
      assert arms[i := a][1..] == arms[1..][i - 1 := a];
    }
  }

  lemma {:induction false} AllActive(arms: seq<Arm>)
    requires forall j :: 0 <= j < |arms| ==> arms[j].active
    ensures ActiveCount(arms) == |arms|
  {
    if arms != [] {
      AllActive(arms[1..]);
    }
  }

  /** The candidate arms keep up with the preflight counters: as many are active as preflight
      counts, and every live token that has not been named is still there. */
  ghost predicate InStep(arms: seq<Arm>, cand: seq<Arm>, c: Checked) {
    && |cand| == |arms| == TARM_MAX && ActiveCount(cand) == c.live + c.timers
    && (forall token: Noun :: token.Cell? && token !in c.seen && FirstHolding(arms, token) < |arms| ==> FirstHolding(cand, token) < |cand|)
  }

  lemma CarriedInStep(arms: seq<Arm>)
    requires |arms| == TARM_MAX
    ensures InStep(arms, CarriedAll(arms), Checked([], ActiveCount(arms), 0, 0, 0))
  {
    CarriedCount(arms);
    forall token: Noun | token.Cell? && FirstHolding(arms, token) < |arms|
      ensures FirstHolding(CarriedAll(arms), token) < |arms|
    {
      var i := FirstHolding(arms, token);
      assert Timers.Holds(CarriedAll(arms)[i], token);
    }
  }

  lemma {:induction false} CarriedCount(arms: seq<Arm>)
    ensures ActiveCount(CarriedAll(arms)) == ActiveCount(arms)
  {
    if arms != [] {
      CarriedCount(arms[1..]);
      assert CarriedAll(arms)[1..] == CarriedAll(arms[1..]);
    }
  }

  /** An effect that preflight accepts applies to the candidate. */
  lemma OneApplies(w: World, arms: seq<Arm>, cand: seq<Arm>, c: Checked, e: Effect)
    requires InStep(arms, cand, c) && CheckOne(w, arms, c, e).Some?
    ensures ApplyTimer(w, cand, e).Some? && InStep(arms, ApplyTimer(w, cand, e).value, CheckOne(w, arms, c, e).value)
  {
    match e
    case TimerSet(token, delay) =>
      var i := FirstFree(cand);
      if i == |cand| {
        AllActive(cand);
      } else {
        var a := Arm(true, w.owner(token), w.ticks(delay), w.time + w.ticks(delay), Some(token));
        ActiveUpdate(cand, i, a);
        StillHeld(arms, cand, c, i, a, token);
      }
    case TimerCancel(token) =>
      var i := FirstHolding(cand, token);
      ActiveUpdate(cand, i, Disarmed(cand[i]));
      StillHeldAfterCancel(arms, cand, c, i, token);
    case _ =>
  }

  /** Filling a free arm moves no held token. */
  lemma StillHeld(arms: seq<Arm>, cand: seq<Arm>, c: Checked, i: nat, a: Arm, named: Noun)
    requires InStep(arms, cand, c) && i < |cand| && !cand[i].active
    ensures forall token: Noun :: token.Cell? && token !in c.seen + [named] && FirstHolding(arms, token) < |arms| ==>
              FirstHolding(cand[i := a], token) < |cand|
  {
    forall token: Noun | token.Cell? && token !in c.seen + [named] && FirstHolding(arms, token) < |arms|
      ensures FirstHolding(cand[i := a], token) < |cand|
    {
      var k := FirstHolding(cand, token);
      assert Timers.Holds(cand[i := a][k], token);
    }
  }

  /** Disarming the arm of a named token leaves the tokens that are not named. */
  lemma StillHeldAfterCancel(arms: seq<Arm>, cand: seq<Arm>, c: Checked, i: nat, named: Noun)
    requires InStep(arms, cand, c) && i < |cand| && Timers.Holds(cand[i], named)
    ensures forall token: Noun :: token.Cell? && token !in c.seen + [named] && FirstHolding(arms, token) < |arms| ==>
              FirstHolding(cand[i := Disarmed(cand[i])], token) < |cand|
  {
    forall token: Noun | token.Cell? && token !in c.seen + [named] && FirstHolding(arms, token) < |arms|
      ensures FirstHolding(cand[i := Disarmed(cand[i])], token) < |cand|
    {
      var k := FirstHolding(cand, token);
      assert token != named;
      assert Timers.Holds(cand[i := Disarmed(cand[i])][k], token);
    }
  }

  lemma {:induction false} AllApply(w: World, arms: seq<Arm>, cand: seq<Arm>, c: Checked, effects: seq<Effect>)
    requires InStep(arms, cand, c) && CheckAll(w, arms, c, effects).Some? && c.services <= MAX_SERVICES
    ensures ApplyTimers(w, cand, effects).Some?
    ensures CheckAll(w, arms, c, effects).value.services == c.services + |Completions(effects)| <= MAX_SERVICES
    decreases |effects|
  {
    if effects != [] {
      OneApplies(w, arms, cand, c, effects[0]);
      AllApply(w, arms, ApplyTimer(w, cand, effects[0]).value, CheckOne(w, arms, c, effects[0]).value, effects[1..]);
    }
  }

  /** What preflight accepts, at whatever point of a lifecycle plan, has an event to consume if it
      consumes one, a timer slot for every set, a live timer for every cancel, room for every
      completion, and room in the queue for everything that is to be in it. */
  lemma PreflightSuffices(w: World, arms: seq<Arm>, q: seq<Queued>, effects: seq<Effect>, causes: seq<Noun>, consume: bool, life: Life)
    requires |arms| == TARM_MAX && During(life, consume) && Preflight(w, arms, |q|, effects, |causes|, consume)
    ensures ApplyTimers(w, CarriedAll(arms), effects).Some? && |Completions(effects)| <= MAX_SERVICES
    ensures var kept := Retained(q, consume, Discards(life));
            kept.Some? && |kept.value| + |causes| + |Completions(effects)| <= EVQ_CAP
  {
    NeverBoth(life, consume);
    CarriedInStep(arms);
    AllApply(w, arms, CarriedAll(arms), Checked([], ActiveCount(arms), 0, 0, 0), effects);
  }

  // ----- Exactly what preflight accepts -----

  predicate Held(arms: seq<Arm>, token: Noun) {
    exists i :: 0 <= i < |arms| && Timers.Holds(arms[i], token)
  }

  function Sets(effects: seq<Effect>): nat {
    if effects == [] then 0 else (if effects[0].TimerSet? then 1 else 0) + Sets(effects[1..])
  }

  function Cancels(effects: seq<Effect>): nat {
    if effects == [] then 0 else (if effects[0].TimerCancel? then 1 else 0) + Cancels(effects[1..])
  }

  function Requests(effects: seq<Effect>): nat {
    if effects == [] then 0 else (if effects[0].ServiceRequest? then 1 else 0) + Requests(effects[1..])
  }

  /** An effect by itself: known, permitted, and about a token that is free to set, or is held. */
  predicate Proper(w: World, arms: seq<Arm>, e: Effect) {
    && !e.Refused? && w.permits(e) && e.token.Cell?
    && (e.TimerSet? ==> e.delay > 0 && !Held(arms, e.token))
    && (e.TimerCancel? ==> Held(arms, e.token))
  }

  /** No two effects name one token. */
  predicate Distinct(effects: seq<Effect>) {
    forall i, j :: 0 <= i < j < |effects| && !effects[i].Refused? && !effects[j].Refused? ==> effects[i].token != effects[j].token
  }

  /** At every set there is a timer left, after the sets and cancels before it. */
  predicate TimersLeft(active: int, effects: seq<Effect>) {
    forall i :: 0 <= i < |effects| && effects[i].TimerSet? ==> active + Sets(effects[..i]) - Cancels(effects[..i]) < TARM_MAX
  }

  /** What may be promoted. */
  predicate Admissible(w: World, arms: seq<Arm>, queued: nat, effects: seq<Effect>, causes: nat, consume: bool) {
    && |effects| <= MAX_EFFECTS && (forall i :: 0 <= i < |effects| ==> Proper(w, arms, effects[i])) && Distinct(effects)
    && TimersLeft(ActiveCount(arms), effects) && Requests(effects) <= MAX_SERVICES
    && causes <= MAX_CAUSES && (consume ==> queued > 0)
    && queued - (if consume then 1 else 0) + causes + Requests(effects) <= EVQ_CAP
  }

  /** The same from the middle of the loop. */
  ghost predicate AdmissibleFrom(w: World, arms: seq<Arm>, c: Checked, effects: seq<Effect>) {
    && c.effects + |effects| <= MAX_EFFECTS && (forall i :: 0 <= i < |effects| ==> Proper(w, arms, effects[i])) && Distinct(effects)
    && (forall i :: 0 <= i < |effects| ==> effects[i].Refused? || effects[i].token !in c.seen)
    && TimersLeft(c.live + c.timers, effects) && c.services + Requests(effects) <= MAX_SERVICES
  }

  lemma HeldIs(arms: seq<Arm>, token: Noun)
    ensures Held(arms, token) <==> FirstHolding(arms, token) < |arms|
  {
    var i := FirstHolding(arms, token);
    if i < |arms| {
      assert Timers.Holds(arms[i], token);
    }
  }

  lemma DistinctSplit(effects: seq<Effect>)
    requires effects != [] && forall i :: 0 <= i < |effects| ==> !effects[i].Refused?
    ensures Distinct(effects) <==> Distinct(effects[1..]) && forall i :: 0 <= i < |effects| - 1 ==> effects[1..][i].token != effects[0].token
  {
    var rest := effects[1..];
    if Distinct(rest) && forall i :: 0 <= i < |rest| ==> rest[i].token != effects[0].token {
      forall i, j | 0 <= i < j < |effects|
        ensures effects[i].token != effects[j].token
      {
        assert effects[j] == rest[j - 1];
        assert i > 0 ==> effects[i] == rest[i - 1];
      }
    }
    if Distinct(effects) {
      forall i, j | 0 <= i < j < |rest|
        ensures rest[i].token != rest[j].token
      {
        assert effects[i + 1] == rest[i] && effects[j + 1] == rest[j];
      }
      forall i | 0 <= i < |rest|
        ensures rest[i].token != effects[0].token
      {
        assert effects[i + 1] == rest[i];
      }
    }
  }

  lemma TimersLeftSplit(active: int, effects: seq<Effect>)
    requires effects != []
    ensures var e := effects[0];
            TimersLeft(active, effects) <==>
              (e.TimerSet? ==> active < TARM_MAX)
              && TimersLeft(active + (if e.TimerSet? then 1 else 0) - (if e.TimerCancel? then 1 else 0), effects[1..])
  {
    var (e, rest) := (effects[0], effects[1..]);
    forall i | 0 <= i < |effects|
      ensures i == 0 ==> Sets(effects[..i]) == 0 && Cancels(effects[..i]) == 0
      ensures i > 0 ==> Sets(effects[..i]) == (if e.TimerSet? then 1 else 0) + Sets(rest[..i - 1])
      ensures i > 0 ==> Cancels(effects[..i]) == (if e.TimerCancel? then 1 else 0) + Cancels(rest[..i - 1])
    {
      if i > 0 {
        assert effects[..i][1..] == rest[..i - 1];
      }
    }
    var next := active + (if e.TimerSet? then 1 else 0) - (if e.TimerCancel? then 1 else 0);
    if TimersLeft(active, effects) {
      forall i | 0 <= i < |rest| && rest[i].TimerSet?
        ensures next + Sets(rest[..i]) - Cancels(rest[..i]) < TARM_MAX
      {
        assert effects[i + 1] == rest[i];
      }
    }
    if (e.TimerSet? ==> active < TARM_MAX) && TimersLeft(next, rest) {
      forall i | 0 <= i < |effects| && effects[i].TimerSet?
        ensures active + Sets(effects[..i]) - Cancels(effects[..i]) < TARM_MAX
      {
        assert i > 0 ==> effects[i] == rest[i - 1];
      }
    }
  }

  /** One turn of the loop, and the rest. */
  lemma OneAdmitted(w: World, arms: seq<Arm>, c: Checked, effects: seq<Effect>)
    requires effects != [] && |c.seen| == c.effects && c.services <= MAX_SERVICES
    ensures var next := CheckOne(w, arms, c, effects[0]);
            && (AdmissibleFrom(w, arms, c, effects) <==> next.Some? && AdmissibleFrom(w, arms, next.value, effects[1..]))
            && (next.Some? ==> |next.value.seen| == next.value.effects && next.value.services <= MAX_SERVICES)
  {
    var (e, rest, next) := (effects[0], effects[1..], CheckOne(w, arms, c, effects[0]));
    if !e.Refused? {
      HeldIs(arms, e.token);
    }
    TimersLeftSplit(c.live + c.timers, effects);
    hide TimersLeft, Held, FirstHolding;
    assert AdmissibleFrom(w, arms, c, effects) ==> Proper(w, arms, e) && e.token !in c.seen;
    if next.Some? {
      assert Proper(w, arms, e) && e.token !in c.seen;
      assert next.value.seen == c.seen + [e.token];
      var proper := forall i :: 0 <= i < |rest| ==> Proper(w, arms, rest[i]);
      assert proper <==> forall i :: 0 <= i < |effects| ==> Proper(w, arms, effects[i]) by { Shifted(w, arms, effects); }
      if proper {
        assert forall i :: 0 <= i < |effects| ==> !effects[i].Refused? by {
          forall i | 0 <= i < |effects|
            ensures !effects[i].Refused?
          {
            assert Proper(w, arms, effects[i]);
          }
        }
        DistinctSplit(effects);
        Unseen(c, effects);
      }
    }
  }

  lemma Shifted(w: World, arms: seq<Arm>, effects: seq<Effect>)
    requires effects != [] && Proper(w, arms, effects[0])
    ensures (forall i :: 0 <= i < |effects| - 1 ==> Proper(w, arms, effects[1..][i])) <==> forall i :: 0 <= i < |effects| ==> Proper(w, arms, effects[i])
  {
    hide Proper;
    if forall i :: 0 <= i < |effects| - 1 ==> Proper(w, arms, effects[1..][i]) {
      forall i | 0 <= i < |effects|
        ensures Proper(w, arms, effects[i])
      {
        assert i > 0 ==> effects[i] == effects[1..][i - 1];
      }
    }
  }

  lemma Unseen(c: Checked, effects: seq<Effect>)
    requires effects != [] && (forall i :: 0 <= i < |effects| ==> !effects[i].Refused?) && effects[0].token !in c.seen
    ensures (forall i :: 0 <= i < |effects| - 1 ==> effects[1..][i].token !in c.seen + [effects[0].token])
            <==> (forall i :: 0 <= i < |effects| ==> effects[i].token !in c.seen)
                 && forall i :: 0 <= i < |effects| - 1 ==> effects[1..][i].token != effects[0].token
  {
    var rest := effects[1..];
    forall i | 0 <= i < |effects|
      ensures i > 0 ==> effects[i] == rest[i - 1]
    {
    }
  }

  lemma {:induction false} AdmittedFrom(w: World, arms: seq<Arm>, c: Checked, effects: seq<Effect>)
    requires |c.seen| == c.effects <= MAX_EFFECTS && c.services <= MAX_SERVICES
    ensures var r := CheckAll(w, arms, c, effects);
            (r.Some? <==> AdmissibleFrom(w, arms, c, effects)) && (r.Some? ==> r.value.services == c.services + Requests(effects))
    decreases |effects|
  {
    hide AdmissibleFrom;
    if effects == [] {
      NoneLeft(w, arms, c, effects);
    } else {
      OneAdmitted(w, arms, c, effects);
      var next := CheckOne(w, arms, c, effects[0]);
      if next.Some? {
        AdmittedFrom(w, arms, next.value, effects[1..]);
      }
    }
  }

  lemma NoneLeft(w: World, arms: seq<Arm>, c: Checked, effects: seq<Effect>)
    requires effects == [] && c.effects <= MAX_EFFECTS && c.services <= MAX_SERVICES
    ensures AdmissibleFrom(w, arms, c, effects)
  {
  }

  /** `i2_preflight_effects` accepts exactly what may be promoted. */
  lemma PreflightExact(w: World, arms: seq<Arm>, queued: nat, effects: seq<Effect>, causes: nat, consume: bool)
    ensures Preflight(w, arms, queued, effects, causes, consume) <==> Admissible(w, arms, queued, effects, causes, consume)
  {
    AdmittedFrom(w, arms, Checked([], ActiveCount(arms), 0, 0, 0), effects);
    hide CheckAll, Proper, Distinct, TimersLeft, Requests;
  }

  // ----- What the effects leave armed -----

  /** The arm of a timer that is set now. */
  function SetArm(w: World, token: Noun, delay: nat): Arm {
    Arm(true, w.owner(token), w.ticks(delay), w.time + w.ticks(delay), Some(token))
  }

  /** An armed timer that no effect cancels stays as it is. */
  lemma {:induction false} ArmStays(w: World, arms: seq<Arm>, effects: seq<Effect>, a: Arm)
    requires ApplyTimers(w, arms, effects).Some? && a in arms && a.active
    requires forall i :: 0 <= i < |effects| && effects[i].TimerCancel? ==> a.token != Some(effects[i].token)
    ensures a in ApplyTimers(w, arms, effects).value
    decreases |effects|
  {
    if effects != [] {
      var e := effects[0];
      var next := ApplyTimer(w, arms, e).value;
      var k :| 0 <= k < |arms| && arms[k] == a;
      assert next[k] == a;
      ArmStays(w, next, effects[1..], a);
    }
  }

  /** Every timer that is set is armed for its delay from now, unless a later effect names it again. */
  lemma {:induction false} SetsAreArmed(w: World, arms: seq<Arm>, effects: seq<Effect>, i: nat)
    requires ApplyTimers(w, arms, effects).Some? && i < |effects| && effects[i].TimerSet?
    requires forall j :: i < j < |effects| && effects[j].TimerCancel? ==> effects[j].token != effects[i].token
    ensures SetArm(w, effects[i].token, effects[i].delay) in ApplyTimers(w, arms, effects).value
    decreases |effects|
  {
    var (e, rest) := (effects[0], effects[1..]);
    var next := ApplyTimer(w, arms, e).value;
    if i == 0 {
      assert next[FirstFree(arms)] == SetArm(w, e.token, e.delay);
      ArmStays(w, next, rest, SetArm(w, e.token, e.delay));
    } else {
      assert rest[i - 1] == effects[i];
      SetsAreArmed(w, next, rest, i - 1);
    }
  }

  /** What a promotion carries over: every timer that may still fire, as it is. */
  lemma CarriedOver(arms: seq<Arm>, i: nat)
    requires i < |arms|
    ensures var (a, c) := (arms[i], CarriedAll(arms)[i]);
            && c.active == a.active && (a.active && (a.token.None? || a.token.value.Cell?) ==> c == a)
            && (!a.active ==> c.token.None?)
  {
  }

  /** The completions: one for each request, in order, about its token, with status and detail 0. */
  lemma {:induction false} CompletionOf(effects: seq<Effect>, i: nat)
    requires i < |effects| && effects[i].ServiceRequest?
    ensures |Completions(effects)| == Requests(effects) && Requests(effects[..i]) < Requests(effects)
    ensures Completions(effects)[Requests(effects[..i])]
         == Cell(Atom(SERVICE_TAG), Cell(effects[i].token, Cell(Cell(Atom(0), Atom(0)), Atom(0))))
    decreases |effects|
  {
    CompletionCount(effects);
    if i > 0 {
      assert effects[..i][1..] == effects[1..][..i - 1];
      CompletionOf(effects[1..], i - 1);
    }
  }

  lemma {:induction false} CompletionCount(effects: seq<Effect>)
    ensures |Completions(effects)| == Requests(effects)
  {
    if effects != [] {
      CompletionCount(effects[1..]);
    }
  }

  // ----- One more effect -----

  lemma {:induction false} ApplySplit(w: World, arms: seq<Arm>, effects: seq<Effect>, i: nat)
    requires i < |effects|
    ensures var first := ApplyTimers(w, arms, effects[..i]);
            && ApplyTimers(w, arms, effects[..i + 1]) == (if first.None? then None else ApplyTimer(w, first.value, effects[i]))
            && (ApplyTimers(w, arms, effects[..i + 1]).None? ==> ApplyTimers(w, arms, effects).None?)
    decreases i
  {
    assert effects[..i + 1][1..] == effects[1..][..i];
    var next := ApplyTimer(w, arms, effects[0]);
    if i == 0 {
      assert effects[..1][1..] == [];
    } else {
      assert effects[..i][1..] == effects[1..][..i - 1];
      if next.Some? {
        ApplySplit(w, next.value, effects[1..], i - 1);
      }
    }
  }

  lemma {:induction false} CompletionsSplit(effects: seq<Effect>, i: nat)
    requires i < |effects|
    ensures Completions(effects[..i + 1])
         == Completions(effects[..i]) + (if effects[i].ServiceRequest? then [ServiceEvent(effects[i].token)] else [])
    ensures |Completions(effects[..i + 1])| <= |Completions(effects)|
    decreases i
  {
    assert effects[..i + 1][1..] == effects[1..][..i];
    if i == 0 {
      assert effects[..1][1..] == [];
    } else {
      assert effects[..i][1..] == effects[1..][..i - 1];
      CompletionsSplit(effects[1..], i - 1);
    }
  }
}
