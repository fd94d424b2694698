/** The request mailbox and the scheduler boundary of src/m7_supervisor.c: what becomes of the
    resource's mode over every run of requests, boundaries, forced stops and resets. */
module Supervisor {
  import opened Nouns
  import opened Nock
  import opened Manager

  const SYSTEM_TERMINATION: nat := 3
  const NOT_READY: nat := 4
  const U64_MAX: nat := 0xFFFF_FFFF_FFFF_FFFF

  /** The fields of the supervisor that a request can change. */
  datatype Sup = Sup(initialized: bool, mode: nat, incarnation: nat, status: nat, qo: bool, safe: bool, restart: Noun,
                     pending: Option<(nat, Noun)>, reqPlus: nat, confirmations: nat)

  /** What the rest of the machine does during one boundary. */
  datatype World = World(decoded: bool, unsure: bool, queryOk: bool, prepared: bool, delivered: bool, forced: bool, advanced: bool)

  // ----- The mailbox -----

  /** A request whose bytes were found canonical, or not (`None`). */
  function Receive(s: Sup, command: nat, obj: Option<Noun>): Sup {
    if !s.initialized then s.(status := NOT_READY, qo := false)
    else if s.pending.Some? then s.(status := OVERFLOW, qo := false)
    else if command > 8 then s.(status := UNSUPPORTED_CMD, qo := false)
    else if obj.None? then s.(status := INVALID_OBJECT, qo := false)
    else s.(status := RDY, qo := true, pending := Some((command, obj.value)))
  }

  // ----- The boundary -----

  function Failed(s: Sup): Sup {
    s.(status := SYSTEM_TERMINATION, qo := false)
  }

  /** A restart that was not delivered stops the resource. */
  function Undelivered(s: Sup, w: World): Sup {
    Failed(s).(mode := STOPPED, safe := w.forced)
  }

  /** After the stop event: outputs are forced safe, and the incarnation moves on if it can. */
  function Stopped(s: Sup, w: World): Sup {
    var s1 := s.(safe := w.forced);
    var s2 := if w.forced then s1 else Failed(s1);
    if s.incarnation >= U64_MAX || !w.advanced then Failed(s2)
    else s2.(mode := STOPPED, incarnation := s.incarnation + 1)
  }

  /** A request the manager program approved. */
  function CarryOut(s: Sup, w: World, command: nat, mode: nat): Sup {
    if command == START && w.unsure then Failed(s)
    else if command == QUERY then if w.queryOk then s else Failed(s)
    else if command == STOP then
      var s1 := s.(mode := STOPPING);
      if !w.delivered then Undelivered(s1, w) else Stopped(s1, w)
    else if command == START then
      if !w.prepared || !w.delivered then Undelivered(s, w) else s.(mode := mode, safe := false)
    else s
  }

  /** `m7_scheduler_boundary`, by the decision table. */
  function Boundary(names: Names, s: Sup, w: World): Sup
    requires NamesOk(names)
  {
    if s.pending.None? then s else
    var (command, obj) := s.pending.value;
    var s1 := s.(pending := None, reqPlus := s.reqPlus + 1);
    var s2 :=
      if !w.decoded then s1.(status := INVALID_OBJECT, qo := false) else
      var v := Decide(names, Atom(s.mode), Atom(0), Atom(command), obj);
      var s3 := s1.(status := v.status, qo := v.status == RDY, restart := if v.reason.Atom? then v.reason else Atom(0));
      if v.status == RDY && v.mode.Atom? then CarryOut(s3, w, command, v.mode.v) else s3;
    s2.(confirmations := s2.confirmations + 1)
  }

  /** `m7_force_stop`. */
  function ForceStop(s: Sup, w: World): Sup {
    var s1 := s.(pending := None, safe := w.forced, mode := STOPPED, qo := false);
    if s.incarnation >= U64_MAX || !w.advanced then s1.(status := SYSTEM_TERMINATION)
    else
      var s2 := s1.(incarnation := s.incarnation + 1);
      if w.forced then s2 else s2.(status := SYSTEM_TERMINATION)
  }

  /** `m7_reset`. */
  function Reset(s: Sup, w: World): Sup {
    if s.incarnation < U64_MAX && w.advanced && w.forced then ForceStop(s, w).(mode := IDLE, status := RDY, qo := true)
    else ForceStop(s, w).(status := SYSTEM_TERMINATION, qo := false)
  }

  /** What a snapshot says of the supervisor. */
  datatype Saved = Saved(mode: nat, reason: Noun, incarnation: nat, initialized: bool, status: nat, qo: bool)

  /** The snapshots that `m7_boot_snapshot` does not refuse for these fields. */
  predicate Restorable(v: Saved) {
    v.mode <= STOPPED && v.mode != STOPPING && v.reason.Atom? && 1 <= v.incarnation <= U64_MAX && v.status <= OVERFLOW
  }

  /** `m7_restore_state_commit`, on a snapshot whose other parts were installed. */
  function Restore(s: Sup, v: Saved): Sup {
    if !Restorable(v) then s
    else Sup(v.initialized, v.mode, v.incarnation, v.status, v.qo, true, v.reason, None, s.reqPlus, s.confirmations)
  }

  // ----- The class -----

  class Resource {
    const names: Names
    const formula: Noun
    var initialized: bool
    var mode: nat
    var incarnation: nat
    var status: nat
    var qo: bool
    var safe: bool
    var restart: Noun
    var pending: bool
    var pendingCommand: nat
    var pendingObj: Noun
    var reqPlus: nat
    var confirmations: nat

    ghost predicate Valid()
      reads this
    {
      NamesOk(names) && mode <= STOPPED
    }

    ghost function State(): Sup
      reads this
    {
      Sup(initialized, mode, incarnation, status, qo, safe, restart,
          if pending then Some((pendingCommand, pendingObj)) else None, reqPlus, confirmations)
    }

    /** `m7_initial_state`. */
    constructor (names: Names)
      requires NamesOk(names)
      ensures Valid() && formula == Program(names) && this.names == names && State() == Sup(true, IDLE, 1, RDY, true, true, Atom(0), None, 0, 0)
    {
      this.names, formula := names, Program(names);
      initialized, mode, incarnation, status, qo, safe, restart := true, IDLE, 1, RDY, true, true, Atom(0);
      pending, pendingCommand, pendingObj, reqPlus, confirmations := false, 0, Atom(0), 0, 0;
    }

    /** `m7_manager_request_bytes`. */
    method Request(command: nat, obj: Option<Noun>)
      requires Valid()
      modifies this
      ensures Valid() && State() == Receive(old(State()), command, obj)
    {
      var refusal := if !initialized then NOT_READY else if pending then OVERFLOW else if command > 8 then UNSUPPORTED_CMD
                     else if obj.None? then INVALID_OBJECT else RDY;
      status, qo := refusal, refusal == RDY;
      if refusal == RDY {
        pending, pendingCommand, pendingObj := true, command, obj.value;
      }
    }

    /** `m7_scheduler_boundary`; `answer` is what `nock_eval` makes of the subject built here. */
    method AtBoundary(w: World, answer: Noun)
      requires Valid() && formula == Program(names)
      requires pending && w.decoded ==> Returns(Subject(Atom(mode), Atom(0), Atom(pendingCommand), pendingObj), formula, answer)
      modifies this
      ensures Valid() && State() == Boundary(names, old(State()), w)
    {
      hide Decide, Returns, Program, Subject, CarryOut;
      if !pending {
        return;
      }
      var command := pendingCommand;
      if w.decoded {
        AnswerIs(names, mode, command, pendingObj, answer);
      }
      pending, reqPlus := false, reqPlus + 1;
      if !w.decoded {
        status, qo := INVALID_OBJECT, false;
      } else if answer.Atom? || answer.tail.Atom? || !IsDirect(answer.head) || !IsDirect(answer.tail.head) {
        // an answer of another shape would end the boundary here
        assert false;
      } else {
        var reason := answer.tail.tail;
        status, restart := answer.head.v, if reason.Atom? then reason else Atom(0);
        qo := status == RDY;
        if status == RDY {
          Perform(w, command, answer.tail.head.v);
        }
      }
      confirmations := confirmations + 1;
    }

    method Perform(w: World, command: nat, nextMode: nat)
      requires nextMode <= STOPPED
      modifies this
      ensures (old(mode) <= STOPPED ==> mode <= STOPPED) && State() == CarryOut(old(State()), w, command, nextMode)
    {
      if command == START && w.unsure {
        status, qo := SYSTEM_TERMINATION, false;
      } else if command == QUERY {
        if !w.queryOk {
          status, qo := SYSTEM_TERMINATION, false;
        }
      } else if command == START || command == STOP {
        if command == STOP {
          mode := STOPPING;
        }
        var prepared := command != START || w.prepared;
        var delivered := prepared && w.delivered;
        if !delivered {
          status, qo, mode, safe := SYSTEM_TERMINATION, false, STOPPED, w.forced;
        } else if command == STOP {
          safe := w.forced;
          if !safe {
            status, qo := SYSTEM_TERMINATION, false;
          }
          if incarnation >= U64_MAX || !w.advanced {
            status, qo := SYSTEM_TERMINATION, false;
          } else {
            incarnation, mode := incarnation + 1, STOPPED;
          }
        } else {
          mode, safe := nextMode, false;
        }
      }
    }

    /** `m7_restore_state_commit`, when the snapshot's fields pass. */
    method RestoreState(v: Saved)
      requires Valid() && v.incarnation <= U64_MAX
      modifies this
      ensures Valid() && State() == Restore(old(State()), v)
    {
      if v.mode == STOPPING || v.mode > STOPPED || v.reason.Cell? || v.incarnation == 0 || v.status > OVERFLOW {
        return;
      }
      pending, pendingCommand, pendingObj := false, 0, Atom(0);
      mode, restart, incarnation, initialized, status, qo, safe := v.mode, v.reason, v.incarnation, v.initialized, v.status, v.qo, true;
    }

    /** `m7_force_stop`. */
    method StopNow(w: World) returns (code: nat)
      requires Valid()
      modifies this
      ensures Valid() && State() == ForceStop(old(State()), w)
      ensures code == if old(incarnation) < U64_MAX && w.advanced && w.forced then 0 else SYSTEM_TERMINATION
    {
      pending, safe, mode, qo := false, w.forced, STOPPED, false;
      if incarnation >= U64_MAX || !w.advanced {
        status := SYSTEM_TERMINATION;
        return SYSTEM_TERMINATION;
      }
      incarnation := incarnation + 1;
      if !w.forced {
        status := SYSTEM_TERMINATION;
        return SYSTEM_TERMINATION;
      }
      return 0;
    }

    /** `m7_reset`. */
    method StartOver(w: World)
      requires Valid()
      modifies this
      ensures Valid() && State() == Reset(old(State()), w)
    {
      var code := StopNow(w);
      if code != 0 {
        status, qo := code, false;
        return;
      }
      mode, status, qo := IDLE, RDY, true;
    }
  }

  /** What the boundary takes apart is always there: the decision on a mode and a command that
      are atoms has a direct status, and a mode that is an atom of the machine's. */
  lemma DecisionShape(names: Names, mode: nat, command: nat, obj: Noun)
    requires NamesOk(names)
    ensures var v := Decide(names, Atom(mode), Atom(0), Atom(command), obj);
            v.status <= INVALID_STATE && v.mode.Atom? && (v.mode.v == mode || v.mode.v == RUNNING || v.mode.v == STOPPED)
  {
  }

  lemma AnswerIs(names: Names, mode: nat, command: nat, obj: Noun, answer: Noun)
    requires NamesOk(names) && mode <= STOPPED
    requires Returns(Subject(Atom(mode), Atom(0), Atom(command), obj), Program(names), answer)
    ensures var v := Decide(names, Atom(mode), Atom(0), Atom(command), obj);
            && answer == Cell(Atom(v.status), Cell(v.mode, v.reason))
            && IsDirect(Atom(v.status)) && v.mode.Atom? && v.mode.v <= STOPPED && IsDirect(v.mode)
  {
    hide Decide, Returns, Program, Subject;
    ProgramAnswersOnce(names, Atom(mode), Atom(0), Atom(command), obj, answer);
    DecisionShape(names, mode, command, obj);
  }

  // ----- Runs -----

  datatype Step =
    | Asked(command: nat, obj: Option<Noun>) | Bounded(w: World) | Forced(w: World) | Restarted(w: World) | Restored(v: Saved)

  function Take(names: Names, s: Sup, step: Step): Sup
    requires NamesOk(names)
  {
    match step
    case Asked(command, obj) => Receive(s, command, obj)
    case Bounded(w) => Boundary(names, s, w)
    case Forced(w) => ForceStop(s, w)
    case Restarted(w) => Reset(s, w)
    case Restored(v) => Restore(s, v)
  }

  /** What every run keeps: a known mode, a valid incarnation, a mailbox that holds only known
      commands, and one confirmation for each request taken. */
  predicate Sound(s: Sup) {
    && s.mode <= STOPPED && 1 <= s.incarnation <= U64_MAX
    && (s.pending.Some? ==> s.pending.value.0 <= 8) && s.confirmations == s.reqPlus
  }

  /** Outputs are marked safe only when the resource is not running. */
  predicate Honest(s: Sup) {
    s.safe ==> s.mode != RUNNING
  }

  const BOOT: Sup := Sup(true, IDLE, 1, RDY, true, true, Atom(0), None, 0, 0)

  function Run(names: Names, s: Sup, steps: seq<Step>): Sup
    requires NamesOk(names)
    decreases |steps|
  {
    if steps == [] then s else Run(names, Take(names, s, steps[0]), steps[1..])
  }

  lemma StepSound(names: Names, s: Sup, step: Step)
    requires NamesOk(names) && Sound(s)
    ensures var t := Take(names, s, step);
            Sound(t) && (!step.Restored? ==> s.incarnation <= t.incarnation <= s.incarnation + 1)
  {
    match step
    case Bounded(w) => BoundarySound(names, s, w);
    case _ => hide Boundary;
  }

  lemma BoundarySound(names: Names, s: Sup, w: World)
    requires NamesOk(names) && Sound(s)
    ensures var t := Boundary(names, s, w); Sound(t) && s.incarnation <= t.incarnation <= s.incarnation + 1
  {
    hide Decide, CarryOut;
    if s.pending.Some? && w.decoded {
      var (command, obj) := s.pending.value;
      DecisionShape(names, s.mode, command, obj);
      var v := Decide(names, Atom(s.mode), Atom(0), Atom(command), obj);
      var s1 := s.(pending := None, reqPlus := s.reqPlus + 1, status := v.status, qo := v.status == RDY,
                   restart := if v.reason.Atom? then v.reason else Atom(0));
      CarriedOut(s1, w, command, v.mode.v);
    }
  }

  lemma CarriedOut(s: Sup, w: World, command: nat, mode: nat)
    requires s.mode <= STOPPED && 1 <= s.incarnation <= U64_MAX && mode <= STOPPED
    ensures var t := CarryOut(s, w, command, mode);
            t.mode <= STOPPED && s.incarnation <= t.incarnation <= s.incarnation + 1 && t.incarnation <= U64_MAX
            && t.pending == s.pending && t.confirmations == s.confirmations && t.reqPlus == s.reqPlus
  {
  }

  /** Only one step marks a running resource safe: the restore of a snapshot taken while it ran. */
  lemma StepHonest(names: Names, s: Sup, step: Step)
    requires NamesOk(names) && Sound(s) && Honest(s)
    ensures Honest(Take(names, s, step)) <==> !(step.Restored? && Restorable(step.v) && step.v.mode == RUNNING)
  {
    hide Decide;
    if step.Bounded? && s.pending.Some? {
      DecisionShape(names, s.mode, s.pending.value.0, s.pending.value.1);
      OnlyStartRuns(names, s.mode, s.pending.value.0, s.pending.value.1);
    }
  }

  predicate RestoresRunning(step: Step) {
    step.Restored? && Restorable(step.v) && step.v.mode == RUNNING
  }

  lemma {:induction false} RunHonest(names: Names, steps: seq<Step>, s: Sup)
    requires NamesOk(names) && Sound(s) && Honest(s) && forall i :: 0 <= i < |steps| ==> !RestoresRunning(steps[i])
    ensures Honest(Run(names, s, steps))
    decreases |steps|
  {
    hide Take, Sound, Honest;
    if steps != [] {
      assert !RestoresRunning(steps[0]);
      StepSound(names, s, steps[0]);
      StepHonest(names, s, steps[0]);
      RunHonest(names, steps[1..], Take(names, s, steps[0]));
    }
  }

  /** The table sends a request to RUNNING only for START, and leaves a query where it was. */
  lemma OnlyStartRuns(names: Names, mode: nat, command: nat, obj: Noun)
    requires NamesOk(names)
    ensures var v := Decide(names, Atom(mode), Atom(0), Atom(command), obj);
            v.status == RDY ==> ((command == QUERY && v.mode == Atom(mode))
                                 || (command == START && v.mode == Atom(RUNNING) && (mode == IDLE || mode == STOPPED))
                                 || (command == STOP && v.mode == Atom(STOPPED) && mode == RUNNING))
  {
  }

  lemma {:induction false} RunSound(names: Names, steps: seq<Step>, s: Sup)
    requires NamesOk(names) && Sound(s)
    ensures Sound(Run(names, s, steps))
    decreases |steps|
  {
    hide Take, Sound;
    if steps != [] {
      StepSound(names, s, steps[0]);
      RunSound(names, steps[1..], Take(names, s, steps[0]));
    }
  }

  /** In every run from boot the invariant holds; outputs are marked safe only when the resource is
      not running, unless a running snapshot was restored; and the boundary never answers that the
      mailbox overflowed or that the command is unknown, since the mailbox was empty and the command
      checked when it was received. */
  lemma RunsAreSound(names: Names, steps: seq<Step>, w: World)
    requires NamesOk(names)
    ensures var s := Run(names, BOOT, steps);
            && Sound(s) && ((forall i :: 0 <= i < |steps| ==> !RestoresRunning(steps[i])) ==> Honest(s))
            && (s.pending.Some? ==> Boundary(names, s, w).status != OVERFLOW && Boundary(names, s, w).status != UNSUPPORTED_CMD)
  {
    RunSound(names, steps, BOOT);
    if forall i :: 0 <= i < |steps| ==> !RestoresRunning(steps[i]) {
      RunHonest(names, steps, BOOT);
    }
    hide Run, RestoresRunning;
    var s := Run(names, BOOT, steps);
    if s.pending.Some? {
      BoundaryStatus(names, s, w);
    }
  }

  lemma BoundaryStatus(names: Names, s: Sup, w: World)
    requires NamesOk(names) && Sound(s) && s.pending.Some?
    ensures Boundary(names, s, w).status != OVERFLOW && Boundary(names, s, w).status != UNSUPPORTED_CMD
  {
    var (command, obj) := s.pending.value;
    assert Atom(command).Atom? && Atom(command).v <= 8;
  }

  /** When the resource runs after a boundary: it did before and this was no STOP, or a START
      from IDLE or STOPPED was approved, prepared and delivered. */
  lemma RunsExactlyWhen(names: Names, s: Sup, w: World)
    requires NamesOk(names) && Sound(s) && s.pending.Some?
    ensures var v := Decide(names, Atom(s.mode), Atom(0), Atom(s.pending.value.0), s.pending.value.1);
            var go := w.decoded && v.status == RDY;
            Boundary(names, s, w).mode == RUNNING <==>
              (if s.mode == RUNNING then !(go && s.pending.value.0 == STOP)
               else go && s.pending.value.0 == START && !w.unsure && w.prepared && w.delivered)
  {
    var (command, obj) := s.pending.value;
    DecisionShape(names, s.mode, command, obj);
    OnlyStartRuns(names, s.mode, command, obj);
    hide Decide;
  }

  predicate Remote(step: Step) {
    step.Asked? || step.Bounded?
  }

  lemma StoppingStep(names: Names, s: Sup, step: Step)
    requires NamesOk(names) && s.mode == STOPPING && Remote(step)
    ensures Take(names, s, step).mode == STOPPING && Take(names, s, step).incarnation == s.incarnation
  {
    if step.Bounded? && s.pending.Some? {
      OnlyStartRuns(names, s.mode, s.pending.value.0, s.pending.value.1);
      DecisionShape(names, s.mode, s.pending.value.0, s.pending.value.1);
    }
    hide Decide;
  }

  /** A STOP that was delivered but whose incarnation could not move on leaves STOPPING, and no
      sequence of requests leads out of it. */
  lemma {:induction false} StoppingIsFinal(names: Names, s: Sup, steps: seq<Step>)
    requires NamesOk(names) && s.mode == STOPPING && forall i :: 0 <= i < |steps| ==> Remote(steps[i])
    ensures Run(names, s, steps).mode == STOPPING && Run(names, s, steps).incarnation == s.incarnation
    decreases |steps|
  {
    hide Take, Remote;
    if steps != [] {
      assert Remote(steps[0]);
      StoppingStep(names, s, steps[0]);
      StoppingIsFinal(names, Take(names, s, steps[0]), steps[1..]);
    }
  }

  /** What leads out of STOPPING: a forced stop, a reset, or the restore of a snapshot. */
  lemma StoppingLeft(names: Names, s: Sup, step: Step)
    requires NamesOk(names) && Sound(s) && s.mode == STOPPING
    ensures Take(names, s, step).mode != STOPPING <==> step.Forced? || step.Restarted? || (step.Restored? && Restorable(step.v))
  {
    hide Boundary;
    if Remote(step) {
      StoppingStep(names, s, step);
    }
  }

  /** It is reached: START, STOP, and an incarnation that does not move on. */
  lemma StoppingReached(names: Names)
    requires NamesOk(names)
    ensures var (obj, w) := (Cell(names.tag[0], Atom(1)), World(true, false, true, true, true, true, true));
            var steps := [Asked(START, Some(obj)), Bounded(w), Asked(STOP, Some(obj)), Bounded(w.(advanced := false))];
            Run(names, BOOT, steps).mode == STOPPING
  {
    var (obj, w) := (Cell(names.tag[0], Atom(1)), World(true, false, true, true, true, true, true));
    var steps := [Asked(START, Some(obj)), Bounded(w), Asked(STOP, Some(obj)), Bounded(w.(advanced := false))];
    FirstTagManaged(names);
    var s1 := Take(names, BOOT, steps[0]);
    var s2 := Take(names, s1, steps[1]);
    assert s2.mode == RUNNING && s2.pending == None && s2.initialized && s2.incarnation == 1;
    var s3 := Take(names, s2, steps[2]);
    assert s3.mode == RUNNING && s3.pending == Some((STOP, obj)) && s3.incarnation == 1;
    var s4 := Take(names, s3, steps[3]);
    assert s4.mode == STOPPING;
    hide Take;
    assert steps[1..][1..] == steps[2..] && steps[2..][1..] == steps[3..] && steps[3..][1..] == [];
    assert Run(names, s3, steps[3..]) == Run(names, s4, []);
    assert Run(names, s2, steps[2..]) == Run(names, s3, steps[3..]);
    assert Run(names, s1, steps[1..]) == Run(names, s2, steps[2..]);
  }

  lemma FirstTagManaged(names: Names)
    requires NamesOk(names)
    ensures KnownTag(names, names.tag[0]) && Managed(names, names.tag[0])
  {
    assert names.tag[..3][0] == names.tag[0];
  }

  /** When a boundary leaves STOPPING behind. */
  lemma StoppingExactlyWhen(names: Names, s: Sup, w: World)
    requires NamesOk(names) && Sound(s) && s.mode != STOPPING && s.pending.Some?
    ensures Boundary(names, s, w).mode == STOPPING <==>
              (w.decoded && s.pending.value.0 == STOP && w.delivered && (s.incarnation == U64_MAX || !w.advanced)
               && Decide(names, Atom(s.mode), Atom(0), Atom(STOP), s.pending.value.1).status == RDY)
  {
    var (command, obj) := s.pending.value;
    DecisionShape(names, s.mode, command, obj);
    OnlyStartRuns(names, s.mode, command, obj);
    hide Decide;
  }

  /** The request in the mailbox is approved by the table. */
  predicate Approved(names: Names, s: Sup, w: World)
    requires NamesOk(names)
  {
    s.pending.Some? && w.decoded && Decide(names, Atom(s.mode), Atom(0), Atom(s.pending.value.0), s.pending.value.1).status == RDY
  }

  /** Exactly the stops that are carried through move the incarnation on, by one; a restore sets it. */
  lemma IncarnationExactly(names: Names, s: Sup, step: Step)
    requires NamesOk(names) && Sound(s)
    ensures Take(names, s, step).incarnation ==
            match step
            case Asked(_, _) => s.incarnation
            case Bounded(w) =>
              s.incarnation + (if Approved(names, s, w) && s.pending.value.0 == STOP && w.delivered && w.advanced && s.incarnation < U64_MAX then 1 else 0)
            case Forced(w) => s.incarnation + (if w.advanced && s.incarnation < U64_MAX then 1 else 0)
            case Restarted(w) => s.incarnation + (if w.advanced && s.incarnation < U64_MAX then 1 else 0)
            case Restored(v) => if Restorable(v) then v.incarnation else s.incarnation
  {
    if step.Bounded? && s.pending.Some? {
      DecisionShape(names, s.mode, s.pending.value.0, s.pending.value.1);
    }
    hide Decide;
  }

  /** What a boundary remembers as the reason of the last restart: the cold one for a START from IDLE,
      the warm one for a START from STOPPED, that of a stop for a STOP, and none for anything else; a
      request whose object cannot be read leaves the reason as it was. */
  lemma RestartReason(names: Names, s: Sup, w: World)
    requires NamesOk(names) && Sound(s) && s.pending.Some?
    ensures var command := s.pending.value.0;
            Boundary(names, s, w).restart ==
            if !w.decoded then s.restart
            else if !Approved(names, s, w) || command == QUERY then Atom(0)
            else
              var reason := if command == STOP then names.stop else if s.mode == IDLE then names.cold else names.warm;
              if reason.Atom? then reason else Atom(0)
  {
    var (command, obj) := s.pending.value;
    OnlyStartRuns(names, s.mode, command, obj);
    var v := Decide(names, Atom(s.mode), Atom(0), Atom(command), obj);
    assert v.status == RDY ==> v.reason == (if command == STOP then names.stop else if command == QUERY then Atom(0)
                                            else if s.mode == IDLE then names.cold else names.warm);
    hide Decide;
  }

  /** What a boundary answers: what the table says, unless the request was approved and could not be
      carried out. */
  lemma AnswerExactly(names: Names, s: Sup, w: World)
    requires NamesOk(names) && Sound(s) && s.pending.Some?
    ensures var t := Boundary(names, s, w); var command := s.pending.value.0;
            && (t.status ==
                if !w.decoded then INVALID_OBJECT
                else if !Approved(names, s, w) then Decide(names, Atom(s.mode), Atom(0), Atom(command), s.pending.value.1).status
                else if (command == QUERY && w.queryOk) || (command == START && !w.unsure && w.prepared && w.delivered)
                        || (command == STOP && w.delivered && w.forced && w.advanced && s.incarnation < U64_MAX) then RDY
                else SYSTEM_TERMINATION)
            && (t.qo <==> t.status == RDY) && t.pending == None && t.confirmations == s.confirmations + 1
  {
    var (command, obj) := s.pending.value;
    DecisionShape(names, s.mode, command, obj);
    OnlyStartRuns(names, s.mode, command, obj);
    hide Decide;
  }

  /** The mailbox: a request waits exactly if one did before, or a good one came to a supervisor that is
      up; one that waits is never replaced. */
  lemma MailboxExactly(s: Sup, command: nat, obj: Option<Noun>)
    ensures var t := Receive(s, command, obj);
            && (s.pending.Some? ==> t.pending == s.pending)
            && (s.pending.None? ==> t.pending == if s.initialized && command <= 8 && obj.Some? then Some((command, obj.value)) else None)
            && (t.status == RDY <==> s.pending.None? && t.pending.Some?) && (t.qo <==> t.status == RDY)
            && t.(status := s.status, qo := s.qo, pending := s.pending) == s
  {
  }

  /** When outputs count as safe: after a stop of any kind exactly if the driver forced them; after a
      START that was carried out not; after a restore always; otherwise as before. */
  lemma SafeExactly(names: Names, s: Sup, step: Step)
    requires NamesOk(names) && Sound(s)
    ensures Take(names, s, step).safe ==
            match step
            case Asked(_, _) => s.safe
            case Forced(w) => w.forced
            case Restarted(w) => w.forced
            case Restored(v) => if Restorable(v) then true else s.safe
            case Bounded(w) =>
              if !Approved(names, s, w) || s.pending.value.0 == QUERY || (s.pending.value.0 == START && w.unsure) then s.safe
              else if s.pending.value.0 == START && w.prepared && w.delivered then false
              else w.forced
  {
    if step.Bounded? && s.pending.Some? {
      OnlyStartRuns(names, s.mode, s.pending.value.0, s.pending.value.1);
    }
    hide Decide;
  }

  /** A forced stop always ends STOPPED with an empty mailbox; a reset ends IDLE and ready exactly if the
      stop succeeded; a restore empties the mailbox. */
  lemma StopsExactly(s: Sup, w: World, v: Saved)
    ensures var (f, r, t) := (ForceStop(s, w), Reset(s, w), Restore(s, v));
            var ok := s.incarnation < U64_MAX && w.advanced && w.forced;
            && f.mode == STOPPED && f.pending == None && !f.qo && (!ok ==> f.status == SYSTEM_TERMINATION) && (ok ==> f.status == s.status)
            && r.mode == (if ok then IDLE else STOPPED) && r.pending == None && r.status == (if ok then RDY else SYSTEM_TERMINATION) && (r.qo <==> ok)
            && (Restorable(v) ==> t.pending == None && t.mode == v.mode && t.status == v.status && t.qo == v.qo && t.restart == v.reason)
  {
  }
}
