/** The promotion step as the program runs it: every candidate root is built in the other
    semispace, and then all are published together. */
module PromotionKernel {
  import opened Nouns
  import opened EventQueue
  import opened Timers
  import opened Promotion
  import opened Lifecycle

  /** The semispaces of the cell heap.  Whether an allocation works is left open; a copy works or
      fails as one allocation does, and gives an equal noun. */
  class Memory {
    const works: nat -> bool
    var tick: nat
    var selector: nat
    var ptr: nat
    var savedSelector: nat
    var savedPtr: nat

    constructor (works: nat -> bool) {
      this.works := works;
      tick, selector, ptr, savedSelector, savedPtr := 0, 0, 0, 0, 0;
    }

    /** There is room for everything. */
    ghost predicate Ample() {
      forall k: nat :: works(k)
    }

    /** `heap_persist_begin_tx`. */
    method Begin()
      modifies this
      ensures savedSelector == old(selector) && savedPtr == old(ptr) && tick == old(tick)
      ensures selector == (if old(selector) == 0 then 1 else 0) && ptr == 0
    {
      savedSelector, savedPtr := selector, ptr;
      selector := if selector == 0 then 1 else 0;
      ptr := 0;
    }

    /** `heap_persist_abort_tx`. */
    method Abort()
      modifies this
      ensures selector == savedSelector == old(savedSelector) && ptr == savedPtr == old(savedPtr)
    {
      selector, ptr := savedSelector, savedPtr;
    }

    /** `alloc_cell_checked`, and the copies made of it. */
    method Alloc() returns (ok: bool)
      modifies `tick, `ptr
      ensures ok == works(old(tick)) && tick == old(tick) + 1 && (Ample() ==> ok)
    {
      ok := works(tick);
      tick := tick + 1;
      if ok {
        ptr := ptr + 1;
      }
    }
  }

  datatype Fault = Allocation | QueueFull | NothingQueued | CompletionsFull | Diverged

  /** `candidate_enqueue`. */
  method CandidateEnqueue(mem: Memory, cand: Queue, event: Noun, copy: bool, t: Timing) returns (fault: Option<Fault>)
    requires cand.Valid()
    modifies mem`tick, mem`ptr, cand, cand.timing, cand.nodes
    ensures cand.Valid() && cand.timingHead == old(cand.timingHead) && fresh((set x | x in cand.nodes) - (set x | x in old(cand.nodes)))
    ensures fault.None? ==> cand.Contents() == old(cand.Contents()) + [Queued(event, t)]
    ensures mem.Ample() ==> fault != Some(Allocation)
    ensures fault.Some? ==> fault.value == Allocation || (fault.value == QueueFull && |old(cand.Contents())| >= EVQ_CAP)
  {
    hide *;
    if copy {
      var copied := mem.Alloc();
      if !copied {
        return Some(Allocation);
      }
    }
    var ok := mem.Alloc();
    if !ok {
      return Some(Allocation);
    }
    ok := cand.EnqTimed(event, t);
    if !ok {
      return Some(QueueFull);
    }
    return None;
  }

  /** One allocation or copy that the candidate needs. */
  method Need(mem: Memory) returns (fault: Option<Fault>)
    modifies mem`tick, mem`ptr
    ensures mem.Ample() ==> fault != Some(Allocation)
    ensures fault.None? || fault == Some(Allocation)
  {
    var ok := mem.Alloc();
    return if ok then None else Some(Allocation);
  }

  /** The k-th node of the list. */
  ghost function NodeAt(nodes: seq<Node>, k: nat): Node? {
    if k < |nodes| then nodes[k] else null
  }

  lemma QueuedAt(q: Queue, base: nat, th: nat, k: nat)
    requires q.Valid() && base <= 1 && th == RingAt(q.timingHead, base) && base + k < |q.nodes|
    ensures q.Contents()[base + k] == Queued(q.nodes[base + k].event, q.timing[RingAt(th, k)])
    ensures q.nodes[base + k].next == NodeAt(q.nodes, base + k + 1)
  {
    assert q.nodes[base + k].next == NextIn(q.nodes, base + k);
    if base == 1 {
      RingStep(q.timingHead, k);
    } else {
      RingStart(q.timingHead);
    }
    hide RingAt, Linked;
  }

  lemma RingStart(head: nat)
    requires head < EVQ_CAP
    ensures RingAt(head, 0) == head
  {
  }

  class Kernel {
    const mem: Memory
    const queue: Queue
    const arms: array<Arm>
    const flags: Flags
    var gate: Noun
    var slam: Noun
    var completions: seq<Noun>

    ghost predicate Valid()
      reads this, queue, queue.nodes
    {
      queue.Valid() && arms.Length == TARM_MAX
    }

    constructor (mem: Memory, queue: Queue, flags: Flags, gate: Noun, slam: Noun)
      requires queue.Valid()
      ensures Valid() && this.queue == queue && this.mem == mem && this.flags == flags && fresh(arms)
    {
      this.mem, this.queue, this.flags, this.gate, this.slam := mem, queue, flags, gate, slam;
      arms := new Arm[TARM_MAX](_ => Arm(false, 0, 0, 0, None));
      completions := [];
    }

    /** The retained events, copied in order with their timing. */
    method CopyRetained(cand: Queue, consume: bool, discard: bool) returns (fault: Option<Fault>)
      requires Valid() && cand.Valid() && cand.timingHead == 0 && cand.Contents() == [] && cand != queue
      requires cand.nodes == [] && cand.timing != queue.timing
      requires Retained(queue.Contents(), consume, discard).Some?
      modifies mem`tick, mem`ptr, cand, cand.timing
      ensures cand.Valid() && cand.timingHead == 0 && fresh(set x | x in cand.nodes)
      ensures fault.None? ==> cand.Contents() == Retained(queue.Contents(), consume, discard).value
      ensures mem.Ample() ==> fault != Some(Allocation)
      ensures fault.Some? ==> fault == Some(Allocation)
    {
      hide Linked, Events, FromRing, Zip, RingAt;
      if discard {
        return None;
      }
      ghost var kept := Retained(queue.Contents(), consume, discard).value;
      var q := queue.head;
      var th := queue.timingHead;
      ghost var base: nat := 0;
      RingStart(queue.timingHead);
      if consume {
        FrontIs(queue.nodes, queue.timing[..], queue.timingHead);
        q := q.next;
        th := RingAt(th, 1);
        base := 1;
      }
      var k := 0;
      while q != null && k < EVQ_CAP
        invariant 0 <= k <= |kept| && q == NodeAt(queue.nodes, base + k)
        invariant cand.Valid() && cand.timingHead == 0 && cand.Contents() == kept[..k]
        invariant fresh(set x | x in cand.nodes)
        decreases EVQ_CAP - k
      {
        QueuedAt(queue, base, th, k);
        assert kept[..k + 1] == kept[..k] + [kept[k]];
        fault := CandidateEnqueue(mem, cand, q.event, true, queue.timing[RingAt(th, k)]);
        if fault.Some? {
          return;
        }
        q := q.next;
        k := k + 1;
      }
      assert kept[..k] == kept;
      return None;
    }

    /** The new causes, copied behind them. */
    method CopyCauses(cand: Queue, causes: seq<Noun>) returns (fault: Option<Fault>)
      requires cand.Valid() && cand.timingHead == 0
      modifies mem`tick, mem`ptr, cand, cand.timing, cand.nodes
      ensures cand.Valid() && cand.timingHead == 0 && fresh((set x | x in cand.nodes) - (set x | x in old(cand.nodes)))
      ensures fault.None? ==> cand.Contents() == old(cand.Contents()) + Untimed(causes)
      ensures mem.Ample() ==> fault != Some(Allocation)
      ensures fault.Some? ==> fault == Some(Allocation) || (fault == Some(QueueFull) && |old(cand.Contents())| + |causes| > EVQ_CAP)
    {
      hide Linked, Events, FromRing, Zip;
      ghost var q0 := cand.Contents();
      var i := 0;
      while i < |causes|
        invariant 0 <= i <= |causes| && cand.Valid() && cand.timingHead == 0
        invariant cand.Contents() == q0 + Untimed(causes[..i])
        invariant fresh((set x | x in cand.nodes) - (set x | x in old(cand.nodes)))
      {
        fault := CandidateEnqueue(mem, cand, causes[i], true, NO_TIMING);
        if fault.Some? {
          return;
        }
        UntimedSnoc(causes[..i], causes[i]);
        assert causes[..i + 1] == causes[..i] + [causes[i]];
        i := i + 1;
      }
      assert causes[..|causes|] == causes;
      return None;
    }

    /** The candidate arms: the live tokens copied, and their events reserved again. */
    method CopyArms() returns (fault: Option<Fault>, cand: array<Arm>)
      requires Valid()
      modifies mem`tick, mem`ptr
      ensures fresh(cand) && cand.Length == TARM_MAX
      ensures fault.None? ==> cand[..] == CarriedAll(arms[..])
      ensures mem.Ample() ==> fault != Some(Allocation)
      ensures fault.Some? ==> fault == Some(Allocation)
    {
      cand := new Arm[TARM_MAX](_ => Arm(false, 0, 0, 0, None));
      var i := 0;
      fault := None;
      while i < TARM_MAX
        invariant 0 <= i <= TARM_MAX && fault.None?
        invariant forall j :: 0 <= j < i ==> cand[j] == Carried(arms[j])
      {
        cand[i] := Carried(arms[i]);
        if cand[i].token.Some? {
          fault := Need(mem);
          if fault.None? { fault := Need(mem); }
          if fault.Some? {
            return;
          }
        }
        i := i + 1;
      }
      assert cand[..] == CarriedAll(arms[..]);
    }

    /** The effects on the candidate: timers set and cancelled, completions reserved. */
    method ApplyEffects(w: World, cand: Queue, candArms: array<Arm>, effects: seq<Effect>) returns (fault: Option<Fault>, done: seq<Noun>)
      requires cand.Valid() && cand.timingHead == 0 && candArms.Length == TARM_MAX
      modifies mem`tick, mem`ptr, cand, cand.timing, cand.nodes, candArms
      ensures cand.Valid() && cand.timingHead == 0 && fresh((set x | x in cand.nodes) - (set x | x in old(cand.nodes)))
      ensures fault.None? ==> cand.Contents() == old(cand.Contents()) + Untimed(Completions(effects)) && done == Completions(effects)
                              && ApplyTimers(w, old(candArms[..]), effects) == Some(candArms[..])
      ensures fault == Some(Diverged) ==> ApplyTimers(w, old(candArms[..]), effects).None?
      ensures fault == Some(CompletionsFull) ==> |Completions(effects)| > MAX_SERVICES
      ensures fault == Some(QueueFull) ==> |old(cand.Contents())| + |Completions(effects)| > EVQ_CAP
      ensures mem.Ample() ==> fault != Some(Allocation)
      ensures fault != Some(NothingQueued)
    {
      hide *;
      ghost var (q0, a0) := (cand.Contents(), candArms[..]);
      var i := 0;
      done := [];
      fault := None;
      NothingApplied(w, a0, effects[..0]);
      while i < |effects|
        invariant 0 <= i <= |effects| && fault.None? && cand.Valid() && cand.timingHead == 0
        invariant fresh((set x | x in cand.nodes) - (set x | x in old(cand.nodes)))
        invariant done == Completions(effects[..i]) && cand.Contents() == q0 + Untimed(done)
        invariant ApplyTimers(w, a0, effects[..i]) == Some(candArms[..])
      {
        ApplySplit(w, a0, effects, i);
        CompletionsSplit(effects, i);
        var e := effects[i];
        if e.ServiceRequest? {
          OtherEffect(w, candArms[..], e);
          if |done| >= MAX_SERVICES {
            return Some(CompletionsFull), done;
          }
          var event := ServiceEvent(e.token);
          fault := Need(mem);
          if fault.None? { fault := CandidateEnqueue(mem, cand, event, false, NO_TIMING); }
          if fault.Some? {
            return;
          }
          UntimedSnoc(done, event);
          done := done + [event];
        } else {
          fault := ApplyTimerTo(w, candArms, e);
          if fault.Some? {
            return;
          }
        }
        i := i + 1;
      }
      assert effects[..|effects|] == effects;
    }

    /** A timer effect on the candidate arms. */
    method ApplyTimerTo(w: World, candArms: array<Arm>, e: Effect) returns (fault: Option<Fault>)
      requires candArms.Length == TARM_MAX
      modifies mem`tick, mem`ptr, candArms
      ensures fault.None? ==> ApplyTimer(w, old(candArms[..]), e) == Some(candArms[..])
      ensures mem.Ample() ==> fault != Some(Allocation)
      ensures fault.Some? ==> fault == Some(Allocation) || (fault == Some(Diverged) && ApplyTimer(w, old(candArms[..]), e).None?)
    {
      ghost var a0 := candArms[..];
      if e.TimerSet? {
        var slot := FirstFree(candArms[..]);
        if slot == TARM_MAX {
          return Some(Diverged);
        }
        candArms[slot] := Arm(true, w.owner(e.token), w.ticks(e.delay), w.time + w.ticks(e.delay), Some(e.token));
        assert candArms[..] == a0[slot := candArms[slot]];
        fault := Need(mem);
        if fault.None? { fault := Need(mem); }
      } else if e.TimerCancel? {
        var slot := FirstHolding(candArms[..], e.token);
        if slot == TARM_MAX {
          return Some(Diverged);
        }
        candArms[slot] := Disarmed(candArms[slot]);
        assert candArms[..] == a0[slot := candArms[slot]];
        fault := None;
      } else {
        fault := None;
      }
    }

    /** Every candidate root except the gate: the queue, the arms and the completions. */
    method BuildCandidate(w: World, causes: seq<Noun>, effects: seq<Effect>, consume: bool, discard: bool, ghost q0: seq<Queued>, ghost a0: seq<Arm>)
      returns (fault: Option<Fault>, cand: Queue, candArms: array<Arm>, done: seq<Noun>)
      requires Valid() && q0 == queue.Contents() && a0 == arms[..] && Retained(q0, consume, discard).Some?
      modifies mem`tick, mem`ptr
      ensures cand.Valid() && cand.timingHead == 0 && fresh(cand) && fresh(cand.timing)
      ensures fresh(candArms) && candArms.Length == TARM_MAX
      ensures fault.None? ==>
                && cand.Contents() == Retained(q0, consume, discard).value + Untimed(causes) + Untimed(Completions(effects))
                && ApplyTimers(w, CarriedAll(a0), effects) == Some(candArms[..]) && done == Completions(effects)
      ensures mem.Ample() ==> fault != Some(Allocation)
      ensures Explained(fault, w, a0, Retained(q0, consume, discard).value, causes, effects)
    {
      hide *;
      ghost var kept := Retained(q0, consume, discard).value;
      cand := new Queue();
      done := [];
      candArms := new Arm[TARM_MAX](_ => Arm(false, 0, 0, 0, None));
      fault := CopyRetained(cand, consume, discard);
      if fault.None? {
        fault := CopyCauses(cand, causes);
      }
      if fault.Some? {
        ExplainedBy(fault, w, a0, kept, causes, effects);
        return;
      }
      fault, candArms := CopyArms();
      if fault.Some? {
        ExplainedBy(fault, w, a0, kept, causes, effects);
        return;
      }
      fault, done := ApplyEffects(w, cand, candArms, effects);
      ExplainedBy(fault, w, a0, kept, causes, effects);
    }

    /** Every candidate root: the gate, the rest, the completions and the formula. */
    method BuildAll(w: World, causes: seq<Noun>, effects: seq<Effect>, consume: bool, discard: bool, ghost q0: seq<Queued>, ghost a0: seq<Arm>)
      returns (fault: Option<Fault>, cand: Queue, candArms: array<Arm>, done: seq<Noun>)
      requires Valid() && q0 == queue.Contents() && a0 == arms[..] && Retained(q0, consume, discard).Some?
      modifies mem`tick, mem`ptr
      ensures cand.Valid() && cand.timingHead == 0 && fresh(cand) && fresh(cand.timing)
      ensures fresh(candArms) && candArms.Length == TARM_MAX
      ensures fault.None? ==>
                && cand.Contents() == Retained(q0, consume, discard).value + Untimed(causes) + Untimed(Completions(effects))
                && ApplyTimers(w, CarriedAll(a0), effects) == Some(candArms[..]) && done == Completions(effects)
      ensures mem.Ample() ==> fault != Some(Allocation)
      ensures Explained(fault, w, a0, Retained(q0, consume, discard).value, causes, effects)
    {
      hide *;
      ghost var kept := Retained(q0, consume, discard).value;
      var gateFault := Need(mem);
      if gateFault.Some? {
        cand := new Queue();
        candArms := new Arm[TARM_MAX](_ => Arm(false, 0, 0, 0, None));
        ExplainedBy(gateFault, w, a0, kept, causes, effects);
        return gateFault, cand, candArms, [];
      }
      fault, cand, candArms, done := BuildCandidate(w, causes, effects, consume, discard, q0, a0);
      if fault.None? {
        fault := Need(mem);
        if fault.None? { fault := Need(mem); }
        ExplainedBy(fault, w, a0, kept, causes, effects);
      }
    }

    /** `persist_compact`.  Either every root is as it was, semispace included, or all of them are
        published together; after preflight only an allocation can fail, whatever the lifecycle plan. */
    method PersistCompact(w: World, newGate: Noun, newSlam: Noun, causes: seq<Noun>, effects: seq<Effect>, consume: bool, tick: nat)
      returns (fault: Option<Fault>)
      requires Valid() && During(flags.State(), consume)
      modifies this, arms, queue, queue.timing, mem
      ensures Valid()
      ensures fault.Some? && fault != Some(Diverged) ==>
                && gate == old(gate) && slam == old(slam) && completions == old(completions) && arms[..] == old(arms[..])
                && queue.Contents() == old(queue.Contents()) && queue.nodes == old(queue.nodes)
                && mem.selector == old(mem.selector) && mem.ptr == old(mem.ptr)
      ensures fault.None? ==>
                && gate == newGate && slam == newSlam && Retained(old(queue.Contents()), consume, Discards(flags.State())).Some?
                && queue.Contents() == Stamp(Retained(old(queue.Contents()), consume, Discards(flags.State())).value
                                             + Untimed(causes) + Untimed(Completions(effects)), tick)
                && ApplyTimers(w, CarriedAll(old(arms[..])), effects) == Some(arms[..]) && completions == Completions(effects)
                && mem.selector == (if old(mem.selector) == 0 then 1 else 0)
      ensures mem.Ample() ==> fault != Some(Allocation)
      ensures fault == Some(NothingQueued) <==> Retained(old(queue.Contents()), consume, Discards(flags.State())).None?
      ensures Preflight(w, old(arms[..]), |old(queue.Contents())|, effects, |causes|, consume) ==>
                fault.None? || fault == Some(Allocation)
    {
      hide *;
      var life := flags.State();
      var discard := Discards(life);
      ValidIs();
      ghost var (q0, a0) := (queue.Contents(), arms[..]);
      NothingIs(queue, consume, discard);
      if consume && (discard || queue.head == null || queue.n == 0) {
        NeverNothing(w, a0, q0, effects, causes, consume, life);
        return Some(NothingQueued);
      }
      mem.Begin();
      var cand: Queue, candArms: array<Arm>, done: seq<Noun>;
      fault, cand, candArms, done := BuildAll(w, causes, effects, consume, discard, q0, a0);
      OnlyAllocation(fault, w, a0, q0, causes, effects, consume, life);
      if fault == Some(Diverged) {
        return;
      }
      if fault.Some? {
        mem.Abort();
        return;
      }
      Publish(newGate, newSlam, cand, candArms, done, tick);
    }

    /** A pass of the loop whose evaluation commits: the event is chosen, the effects are checked and
        promoted, and the lifecycle plan moves on.  The flags are such, pass after pass, that nothing
        but memory can fail once the effects are accepted. */
    method CommitPass(w: World, newGate: Noun, newSlam: Noun, causes: seq<Noun>, effects: seq<Effect>, tick: nat)
      returns (source: Source, accepted: bool, fault: Option<Fault>, outcome: Outcome)
      requires Valid() && Resting(flags.State())
      modifies this, arms, queue, queue.timing, mem, flags
      ensures Valid() && Resting(flags.State())
      ensures source == Chosen(old(flags.State()), old(queue.n) != 0)
      ensures accepted == Admissible(w, old(arms[..]), |old(queue.Contents())|, effects, |causes|, source == Queue)
      ensures mem.Ample() ==> fault != Some(Allocation)
      ensures fault.None? || fault == Some(Allocation)
      ensures !accepted || fault.Some? ==>
                && gate == old(gate) && slam == old(slam) && completions == old(completions) && arms[..] == old(arms[..])
                && queue.Contents() == old(queue.Contents()) && mem.selector == old(mem.selector) && mem.ptr == old(mem.ptr)
                && (flags.State(), outcome) == Terminal(Select(old(flags.State()), old(queue.n) != 0), false, |queue.Contents()|)
      ensures accepted && fault.None? ==>
                var life := Select(old(flags.State()), old(queue.n) != 0);
                && gate == newGate && slam == newSlam && completions == Completions(effects)
                && ApplyTimers(w, CarriedAll(old(arms[..])), effects) == Some(arms[..])
                && Retained(old(queue.Contents()), source == Queue, Discards(life)).Some?
                && var q := Stamp(Retained(old(queue.Contents()), source == Queue, Discards(life)).value
                                  + Untimed(causes) + Untimed(Completions(effects)), tick);
                   && (flags.State(), outcome) == Terminal(life, true, |q|)
                   && queue.Contents() == if outcome == Failed then [] else q
    {
      hide *;
      ValidIs();
      source := flags.SelectEvent(queue.n != 0);
      ghost var _ := queue.Contents();
      accepted := Preflight(w, arms[..], queue.n, effects, |causes|, source == Queue);
      PreflightExact(w, arms[..], queue.n, effects, |causes|, source == Queue);
      fault := None;
      if !accepted {
        outcome := flags.TransactionTerminal(false, queue.n);
        return;
      }
      fault := PersistCompact(w, newGate, newSlam, causes, effects, source == Queue, tick);
      ValidIs();
      ghost var _ := queue.Contents();
      outcome := flags.TransactionTerminal(fault.None?, queue.n);
      if fault.None? && outcome == Failed {
        queue.Clear();
      }
      IsValid();
    }

    /** `kernel_m7_execute_lifecycle` up to its loop: a stop clears the queue. */
    method ExecuteLifecycle(allowed: bool, stopping: bool) returns (started: bool)
      requires Valid() && Resting(flags.State())
      modifies queue, flags
      ensures Valid() && Resting(flags.State()) && flags.State() == Start(old(flags.State()), allowed, stopping)
      ensures queue.Contents() == if started && stopping then [] else old(queue.Contents())
      ensures started == (allowed && !old(flags.slot) && !old(flags.active) && !old(flags.plan))
    {
      hide Linked, Events, FromRing, Zip;
      started := flags.StartPlan(allowed, stopping);
      if started && stopping {
        queue.Clear();
      }
    }

    lemma ValidIs()
      requires Valid()
      ensures queue.Valid() && arms.Length == TARM_MAX
    {
    }

    lemma IsValid()
      requires queue.Valid() && arms.Length == TARM_MAX
      ensures Valid()
    {
    }

    /** The publication point: nothing here allocates. */
    method Publish(newGate: Noun, newSlam: Noun, cand: Queue, candArms: array<Arm>, done: seq<Noun>, tick: nat)
      requires Valid() && cand.Valid() && cand.timingHead == 0 && cand != queue && cand.timing != queue.timing
      requires candArms.Length == TARM_MAX && candArms != arms
      modifies this, arms, queue, queue.timing, cand.timing
      ensures Valid() && gate == newGate && slam == newSlam && completions == done
      ensures queue.Contents() == Stamp(old(cand.Contents()), tick) && arms[..] == candArms[..] == old(candArms[..])
    {
      hide *;
      ValidIs();
      cand.Stamped(tick);
      gate, slam := newGate, newSlam;
      queue.Publish(cand);
      var i := 0;
      while i < TARM_MAX
        invariant 0 <= i <= TARM_MAX && forall j :: 0 <= j < i ==> arms[j] == candArms[j]
        modifies arms
      {
        arms[i] := candArms[i];
        i := i + 1;
      }
      completions := done;
      IsValid();
    }
  }

  lemma ExplainedBy(fault: Option<Fault>, w: World, a0: seq<Arm>, kept: seq<Queued>, causes: seq<Noun>, effects: seq<Effect>)
    requires fault != Some(NothingQueued)
    requires fault == Some(Diverged) ==> ApplyTimers(w, CarriedAll(a0), effects).None?
    requires fault == Some(CompletionsFull) ==> |Completions(effects)| > MAX_SERVICES
    requires fault == Some(QueueFull) ==> |kept| + |causes| + |Completions(effects)| > EVQ_CAP
    ensures Explained(fault, w, a0, kept, causes, effects)
  {
    hide ApplyTimers, Completions;
  }

  lemma NothingIs(q: Queue, consume: bool, discard: bool)
    requires q.Valid()
    ensures Retained(q.Contents(), consume, discard).None? <==> consume && (discard || q.head == null || q.n == 0)
  {
    hide Linked, Events, FromRing, Zip;
  }

  lemma NeverNothing(w: World, a0: seq<Arm>, q0: seq<Queued>, effects: seq<Effect>, causes: seq<Noun>, consume: bool, life: Life)
    requires |a0| == TARM_MAX && During(life, consume) && Retained(q0, consume, Discards(life)).None?
    ensures !Preflight(w, a0, |q0|, effects, |causes|, consume)
  {
    NeverBoth(life, consume);
  }

  /** After preflight only an allocation can fail. */
  lemma OnlyAllocation(fault: Option<Fault>, w: World, a0: seq<Arm>, q0: seq<Queued>, causes: seq<Noun>, effects: seq<Effect>, consume: bool, life: Life)
    requires |a0| == TARM_MAX && During(life, consume) && Retained(q0, consume, Discards(life)).Some?
    requires Explained(fault, w, a0, Retained(q0, consume, Discards(life)).value, causes, effects)
    ensures Preflight(w, a0, |q0|, effects, |causes|, consume) ==> fault.None? || fault == Some(Allocation)
    ensures fault != Some(NothingQueued)
  {
    hide Discards, During;
    if Preflight(w, a0, |q0|, effects, |causes|, consume) {
      PreflightSuffices(w, a0, q0, effects, causes, consume, life);
    }
    hide Preflight, Retained, ApplyTimers, Completions;
  }

  /** A fault other than a failed allocation has its reason in what was to be published. */
  predicate Explained(fault: Option<Fault>, w: World, a0: seq<Arm>, kept: seq<Queued>, causes: seq<Noun>, effects: seq<Effect>) {
    match fault
    case None => true
    case Some(f) =>
      match f
      case Allocation => true
      case NothingQueued => false
      case Diverged => ApplyTimers(w, CarriedAll(a0), effects).None?
      case CompletionsFull => |Completions(effects)| > MAX_SERVICES
      case QueueFull => |kept| + |causes| + |Completions(effects)| > EVQ_CAP
  }

  lemma NothingApplied(w: World, arms: seq<Arm>, none: seq<Effect>)
    requires none == []
    ensures ApplyTimers(w, arms, none) == Some(arms) && Completions(none) == [] && Untimed([]) == []
  {
  }

  lemma UntimedSnoc(events: seq<Noun>, e: Noun)
    ensures Untimed(events + [e]) == Untimed(events) + [Queued(e, NO_TIMING)]
  {
  }

  lemma OtherEffect(w: World, arms: seq<Arm>, e: Effect)
    requires e.ServiceRequest?
    ensures ApplyTimer(w, arms, e) == Some(arms)
  {
  }
}
