/** The lifecycle plan of src/kernel.c: the flags that say which event is the plan's own, and when a
    promotion leaves the queued backlog out. */
module Lifecycle {
  const MAX_TRANSACTIONS: nat := 3

  datatype Life = Life(slot: bool, active: bool, discard: bool, plan: bool, draining: bool, rootSeen: bool,
                       transactions: nat, rootCommits: nat, destinationCommits: nat)

  const IDLE: Life := Life(false, false, false, false, false, false, 0, 0, 0)

  /** Where the event of a pass of the loop comes from. */
  datatype Source = Slot | Queue | Outside

  datatype Outcome = GoOn | Committed | Failed

  /** `kernel_m7_execute_lifecycle` before its loop runs; `allowed` stands for its checks on the
      identity, the mode, the gate and the event. */
  function Start(s: Life, allowed: bool, stopping: bool): Life {
    if !allowed || s.slot || s.active || s.plan then s
    else s.(slot := true, discard := stopping, plan := true, draining := false, rootSeen := false, transactions := 0)
  }

  /** And after it. */
  function Finish(s: Life): Life {
    s.(slot := false, discard := false, plan := false, draining := false)
  }

  /** The choice of an event: the slot first, else the queue if one waits there, else what comes in. */
  function Chosen(s: Life, waiting: bool): Source {
    if s.slot then Slot else if waiting then Queue else Outside
  }

  function Select(s: Life, waiting: bool): Life {
    var source := Chosen(s, waiting);
    s.(slot := false, active := source == Slot || (s.draining && source == Queue))
  }

  /** `kernel_m7_transaction_terminal`, with `queued` events left, as far as the plan goes. */
  function Terminal(s: Life, committed: bool, queued: nat): (Life, Outcome) {
    if !s.active then (s, GoOn)
    else if !committed then (s.(active := false, plan := false, draining := false), Failed)
    else
      var s1 := s.(active := false, transactions := s.transactions + 1);
      var s2 := if !s1.rootSeen then s1.(rootSeen := true, rootCommits := s1.rootCommits + 1, discard := false)
                else s1.(destinationCommits := s1.destinationCommits + 1);
      if s2.transactions >= MAX_TRANSACTIONS && queued != 0 then (s2.(plan := false, draining := false), Failed)
      else if queued == 0 then (s2.(plan := false, draining := false), Committed)
      else (s2.(draining := true), GoOn)
  }

  // ----- A promotion of the pass -----

  /** Whether a promotion now leaves the backlog out. */
  predicate Discards(s: Life) {
    s.active && s.discard
  }

  /** What the flags keep: the backlog is only left out until the plan's root has committed, the
      plan takes events from the queue only after that, and it ends at the third commit. */
  predicate Sound(s: Life) {
    && (s.rootSeen ==> !s.discard) && (s.draining ==> s.rootSeen && s.plan) && (s.slot ==> s.plan && !s.draining)
    && (s.plan ==> s.transactions < MAX_TRANSACTIONS)
    && (s.active ==> s.plan && !s.slot)
  }

  /** The flags as a pass has them when its event is from the queue, or is not. */
  predicate During(s: Life, fromQueue: bool) {
    Sound(s) && (fromQueue && s.active ==> s.draining)
  }

  /** A promotion that consumes a queued event never leaves the backlog out. */
  lemma NeverBoth(s: Life, fromQueue: bool)
    requires During(s, fromQueue)
    ensures !(fromQueue && Discards(s))
  {
  }

  // ----- Runs -----

  /** A start, the end of its loop, or a pass: whether an event waits in the queue, whether a promotion is
      tried, whether the transaction commits, and how many events it leaves. */
  datatype Step = Begin(allowed: bool, stopping: bool) | End | Pass(waiting: bool, tried: bool, committed: bool, queued: nat)

  function Do(s: Life, step: Step): Life {
    match step
    case Begin(allowed, stopping) => Start(s, allowed, stopping)
    case End => Finish(s)
    case Pass(waiting, _, committed, queued) => Terminal(Select(s, waiting), committed, queued).0
  }

  /** Between passes no event is in hand. */
  predicate Resting(s: Life) {
    Sound(s) && !s.active
  }

  function Run(s: Life, steps: seq<Step>): Life
    decreases |steps|
  {
    if steps == [] then s else Run(Do(s, steps[0]), steps[1..])
  }

  /** The promotions of a run: whether each consumes a queued event, and whether it leaves the
      backlog out. */
  function Promotions(s: Life, steps: seq<Step>): seq<(bool, bool)>
    decreases |steps|
  {
    if steps == [] then [] else
    (if steps[0].Pass? && steps[0].tried then [(Chosen(s, steps[0].waiting) == Queue, Discards(Select(s, steps[0].waiting)))] else [])
    + Promotions(Do(s, steps[0]), steps[1..])
  }

  lemma StepRests(s: Life, step: Step)
    requires Resting(s)
    ensures Resting(Do(s, step))
    ensures step.Pass? ==> During(Select(s, step.waiting), Chosen(s, step.waiting) == Queue)
  {
  }

  /** Over every run of the loop, nested or not, a promotion that consumes a queued event keeps the
      rest of the queue; and no plan ever commits more than three transactions. */
  lemma {:induction false} RunsNeverBoth(s: Life, steps: seq<Step>)
    requires Resting(s)
    ensures Resting(Run(s, steps)) && forall i :: 0 <= i < |Promotions(s, steps)| ==> !(Promotions(s, steps)[i].0 && Promotions(s, steps)[i].1)
    decreases |steps|
  {
    if steps != [] {
      StepRests(s, steps[0]);
      RunsNeverBoth(Do(s, steps[0]), steps[1..]);
      if steps[0].Pass? {
        NeverBoth(Select(s, steps[0].waiting), Chosen(s, steps[0].waiting) == Queue);
      }
      hide Do, Select, Chosen, Resting, Discards;
    }
  }

  /** The transactions committed for the plan that is running or has just run. */
  function Commits(steps: seq<Step>, s: Life): nat
    decreases |steps|
  {
    if steps == [] then 0 else
    var t := Do(s, steps[0]);
    (if steps[0].Pass? && Select(s, steps[0].waiting).active && steps[0].committed then 1 else 0) + Commits(steps[1..], t)
  }

  /** Until another plan starts, a plan commits at most three transactions in all. */
  lemma {:induction false} AtMostThree(s: Life, steps: seq<Step>)
    requires Resting(s) && forall i :: 0 <= i < |steps| ==> !steps[i].Begin?
    ensures Commits(steps, s) <= if s.plan then MAX_TRANSACTIONS - s.transactions else 0
    decreases |steps|
  {
    if steps != [] {
      StepRests(s, steps[0]);
      AtMostThree(Do(s, steps[0]), steps[1..]);
    }
  }

  /** A plan, pass by pass, when every pass commits: the root takes the slot, whatever waits, and leaves
      the backlog out exactly on a stop; each later pass takes from the queue and keeps it; the plan is
      complete when nothing is left queued, goes on while something is, and fails at the third commit
      if something still is. */
  lemma PlanUnfolds(s: Life, stopping: bool, waiting: bool, n1: nat, n2: nat, n3: nat)
    requires Resting(s) && !s.slot && !s.plan
    ensures var a := Select(Start(s, true, stopping), waiting);
            var (s1, o1) := Terminal(a, true, n1);
            && Chosen(Start(s, true, stopping), waiting) == Slot && a.active && (Discards(a) <==> stopping)
            && (o1 == if n1 == 0 then Committed else GoOn) && (s1.plan <==> n1 > 0) && s1.rootCommits == s.rootCommits + 1
            && (n1 > 0 ==>
                  var b := Select(s1, true);
                  var (s2, o2) := Terminal(b, true, n2);
                  && Chosen(s1, true) == Queue && b.active && !Discards(b)
                  && (o2 == if n2 == 0 then Committed else GoOn) && (s2.plan <==> n2 > 0)
                  && (n2 > 0 ==>
                        var c := Select(s2, true);
                        var (s3, o3) := Terminal(c, true, n3);
                        && Chosen(s2, true) == Queue && c.active && !Discards(c)
                        && (o3 == if n3 == 0 then Committed else Failed) && !s3.plan && !s3.draining
                        && s3.rootCommits == s.rootCommits + 1 && s3.destinationCommits == s.destinationCommits + 2))
  {
  }

  /** A pass that does not commit ends a plan; and no pass outside a plan touches the flags. */
  lemma PlanEnds(s: Life, waiting: bool, committed: bool, n: nat)
    requires Resting(s)
    ensures var a := Select(s, waiting); var (t, o) := Terminal(a, committed, n);
            && (a.active && !committed ==> o == Failed && !t.plan && !t.draining)
            && (!s.plan ==> !a.active && o == GoOn && t == s)
            && (a.active <==> s.slot || (s.draining && waiting))
  {
  }

  // ----- The flags as the program keeps them -----

  class Flags {
    var slot: bool
    var active: bool
    var discard: bool
    var plan: bool
    var draining: bool
    var rootSeen: bool
    var transactions: nat
    var rootCommits: nat
    var destinationCommits: nat

    function State(): Life
      reads this
    {
      Life(slot, active, discard, plan, draining, rootSeen, transactions, rootCommits, destinationCommits)
    }

    constructor ()
      ensures State() == IDLE && Resting(State())
    {
      slot, active, discard, plan, draining, rootSeen := false, false, false, false, false, false;
      transactions, rootCommits, destinationCommits := 0, 0, 0;
    }

    /** The first half of `kernel_m7_execute_lifecycle`. */
    method StartPlan(allowed: bool, stopping: bool) returns (started: bool)
      requires Resting(State())
      modifies this
      ensures State() == Start(old(State()), allowed, stopping) && Resting(State())
      ensures started == (allowed && !old(slot) && !old(active) && !old(plan))
    {
      if !allowed || slot || active || plan {
        return false;
      }
      slot, discard, plan, draining, rootSeen, transactions := true, stopping, true, false, false, 0;
      return true;
    }

    /** Its second half. */
    method FinishPlan()
      requires Resting(State())
      modifies this
      ensures State() == Finish(old(State())) && Resting(State())
    {
      slot, discard, plan, draining := false, false, false, false;
    }

    /** The choice of the event, and whose it is. */
    method SelectEvent(waiting: bool) returns (source: Source)
      requires Resting(State())
      modifies this
      ensures source == Chosen(old(State()), waiting) && State() == Select(old(State()), waiting)
      ensures During(State(), source == Queue)
    {
      source := if slot then Slot else if waiting then Queue else Outside;
      slot := false;
      active := source == Slot || (draining && source == Queue);
    }

    /** `kernel_m7_transaction_terminal`, up to the management boundary. */
    method TransactionTerminal(committed: bool, queued: nat) returns (outcome: Outcome)
      requires Sound(State())
      modifies this
      ensures (State(), outcome) == Terminal(old(State()), committed, queued) && Resting(State())
    {
      if !active {
        return GoOn;
      }
      if !committed {
        active, plan, draining := false, false, false;
        return Failed;
      }
      active := false;
      transactions := transactions + 1;
      if !rootSeen {
        rootSeen, discard := true, false;
        rootCommits := rootCommits + 1;
      } else {
        destinationCommits := destinationCommits + 1;
      }
      if transactions >= MAX_TRANSACTIONS && queued != 0 {
        plan, draining := false, false;
        return Failed;
      }
      if queued == 0 {
        plan, draining := false, false;
        return Committed;
      }
      draining := true;
      return GoOn;
    }
  }
}
