/** The management decision as a Nock program: src/m7_supervisor.c builds it with a few
    combinators, and the evaluator runs it on [mode pending command object]. */
module Manager {
  import opened Nouns
  import opened Nock

  const RDY: nat := 0
  const UNSUPPORTED_CMD: nat := 5
  const UNSUPPORTED_TYPE: nat := 6
  const NO_SUCH_OBJECT: nat := 7
  const INVALID_OBJECT: nat := 8
  const INVALID_OPERATION: nat := 9
  const INVALID_STATE: nat := 10
  const OVERFLOW: nat := 11

  const IDLE: nat := 0
  const RUNNING: nat := 1
  const STOPPING: nat := 2
  const STOPPED: nat := 3

  const START: nat := 2
  const STOP: nat := 3
  const QUERY: nat := 7

  /** The cords the program is built over. */
  datatype Names = Names(tag: seq<Noun>, table8: seq<Noun>, cold: Noun, warm: Noun, stop: Noun)

  predicate NamesOk(names: Names) {
    |names.tag| == 8 && |names.table8| == 18
  }

  // ----- The decision table -----

  datatype Verdict = Verdict(status: nat, mode: Noun, reason: Noun)

  /** An object is a cell whose tail is an atom other than 0. */
  predicate WellShaped(obj: Noun) {
    obj.Cell? && obj.tail.Atom? && obj.tail.v != 0
  }

  predicate KnownTag(names: Names, tag: Noun) {
    tag in names.tag || tag in names.table8
  }

  predicate Queried(names: Names, tag: Noun)
    requires NamesOk(names)
  {
    tag in names.tag[3..]
  }

  predicate Managed(names: Names, tag: Noun)
    requires NamesOk(names)
  {
    tag in names.tag[..3]
  }

  predicate Allowed(names: Names, command: nat, tag: Noun)
    requires NamesOk(names)
  {
    (command == QUERY && Queried(names, tag)) || ((command == START || command == STOP) && Managed(names, tag))
  }

  predicate Startable(mode: Noun) {
    mode == Atom(IDLE) || mode == Atom(STOPPED)
  }

  /** The mode a command leads to, and why, in a mode where it makes sense. */
  function Transition(names: Names, mode: Noun, command: nat): Option<(Noun, Noun)> {
    if command == QUERY then Some((mode, Atom(0)))
    else if command == START && Startable(mode) then
      Some((Atom(RUNNING), if mode == Atom(IDLE) then names.cold else names.warm))
    else if command == STOP && mode == Atom(RUNNING) then Some((Atom(STOPPED), names.stop))
    else None
  }

  /** The first check that fails decides; a request that passes them all is carried out. */
  function Decide(names: Names, mode: Noun, pending: Noun, command: Noun, obj: Noun): Verdict
    requires NamesOk(names)
  {
    if pending == Atom(1) then Refuse(OVERFLOW, mode)
    else if !(command.Atom? && command.v <= 8) then Refuse(UNSUPPORTED_CMD, mode)
    else if !WellShaped(obj) then Refuse(INVALID_OBJECT, mode)
    else if !KnownTag(names, obj.head) then Refuse(UNSUPPORTED_TYPE, mode)
    else if obj.tail != Atom(1) then Refuse(NO_SUCH_OBJECT, mode)
    else if !Allowed(names, command.v, obj.head) then Refuse(INVALID_OPERATION, mode)
    else
      var to := Transition(names, mode, command.v);
      if to.None? then Refuse(INVALID_STATE, mode) else Verdict(RDY, to.value.0, to.value.1)
  }

  function Refuse(status: nat, mode: Noun): Verdict {
    Verdict(status, mode, Atom(0))
  }

  function AsNoun(v: Verdict): Noun {
    Cell(Atom(v.status), Cell(v.mode, v.reason))
  }

  function Subject(mode: Noun, pending: Noun, command: Noun, obj: Noun): Noun {
    Cell(mode, Cell(pending, Cell(command, obj)))
  }

  // ----- The combinators -----

  function Lit(value: Noun): Noun {
    Cell(Atom(1), value)
  }

  function At(axis: nat): Noun {
    Cell(Atom(0), Atom(axis))
  }

  function Binary(op: nat, a: Noun, b: Noun): Noun {
    Cell(Atom(op), Cell(a, b))
  }

  function Head(f: Noun): Noun {
    Binary(7, f, At(2))
  }

  function Tail(f: Noun): Noun {
    Binary(7, f, At(3))
  }

  function Eq(a: Noun, b: Noun): Noun {
    Binary(5, a, b)
  }

  function Wut(a: Noun): Noun {
    Cell(Atom(3), a)
  }

  function Iff(test: Noun, yes: Noun, no: Noun): Noun {
    Cell(Atom(6), Cell(test, Cell(yes, no)))
  }

  /** Whether the value is one of these, as nested comparisons. */
  function AnyEq(value: Noun, values: seq<Noun>): Noun {
    if values == [] then Lit(NO) else Iff(Eq(value, Lit(values[0])), Lit(YES), AnyEq(value, values[1..]))
  }

  function Result(status: nat, mode: Noun, reason: Noun): Noun {
    Cell(Lit(Atom(status)), Cell(mode, reason))
  }

  /** `f_any_eq`: the nest is built from its innermost comparison out. */
  method BuildAnyEq(value: Noun, values: seq<Noun>) returns (out: Noun)
    ensures out == AnyEq(value, values)
  {
    out := Lit(NO);
    var count := |values|;
    while count != 0
      invariant 0 <= count <= |values| && out == AnyEq(value, values[count..])
    {
      count := count - 1;
      assert values[count..][1..] == values[count + 1..];
      out := Iff(Eq(value, Lit(values[count])), Lit(YES), out);
    }
    assert values[0..] == values;
  }

  // ----- What each combinator answers -----

  function YesNo(b: bool): Noun {
    if b then YES else NO
  }

  lemma LitAnswers(s: Noun, v: Noun)
    ensures Returns(s, Lit(v), v)
  {
    Answered(s, Lit(v), [], v);
  }

  lemma AtAnswers(s: Noun, axis: nat, v: Noun)
    requires axis < DIRECT_LIMIT && Slot(axis, s) == Some(v)
    ensures Returns(s, At(axis), v)
  {
    Answered(s, At(axis), [], v);
  }

  lemma EqAnswers(s: Noun, f: Noun, g: Noun, x: Noun, y: Noun)
    requires Returns(s, f, x) && Returns(s, g, y)
    ensures Returns(s, Eq(f, g), YesNo(x == y))
  {
    hide Returns;
    Answered(s, Eq(f, g), [x, y], YesNo(x == y));
  }

  lemma EqLitAnswers(s: Noun, f: Noun, x: Noun, v: Noun)
    requires Returns(s, f, x)
    ensures Returns(s, Eq(f, Lit(v)), YesNo(x == v))
  {
    hide Returns;
    LitAnswers(s, v);
    EqAnswers(s, f, Lit(v), x, v);
  }

  lemma WutAnswers(s: Noun, f: Noun, x: Noun)
    requires Returns(s, f, x)
    ensures Returns(s, Wut(f), YesNo(x.Cell?))
  {
    hide Returns;
    Answered(s, Wut(f), [x], YesNo(x.Cell?));
  }

  lemma IffAnswers(s: Noun, test: Noun, yes: Noun, no: Noun, b: bool, r: Noun)
    requires Returns(s, test, YesNo(b)) && Returns(s, if b then yes else no, r)
    ensures Returns(s, Iff(test, yes, no), r)
  {
    hide Returns;
    Jumped(s, Iff(test, yes, no), [YesNo(b)], r);
  }

  lemma HeadAnswers(s: Noun, f: Noun, c: Noun)
    requires Returns(s, f, c) && c.Cell?
    ensures Returns(s, Head(f), c.head)
  {
    SlotSide(2, c);
    AtAnswers(c, 2, c.head);
    hide Returns;
    Jumped(s, Head(f), [c], c.head);
  }

  lemma TailAnswers(s: Noun, f: Noun, c: Noun)
    requires Returns(s, f, c) && c.Cell?
    ensures Returns(s, Tail(f), c.tail)
  {
    SlotSide(3, c);
    AtAnswers(c, 3, c.tail);
    hide Returns;
    Jumped(s, Tail(f), [c], c.tail);
  }

  lemma PairAnswers(s: Noun, f: Noun, g: Noun, x: Noun, y: Noun)
    requires f.Cell? && Returns(s, f, x) && Returns(s, g, y)
    ensures Returns(s, Cell(f, g), Cell(x, y))
  {
    hide Returns;
    Answered(s, Cell(f, g), [x, y], Cell(x, y));
  }

  lemma ResultAnswers(s: Noun, status: nat, mode: Noun, reason: Noun, m: Noun, r: Noun)
    requires mode.Cell? && Returns(s, mode, m) && Returns(s, reason, r)
    ensures Returns(s, Result(status, mode, reason), AsNoun(Verdict(status, m, r)))
  {
    hide Returns;
    LitAnswers(s, Atom(status));
    PairAnswers(s, mode, reason, m, r);
    PairAnswers(s, Lit(Atom(status)), Cell(mode, reason), Atom(status), Cell(m, r));
  }

  lemma {:induction false} AnyEqAnswers(s: Noun, f: Noun, x: Noun, values: seq<Noun>)
    requires Returns(s, f, x)
    ensures Returns(s, AnyEq(f, values), YesNo(x in values))
    decreases |values|
  {
    hide Returns;
    if values == [] {
      LitAnswers(s, NO);
    } else {
      var (test, rest) := (Eq(f, Lit(values[0])), AnyEq(f, values[1..]));
      EqLitAnswers(s, f, x, values[0]);
      LitAnswers(s, YES);
      AnyEqAnswers(s, f, x, values[1..]);
      assert x in values <==> x == values[0] || x in values[1..];
      IffAnswers(s, test, Lit(YES), rest, x == values[0], YesNo(x in values));
    }
  }

  // ----- The parts of the program -----

  function Mode(): Noun { At(2) }

  function Pending(): Noun { Head(At(3)) }

  function Request(): Noun { Tail(At(3)) }

  function Command(): Noun { Head(Request()) }

  function Object(): Noun { Tail(Request()) }

  function Tag(): Noun { Head(Object()) }

  function Id(): Noun { Tail(Object()) }

  function CommandIs(command: nat): Noun {
    Eq(Command(), Lit(Atom(command)))
  }

  function Commands(): seq<Noun> {
    [Atom(0), Atom(1), Atom(2), Atom(3), Atom(4), Atom(5), Atom(6), Atom(7), Atom(8)]
  }

  function ValidId(): Noun {
    Iff(Wut(Id()), Lit(NO), Iff(Eq(Id(), Lit(Atom(0))), Lit(NO), Lit(YES)))
  }

  function ShapeTest(): Noun {
    Iff(Wut(Object()), ValidId(), Lit(NO))
  }

  function KindTest(names: Names): Noun {
    Iff(AnyEq(Tag(), names.tag + names.table8), Lit(YES), Lit(NO))
  }

  function ExistsTest(): Noun {
    Iff(Eq(Id(), Lit(Atom(1))), Lit(YES), Lit(NO))
  }

  function OperationTest(names: Names): Noun
    requires NamesOk(names)
  {
    Iff(CommandIs(QUERY), AnyEq(Tag(), names.tag[3..]),
        Iff(AnyEq(Command(), [Atom(START), Atom(STOP)]), AnyEq(Tag(), names.tag[..3]), Lit(NO)))
  }

  function StateTest(): Noun {
    Iff(CommandIs(START), AnyEq(Mode(), [Atom(IDLE), Atom(STOPPED)]),
        Iff(CommandIs(STOP), Eq(Mode(), Lit(Atom(RUNNING))), Lit(YES)))
  }

  function NextMode(): Noun {
    Iff(CommandIs(START), Lit(Atom(RUNNING)), Lit(Atom(STOPPED)))
  }

  function Reason(names: Names): Noun {
    Iff(CommandIs(START), Iff(Eq(Mode(), Lit(Atom(IDLE))), Lit(names.cold), Lit(names.warm)),
        Iff(CommandIs(STOP), Lit(names.stop), Lit(Atom(0))))
  }

  function Refusal(status: nat): Noun {
    Result(status, Mode(), Lit(Atom(0)))
  }

  function StateResult(names: Names): Noun {
    Iff(StateTest(), Result(RDY, NextMode(), Reason(names)), Refusal(INVALID_STATE))
  }

  function OperationResult(names: Names): Noun {
    Iff(CommandIs(QUERY), Refusal(RDY), StateResult(names))
  }

  function CommandResult(names: Names): Noun
    requires NamesOk(names)
  {
    Iff(ShapeTest(),
        Iff(KindTest(names),
            Iff(ExistsTest(), Iff(OperationTest(names), OperationResult(names), Refusal(INVALID_OPERATION)),
                Refusal(NO_SUCH_OBJECT)),
            Refusal(UNSUPPORTED_TYPE)),
        Refusal(INVALID_OBJECT))
  }

  /** `manager_formula`. */
  function Program(names: Names): Noun
    requires NamesOk(names)
  {
    Iff(Eq(Pending(), Lit(Atom(1))), Refusal(OVERFLOW),
        Iff(AnyEq(Command(), Commands()), CommandResult(names), Refusal(UNSUPPORTED_CMD)))
  }

  // ----- What each part answers -----

  lemma Reads(mode: Noun, pending: Noun, command: Noun, obj: Noun)
    ensures var s := Subject(mode, pending, command, obj);
            Returns(s, Mode(), mode) && Returns(s, Pending(), pending) && Returns(s, Command(), command) && Returns(s, Object(), obj)
  {
    var s := Subject(mode, pending, command, obj);
    SlotSide(2, s);
    SlotSide(3, s);
    AtAnswers(s, 2, mode);
    AtAnswers(s, 3, s.tail);
    hide Returns, Slot;
    HeadAnswers(s, At(3), s.tail);
    TailAnswers(s, At(3), s.tail);
    HeadAnswers(s, Request(), s.tail.tail);
    TailAnswers(s, Request(), s.tail.tail);
  }

  /** The subject, as far as the parts of the program see it. */
  ghost predicate Sees(s: Noun, mode: Noun, command: Noun, obj: Noun) {
    && Returns(s, Mode(), mode) && Returns(s, Command(), command) && Returns(s, Object(), obj)
    && (obj.Cell? ==> Returns(s, Tag(), obj.head) && Returns(s, Id(), obj.tail))
  }

  lemma SeesObject(mode: Noun, pending: Noun, command: Noun, obj: Noun)
    ensures Sees(Subject(mode, pending, command, obj), mode, command, obj)
  {
    hide Returns, Subject;
    var s := Subject(mode, pending, command, obj);
    Reads(mode, pending, command, obj);
    if obj.Cell? {
      HeadAnswers(s, Object(), obj);
      TailAnswers(s, Object(), obj);
    }
  }

  lemma CommandIsAnswers(s: Noun, mode: Noun, command: Noun, obj: Noun, c: nat)
    requires Sees(s, mode, command, obj)
    ensures Returns(s, CommandIs(c), YesNo(command == Atom(c)))
  {
    hide Returns;
    EqLitAnswers(s, Command(), command, Atom(c));
  }

  lemma ShapeAnswers(s: Noun, mode: Noun, command: Noun, obj: Noun)
    requires Sees(s, mode, command, obj)
    ensures Returns(s, ShapeTest(), YesNo(WellShaped(obj)))
  {
    hide Returns, Tag, Id, Object;
    LitAnswers(s, YES);
    LitAnswers(s, NO);
    WutAnswers(s, Object(), obj);
    if obj.Cell? {
      var id := obj.tail;
      WutAnswers(s, Id(), id);
      EqLitAnswers(s, Id(), id, Atom(0));
      var zero := Eq(Id(), Lit(Atom(0)));
      IffAnswers(s, zero, Lit(NO), Lit(YES), id == Atom(0), YesNo(id != Atom(0)));
      IffAnswers(s, Wut(Id()), Lit(NO), Iff(zero, Lit(NO), Lit(YES)), id.Cell?, YesNo(WellShaped(obj)));
    }
    IffAnswers(s, Wut(Object()), ValidId(), Lit(NO), obj.Cell?, YesNo(WellShaped(obj)));
  }

  /** Turning an answer into itself, as two of the checks do. */
  lemma SameAnswers(s: Noun, f: Noun, b: bool)
    requires Returns(s, f, YesNo(b))
    ensures Returns(s, Iff(f, Lit(YES), Lit(NO)), YesNo(b))
  {
    hide Returns;
    LitAnswers(s, YES);
    LitAnswers(s, NO);
    IffAnswers(s, f, Lit(YES), Lit(NO), b, YesNo(b));
  }

  lemma KindAnswers(s: Noun, mode: Noun, command: Noun, obj: Noun, names: Names)
    requires Sees(s, mode, command, obj) && obj.Cell?
    ensures Returns(s, KindTest(names), YesNo(KnownTag(names, obj.head)))
    ensures Returns(s, ExistsTest(), YesNo(obj.tail == Atom(1)))
  {
    hide Returns, Tag, Id, AnyEq;
    AnyEqAnswers(s, Tag(), obj.head, names.tag + names.table8);
    SameAnswers(s, AnyEq(Tag(), names.tag + names.table8), KnownTag(names, obj.head));
    EqLitAnswers(s, Id(), obj.tail, Atom(1));
    SameAnswers(s, Eq(Id(), Lit(Atom(1))), obj.tail == Atom(1));
  }

  lemma OperationAnswers(s: Noun, mode: Noun, command: Noun, obj: Noun, names: Names)
    requires Sees(s, mode, command, obj) && obj.Cell? && command.Atom? && NamesOk(names)
    ensures Returns(s, OperationTest(names), YesNo(Allowed(names, command.v, obj.head)))
  {
    hide Returns, Tag, AnyEq, CommandIs, Command;
    var tag := obj.head;
    CommandIsAnswers(s, mode, command, obj, QUERY);
    AnyEqAnswers(s, Command(), command, [Atom(START), Atom(STOP)]);
    AnyEqAnswers(s, Tag(), tag, names.tag[3..]);
    AnyEqAnswers(s, Tag(), tag, names.tag[..3]);
    LitAnswers(s, NO);
    var moves := command in [Atom(START), Atom(STOP)];
    assert moves <==> command.v == START || command.v == STOP;
    var last := Iff(AnyEq(Command(), [Atom(START), Atom(STOP)]), AnyEq(Tag(), names.tag[..3]), Lit(NO));
    IffAnswers(s, AnyEq(Command(), [Atom(START), Atom(STOP)]), AnyEq(Tag(), names.tag[..3]), Lit(NO),
               moves, YesNo(moves && Managed(names, tag)));
    IffAnswers(s, CommandIs(QUERY), AnyEq(Tag(), names.tag[3..]), last, command == Atom(QUERY),
               YesNo(Allowed(names, command.v, tag)));
  }

  lemma StateTestAnswers(s: Noun, mode: Noun, command: Noun, obj: Noun, names: Names)
    requires Sees(s, mode, command, obj) && (command == Atom(START) || command == Atom(STOP))
    ensures Returns(s, StateTest(), YesNo(Transition(names, mode, command.v).Some?))
  {
    hide Returns, AnyEq, CommandIs, Command, Mode;
    CommandIsAnswers(s, mode, command, obj, START);
    CommandIsAnswers(s, mode, command, obj, STOP);
    AnyEqAnswers(s, Mode(), mode, [Atom(IDLE), Atom(STOPPED)]);
    EqLitAnswers(s, Mode(), mode, Atom(RUNNING));
    assert mode in [Atom(IDLE), Atom(STOPPED)] <==> Startable(mode);
    var (start, stop) := (AnyEq(Mode(), [Atom(IDLE), Atom(STOPPED)]), Eq(Mode(), Lit(Atom(RUNNING))));
    var answer := YesNo(Transition(names, mode, command.v).Some?);
    if command == Atom(STOP) {
      IffAnswers(s, CommandIs(STOP), stop, Lit(YES), true, answer);
    }
    IffAnswers(s, CommandIs(START), start, Iff(CommandIs(STOP), stop, Lit(YES)), command == Atom(START), answer);
  }

  lemma NextModeAnswers(s: Noun, mode: Noun, command: Noun, obj: Noun, names: Names)
    requires Sees(s, mode, command, obj) && (command == Atom(START) || command == Atom(STOP))
    requires Transition(names, mode, command.v).Some?
    ensures Returns(s, NextMode(), Transition(names, mode, command.v).value.0)
    ensures Returns(s, Reason(names), Transition(names, mode, command.v).value.1)
  {
    hide Returns, CommandIs, Command, Mode;
    var to := Transition(names, mode, command.v).value;
    CommandIsAnswers(s, mode, command, obj, START);
    CommandIsAnswers(s, mode, command, obj, STOP);
    LitAnswers(s, Atom(RUNNING));
    LitAnswers(s, Atom(STOPPED));
    IffAnswers(s, CommandIs(START), Lit(Atom(RUNNING)), Lit(Atom(STOPPED)), command == Atom(START), to.0);
    EqLitAnswers(s, Mode(), mode, Atom(IDLE));
    LitAnswers(s, names.cold);
    LitAnswers(s, names.warm);
    LitAnswers(s, names.stop);
    var start := Iff(Eq(Mode(), Lit(Atom(IDLE))), Lit(names.cold), Lit(names.warm));
    var stop := Iff(CommandIs(STOP), Lit(names.stop), Lit(Atom(0)));
    if command == Atom(START) {
      IffAnswers(s, Eq(Mode(), Lit(Atom(IDLE))), Lit(names.cold), Lit(names.warm), mode == Atom(IDLE), to.1);
    } else {
      IffAnswers(s, CommandIs(STOP), Lit(names.stop), Lit(Atom(0)), true, to.1);
    }
    IffAnswers(s, CommandIs(START), start, stop, command == Atom(START), to.1);
  }

  lemma RefusalAnswers(s: Noun, mode: Noun, command: Noun, obj: Noun, status: nat)
    requires Sees(s, mode, command, obj)
    ensures Returns(s, Refusal(status), AsNoun(Refuse(status, mode)))
  {
    hide Returns;
    LitAnswers(s, Atom(0));
    ResultAnswers(s, status, Mode(), Lit(Atom(0)), mode, Atom(0));
  }

  lemma OperationResultAnswers(s: Noun, mode: Noun, command: Noun, obj: Noun, names: Names)
    requires Sees(s, mode, command, obj) && NamesOk(names)
    requires command == Atom(QUERY) || command == Atom(START) || command == Atom(STOP)
    ensures var to := Transition(names, mode, command.v);
            var v := if to.None? then Refuse(INVALID_STATE, mode) else Verdict(RDY, to.value.0, to.value.1);
            Returns(s, OperationResult(names), AsNoun(v))
  {
    hide Returns, CommandIs, Command, StateTest, NextMode, Reason, Refusal, Sees;
    var to := Transition(names, mode, command.v);
    var v := if to.None? then Refuse(INVALID_STATE, mode) else Verdict(RDY, to.value.0, to.value.1);
    CommandIsAnswers(s, mode, command, obj, QUERY);
    RefusalAnswers(s, mode, command, obj, RDY);
    if command != Atom(QUERY) {
      StateTestAnswers(s, mode, command, obj, names);
      RefusalAnswers(s, mode, command, obj, INVALID_STATE);
      if to.Some? {
        NextModeAnswers(s, mode, command, obj, names);
        NextModeIsCell();
        ResultAnswers(s, RDY, NextMode(), Reason(names), to.value.0, to.value.1);
      }
      IffAnswers(s, StateTest(), Result(RDY, NextMode(), Reason(names)), Refusal(INVALID_STATE), to.Some?, AsNoun(v));
    }
    IffAnswers(s, CommandIs(QUERY), Refusal(RDY), StateResult(names), command == Atom(QUERY), AsNoun(v));
  }

  lemma NextModeIsCell()
    ensures NextMode().Cell?
  {
  }

  lemma CommandResultAnswers(s: Noun, mode: Noun, command: Noun, obj: Noun, names: Names)
    requires Sees(s, mode, command, obj) && NamesOk(names) && command.Atom? && command.v <= 8
    ensures Returns(s, CommandResult(names), AsNoun(Decide(names, mode, Atom(0), command, obj)))
  {
    hide Returns, Sees, ShapeTest, KindTest, ExistsTest, OperationTest, OperationResult, Refusal, Transition, KnownTag, Allowed, AsNoun;
    var r := AsNoun(Decide(names, mode, Atom(0), command, obj));
    var (op, ex) := (Iff(OperationTest(names), OperationResult(names), Refusal(INVALID_OPERATION)), Refusal(NO_SUCH_OBJECT));
    ShapeAnswers(s, mode, command, obj);
    RefusalAnswers(s, mode, command, obj, INVALID_OBJECT);
    if WellShaped(obj) {
      KindAnswers(s, mode, command, obj, names);
      RefusalAnswers(s, mode, command, obj, UNSUPPORTED_TYPE);
      if KnownTag(names, obj.head) {
        RefusalAnswers(s, mode, command, obj, NO_SUCH_OBJECT);
        if obj.tail == Atom(1) {
          OperationAnswers(s, mode, command, obj, names);
          RefusalAnswers(s, mode, command, obj, INVALID_OPERATION);
          if Allowed(names, command.v, obj.head) {
            AllowedCommands(names, command.v, obj.head);
            OperationResultAnswers(s, mode, command, obj, names);
          }
          IffAnswers(s, OperationTest(names), OperationResult(names), Refusal(INVALID_OPERATION),
                     Allowed(names, command.v, obj.head), r);
        }
        IffAnswers(s, ExistsTest(), op, ex, obj.tail == Atom(1), r);
      }
      IffAnswers(s, KindTest(names), Iff(ExistsTest(), op, ex), Refusal(UNSUPPORTED_TYPE), KnownTag(names, obj.head), r);
    }
    IffAnswers(s, ShapeTest(), Iff(KindTest(names), Iff(ExistsTest(), op, ex), Refusal(UNSUPPORTED_TYPE)),
               Refusal(INVALID_OBJECT), WellShaped(obj), r);
  }

  lemma AllowedCommands(names: Names, command: nat, tag: Noun)
    requires NamesOk(names) && Allowed(names, command, tag)
    ensures command == QUERY || command == START || command == STOP
  {
  }

  /** The program never crashes: on every mode, mailbox flag, command and object, whatever nouns
      they are, it answers the decision table. */
  lemma ProgramDecides(names: Names, mode: Noun, pending: Noun, command: Noun, obj: Noun)
    requires NamesOk(names)
    ensures Returns(Subject(mode, pending, command, obj), Program(names), AsNoun(Decide(names, mode, pending, command, obj)))
  {
    var s := Subject(mode, pending, command, obj);
    Reads(mode, pending, command, obj);
    SeesObject(mode, pending, command, obj);
    hide Returns, Sees, Refusal, CommandResult, AsNoun, Subject, Pending, Command, AnyEq, WellShaped, KnownTag, Allowed, Transition;
    var r := AsNoun(Decide(names, mode, pending, command, obj));
    EqLitAnswers(s, Pending(), pending, Atom(1));
    RefusalAnswers(s, mode, command, obj, OVERFLOW);
    if pending != Atom(1) {
      AnyEqAnswers(s, Command(), command, Commands());
      KnownCommands(command);
      RefusalAnswers(s, mode, command, obj, UNSUPPORTED_CMD);
      if command.Atom? && command.v <= 8 {
        CommandResultAnswers(s, mode, command, obj, names);
      }
      IffAnswers(s, AnyEq(Command(), Commands()), CommandResult(names), Refusal(UNSUPPORTED_CMD),
                 command.Atom? && command.v <= 8, r);
    }
    IffAnswers(s, Eq(Pending(), Lit(Atom(1))), Refusal(OVERFLOW),
               Iff(AnyEq(Command(), Commands()), CommandResult(names), Refusal(UNSUPPORTED_CMD)), pending == Atom(1), r);
  }

  lemma KnownCommands(command: Noun)
    ensures command in Commands() <==> command.Atom? && command.v <= 8
  {
    if command.Atom? && command.v <= 8 {
      assert command == Commands()[command.v];
    }
  }

  /** And it answers nothing else. */
  lemma ProgramAnswersOnce(names: Names, mode: Noun, pending: Noun, command: Noun, obj: Noun, r: Noun)
    requires NamesOk(names)
    ensures Returns(Subject(mode, pending, command, obj), Program(names), r)
       <==> r == AsNoun(Decide(names, mode, pending, command, obj))
  {
    hide Returns, Program, Decide, Subject, AsNoun;
    ProgramDecides(names, mode, pending, command, obj);
    if Returns(Subject(mode, pending, command, obj), Program(names), r) {
      ReturnsOnce(Subject(mode, pending, command, obj), Program(names), r, AsNoun(Decide(names, mode, pending, command, obj)));
    }
  }
}
