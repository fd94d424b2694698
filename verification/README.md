# A model of the Trinitite Nock kernel

The kernel is freestanding C: a Nock 4K evaluator with a subject-knowledge compiler, a persistent
log behind two superblocks, a jam/cue codec with an interning atom store, a copying promotion step
for the live roots, bignum arithmetic, a tree hash, and a small management machine.  This project
models those parts and proves what they are for.  `dafny verify dfyconfig.toml` checks all of it.

Code that is recursion and expressions is modelled by functions and lemmas; code that changes
buffers, counters and tables in loops is modelled by methods and classes over arrays and fields,
each proved equal to a specification function about which the properties are then proved.

| files | source | main results |
|---|---|---|
| Nouns, Nock, NockMachine | src/nock.c | the evaluator is Nock 4K with direct axes; the tick budget is exact |
| Socks, Ska, Nomm1, SkaBack, SkaSound, SkaReuse, SkaMemo, SkaStray, SkaScanner, SkaEngine | src/ska.c | compiled code answers what Nock answers, for every subject, and nothing else unless it strays; where the memo test breaks this |
| Arith, Limbs, Knuth, KnuthExact, KnuthConverse, Bignum, Shifts, Division, Products, Decimal | src/bignum.c | Algorithm D and the exact bound on its digits; product, difference; the decimal round trip |
| Bytes, ColdFormat, ColdChain, ColdValid, ColdWrites, ColdSafety, ColdRuns, ColdSuccess, ColdRead, ColdLog | src/cold.c | crash safety of every run, cut after any byte of any phase; exactly when an operation succeeds |
| ColdMedia | src/cold_media.c | the sector map is a flat window |
| Bits, Jam, JamIdeal, Cue, CueWrap, CueLong, Probe, CueReader, JamWriter | src/jam.c | `cue(jam(n)) == n`; the size check is exact; where a wrapped length is read as 0 |
| BoundedCue, BoundedCueSound, BoundedCueLimits, BoundedCueCounts, BoundedReader | src/bounded_cue.c | acceptance is the plain decode, within every limit by what is really read; refusal restores noun memory |
| AtomStore, NounSpace, NounCopy | src/noun.c | equal words are equal values; rollback of atoms and cells; the copy preserves sharing |
| Blake3, Blake3Machine, Blake3Terms, Blake3Hasher | src/blake3.c | the subtree stack computes the hash tree of the input, as a term |
| EventQueue, Timers, TimerRuns, Lifecycle, Promotion, PromotionKernel | src/kernel.c | a FIFO with its timing ring; timer tokens conserved over every run; promotion all or nothing |
| Manager, Supervisor | src/m7_supervisor.c | the management program decides its table; what every run of requests keeps |
| Ingress, IngressTimes, IngressReceiver | src/i2_ingress.c | a frame in time is received after any garbage, and only such a frame is |

## Where the code and its own text part

The model follows the code.  Each of these is a lemma below.

- `sock_huge` at src/ska.c:670 and 935 is called with the stored subject first, against the comment
  at line 934.  A stored body may then be reused for a subject it does not cover, and the compiled
  code answers differently from Nock (`SkaMemo.Miscompiled`).  With the test turned round every scan
  is sound; as written every scan is that reused no such body (`SkaEngine.ScannedForAll`).  A reuse
  is right, for all formulas, exactly when the stored subject covers the new one (`SkaReuse.ReuseIff`).
- Compiled code can answer where Nock crashes: it does not evaluate a formula whose value the scan
  knows, even if evaluating it crashes (`SkaStray.DroppedFormula`), and it does not check that the
  tag of a dynamic hint is direct (`SkaStray.LooseHint`).  Code without either answers exactly what
  Nock answers (`SkaEngine.WholeIsNock`).
- The retry loop of `ska_nock` (src/ska.c:1306-1355) never retries (`SkaEngine.NeverRetries`).
- The comment at src/bignum.c:412 claims that normalisation keeps `u[j+n] < v[n-1]`; a window can
  reach equality (`Division.TopLimbReached`).  The signed products at src/bignum.c:439 wrap for
  quotient digits from 2^63 on; below that the division is exact, and no larger bound would do
  (`Division.HalfIsTheBound`).
- The bounded decoder takes atoms of up to 32768 limbs, the plain one stops at 16384
  (src/bounded_cue.c, src/jam.c:394-434); on what the first accepts the
  second gives the same noun or crashes, exactly on such a number (`CueLong.PlainOnAccepted`, `CueLong.LongAtom`).
- Decimal text keeps the 512 lowest digits, so exactly the numbers below 10^512 survive the round trip
  (`Decimal.PrintParseExact`).
- A STOP whose event was delivered but whose incarnation could not move on leaves the resource in
  STOPPING (`Supervisor.StoppingReached`).  No request leads out of it (`Supervisor.StoppingIsFinal`);
  a forced stop, a reset or the restore of a snapshot does (`Supervisor.StoppingLeft`).
- Restoring a snapshot taken while the resource ran marks its outputs safe while it runs
  (src/m7_supervisor.c:586-601, `Supervisor.StepHonest`); no other step does.
- A length of 64 bits close to 2^64 in a jam atom wraps the limb count of `do_rub` to 0
  (src/jam.c:411-421): exactly from 2^64 - 63 on the plain decoder reads 0 where the format has no
  such number (`CueWrap.WrapIff`, `CueWrap.WrapMatters`), and an atom of 129 bits reaches it
  (`CueWrap.WrapReached`).
- A division can come out exact although one of its steps is wrong, because a later one makes up for
  it (`KnuthConverse.ExactWithWrongSteps`).

## Model

| member | source | states |
|---|---|---|
| Nouns.SlotPeg | src/nock.c:442-452 | Walking a composed axis is walking its parts: `axis_peg` composes axes. |
| Nouns.PegCapMas | src/nock.c:417-452 | Every axis past the root is its side composed (`axis_peg`) with the axis within that side (`axis_mas`). |
| Nouns.EditPeg | src/nock.c:590-615 | The bottom-up `#` rules agree with an edit that walks down from the root, at every axis. |
| Nouns.SlotOfEdit | src/nock.c:590-656 | `slot` reads back what `hax` wrote. |
| Nouns.SlotOfEditElsewhere | src/nock.c:590-656 | An edit leaves every axis apart from the edited one as it was. |
| NockMachine.SlotWalk | src/nock.c:632-656 | The loop over the path bits, most significant first, finds exactly `/[a n]`, and fails on axis 0 and on a leaf met too early. |
| NockMachine.HaxIsEdit | src/nock.c:590-615 | The top-down recursion of `hax` is the `#` of the rules, failures included. |
| Nock.ReduceMonotone | src/nock.c:689-950 | An answer of the reduction rules does not depend on the depth or the axis bound it was computed with. |
| Nock.IfMacro | src/nock.c:793-811 | Opcode 6 as the macro of the rules takes a branch on 0 or 1 and is stuck on anything else. |
| Nock.InvokeMacro | src/nock.c:759-790 | Opcode 9 as the macro of the rules runs the arm of the core with the core as subject. |
| Nock.EvalIsNock4K | src/nock.c:689-950 | `nock_eval` answers `r` if and only if the Nock 4K reductions, with direct axes, give `r`; for opcodes 0 to 11, every subject and formula. |
| Nock.BudgetExact | src/nock.c:76-89 | An evaluation that ends (answer or crash) with `n` ticks ends the same way with any budget that covers the ticks it used and aborts with any smaller one. |
| Nock.ReturnsOnce | src/nock.c:689-950 | Evaluation is deterministic: two answers of one formula on one subject are equal, whatever the budgets. |
| Nock.Cost | src/nock.c:76-89 | Every answer has one cost in ticks, good for every budget. |
| NockMachine.Machine.BudgetTick | src/nock.c:76-89 | Counts one operation and aborts exactly at the limit; limit 0 never aborts. |
| NockMachine.Machine.BudgetSet | src/nock.c:31-45 | Sets the limit of operations and starts the count again. |
| NockMachine.Machine.NockEval | src/nock.c:689-950 | The loop with its nested calls ends as the specification says: same answer, crash or abort, and the counter has grown by exactly the ticks used. |
| NockMachine.Machine.EvalOperands | src/nock.c:689-950 | The nested evaluations of an opcode run in order, up to the first that does not answer. |
| NockMachine.Machine.Pass | src/nock.c:689-757 | One turn of the loop ticks, takes the formula apart and does what the instruction says. |
| NockMachine.Machine.PassArgs | src/nock.c:723-950 | The same for the opcodes whose argument is a cell. |
| Socks.CapePullWalk | src/ska.c:374-393 | The walk over path bits computes the sub-cape, spreading a known or unknown cape downwards. |
| Socks.PullSound | src/ska.c:427-452 | If a sock stands for a noun, the sock pulled at an axis stands for the noun's part there. |
| Socks.KnitSound | src/ska.c:488-493 | The sock of a pair stands for the pair of what its halves stand for. |
| Socks.PurrSound | src/ska.c:500-514 | What either of two socks stands for, their common part stands for. |
| Socks.HugeSound | src/ska.c:459-482 | `sock_huge(a, b)`: whatever `a` stands for, `b` stands for. |
| Socks.DarnSound | src/ska.c:521-537 | The edited sock stands for the edited noun (`hax`), whenever the edit answers. |
| Socks.PullTight | src/ska.c:423-440 | A pulled sock stands for nothing that cannot be there: each noun is the part of one the whole sock stands for. |
| Socks.PurrSelf | src/ska.c:500-514 | Two like socks have in common exactly what either stands for. |
| Ska.Scan | src/ska.c:569-1092 | Every part of a scan only uses up arena, leaves the block list alone, records only loop assumptions that hold and, with the memo test turned round, is never misled by a memo. |
| SkaSound.ScanSound | src/ska.c:569-1092 | Every tree a scan builds is good for every subject its sock covers: its product covers whatever Nock answers, its cooked code answers whatever Nock answers, and whatever the code answers Nock answers too unless the code strays; provided no memo was reused for a subject its own does not cover. |
| SkaSound.SlotGood | src/ska.c:595-601 | Opcode 0: the node and its product are good; where the slot fails the code answers nothing. |
| SkaSound.DistGood | src/ska.c:574-594 | A cell formula: the node and its product are good. |
| SkaSound.IfGood | src/ska.c:786-820 | Opcode 6: the branches' common product covers both outcomes, and a known condition picks one. |
| SkaSound.HaxGood | src/ska.c:986-1019 | Opcode 10: the node and its darned product are good. |
| SkaSound.DirectGood | src/ska.c:642-741 | Opcode 2 with a known formula: the call may skip evaluating it. |
| SkaSound.InlineGood | src/ska.c:646-666 | Opcode 2 with a known slot or quote, compiled as a composition, answers what Nock answers. |
| SkaSound.KnownArmGood | src/ska.c:894-985 | Opcode 9 with a known arm: the run looks the arm up again and finds the resolved one. |
| SkaBack.LeafReflects | src/ska.c:1566-1581 | Cooked opcodes 0 and 1 answer only what Nock answers. |
| SkaBack.PairReflects | src/ska.c:1583-1660 | Cooked cell formulas, opcode 5 and opcode 10 answer only what Nock answers, if their operands do. |
| SkaBack.IfReflects | src/ska.c:1602-1610 | Cooked opcode 6 answers only what Nock answers, if the condition and the branch taken do. |
| SkaBack.ChainReflects | src/ska.c:1612-1621 | Cooked opcodes 7 and 8 answer only what Nock answers, the second formula on what the first answered. |
| SkaBack.DirectReflects | src/ska.c:642-741 | A call whose formula the scan knows answers only what Nock answers, if Nock can evaluate the formula that was dropped. |
| SkaBack.InlineReflects | src/ska.c:646-666 | The same of a known slot or quote compiled as a composition. |
| SkaBack.ArmReflects | src/ska.c:1650-1655 | Cooked opcode 9 answers only what Nock answers, on a direct axis. |
| SkaBack.ClueReflects | src/ska.c:1661-1689 | A cooked dynamic hint answers only what Nock answers, if its tag is direct. |
| SkaBack.WholeNeverStrays | src/ska.c:1566-1715 | Code that drops no formula, and has no axis of opcode 9 and no hint tag that is not direct, strays nowhere. |
| SkaEngine.WholeIsNock | src/ska.c:1566-1715 | Such code answers exactly what Nock answers, on every subject. |
| SkaStray.DroppedFormula | src/ska.c:642-666 | A formula on which Nock crashes and the compiled code answers, because the scan knew the value of a formula that crashes and dropped it. |
| SkaStray.LooseHint | src/ska.c:1661-1689 | A dynamic hint whose tag is a cell: Nock crashes, the compiled code answers. |
| SkaEngine.ScannedForAll | src/ska.c:569-1092 | Code compiled with one subject is right for every subject, in both directions, so caching by formula is sound; with the memo test turned round for every scan, as written for every scan that no memo misled. |
| SkaReuse.ReuseIff | src/ska.c:668-682 | Reusing what was scanned under a stored subject is right, whatever the formula, exactly when the stored subject stands for every noun the new one stands for; otherwise it is wrong for `[0 1]`. |
| SkaReuse.TurnedTestRight | src/ska.c:932-950 | The test turned round, as the comment at line 934 means it, lets only right reuses through. |
| SkaReuse.WrittenTestRight | src/ska.c:668-682 | A reuse that the test as written lets through is right exactly when both subjects stand for the same nouns. |
| SkaEngine.NeverRetries | src/ska.c:1306-1355 | No recorded loop assumption ever fails its check: the retry loop of `ska_nock` runs once. |
| SkaMemo.Miscompiled | src/ska.c:667-683 | The memo test as written is unsound: a concrete formula and subject on which Nock answers `[[1 7] 9]` and the compiled code `[[1 7] 7]`. |
| SkaMemo.ScanProgram | src/ska.c:569-1092 | The whole scan of that formula from the empty state: it is misled and cooks to the wrong code. |
| SkaScanner.Scanner.ScanFormula | src/ska.c:569-1092 | The scanner with its global frame stack, memo table, site counter and bump arena computes the specification's tree and final state. |
| SkaScanner.Scanner.SearchMemo | src/ska.c:667-683 | The memo loop finds the first entry that passes the test as written. |
| SkaScanner.Scanner.SearchLoop | src/ska.c:684-704 | The frame loop finds the innermost unblocked frame of the formula whose subject knows at least as much. |
| SkaScanner.Scanner.ScanFresh | src/ska.c:705-741 | A fresh scan pushes a frame (dropped when full), scans, pops, and remembers the body. |
| Nomm1s.RunBudgetExact | src/ska.c:1566-1715 | The tick budget is exact for cooked code too. |
| Nomm1s.RunReturnsOnce | src/ska.c:1566-1715 | Cooked code is deterministic. |
| Nomm1s.CookFits | src/ska.c:1375-1554 | Cooking gives the whole tree exactly when the arena holds all its nodes, and says what is left of it. |
| SkaEngine.CopyFits | src/ska.c:84-133 | The cache copy is the tree exactly when the cache arena holds it. |
| SkaEngine.RunFaithful | src/ska.c:1566-1715 | With a tick limit compiled code gives Nock's answer or aborts, never another answer; and where Nock has no answer it has none, unless it strays. |
| SkaEngine.Engine.Lookup | src/ska.c:142-151 | The probe loop finds exactly the cached code of the formula word, up to the first empty slot. |
| SkaEngine.Engine.Insert | src/ska.c:163-176 | The entry goes to the first empty slot of its probe, or is dropped when the cache is full; every entry stays right for its formula. |
| SkaEngine.InsertedIsCached | src/ska.c:142-176 | An insertion after a miss is found again, and hides nothing that was found before. |
| SkaEngine.Engine.SkaNock | src/ska.c:1306-1355 | Over any sequence of calls, from the cache or compiled afresh or evaluated plainly, the answer is Nock's, and there is one only where Nock has one or the code strays, as long as no arena gave out, no memo misled a scan and no cached word was renamed; what is compiled is the scan's tree, and it is cached if there is room; and says when that stays so. |
| SkaEngine.Engine.Rename | src/ska.c:142-151 | When a heap is reused the cache stays right if every cached formula's word still names what it named. |
| SkaEngine.Engine.CacheClear | src/ska.c:153-161 | Clearing makes the cache right again, whatever words name now. |
| SkaEngine.StaleEntry | src/ska.c:142-151 | Code cached under a word that comes to name another formula answers wrongly: a concrete case. |
| Knuth.DivLuExact | src/bignum.c:374-387 | `divlu64` is exact for a high limb below the divisor. |
| Bignum.DivLuLoop | src/bignum.c:374-387 | The 64-step loop computes the specified register pair. |
| Bignum.Div1 | src/bignum.c:394-399 | One-limb division is exact for every dividend. |
| Knuth.EstimateBounds | src/bignum.c:420-433 | Knuth's Theorem B with the refinement: the estimate is the digit or one above it. |
| Knuth.SubMulExact | src/bignum.c:435-442 | With an estimate of at most 2^63 the signed products do not wrap and D4 subtracts exactly. |
| Knuth.SubtractExact | src/bignum.c:435-456 | D4 and D5 turn such an estimate into the digit and the remainder; one add-back is enough. |
| Knuth.DigitExact | src/bignum.c:415-458 | A digit below 2^63 is exact and the window is left with the remainder. |
| Knuth.DigitsExact | src/bignum.c:415-458 | When no quotient digit reaches 2^63, quotient and remainder are exact. |
| KnuthExact.SubMulValue | src/bignum.c:435-442 | What D4 leaves for any estimate, with 2^128 added at every limb where the signed product wraps. |
| KnuthExact.DigitExactIff | src/bignum.c:415-458 | For every window, also one whose top limb has reached the divisor's: the digit is right, window and all, if and only if the estimate is the digit or one above it, no signed product below the top limb wraps, and the one at the top limb wraps only under an estimate that needs no correction. |
| KnuthExact.BelowTopIff | src/bignum.c:420-456 | For a window whose top limb is below the divisor's the condition is about the wraps alone. |
| KnuthExact.StepsIff | src/bignum.c:415-458 | Every step of a division gives its digit and leaves its remainder in the limbs the next step reads if and only if every window, as the loop meets it, has an estimate that is the digit without a wrap below the second limb from the top, or one above it without any wrap. |
| KnuthExact.DivisionExact | src/bignum.c:464-538 | A division of atoms whose windows meet that condition is exact, whatever the size of its quotient's digits. |
| KnuthExact.StepsExact | src/bignum.c:415-458 | When all steps are right, quotient and remainder are exact, whatever the size of the digits. |
| KnuthConverse.ExactWithWrongSteps | src/bignum.c:415-458 | Right steps are not needed: a concrete division that is exact although one digit leaves too large a remainder, because the next step wraps too. |
| Bignum.SubMulLoop | src/bignum.c:435-442 | The in-place multiply-subtract loop, on the window only. |
| Bignum.AddBackLoop | src/bignum.c:444-454 | The in-place add-back loop, on the window only. |
| Bignum.Window | src/bignum.c:415-458 | One window in place: the digit and the window of the specification, the rest untouched. |
| Bignum.DivmodKnuth | src/bignum.c:415-458 | The whole in-place loop gives the specified digits and leaves the specified dividend. |
| Bignum.BnCmp | src/bignum.c:95-104 | Compares the kept limbs, limb counts first, then limbs from the top; for operands of up to 64 limbs this is the order of the numbers. |
| Bignum.CutValue | src/bignum.c:82-91 | Keeping 64 limbs is reducing by 2^4096. |
| Shifts.ShlVal | src/bignum.c:496-518 | Shifting limbs up multiplies by the power of two, counting what leaves at the top. |
| Shifts.ShrVal | src/bignum.c:527-536 | Shifting limbs down divides by the power of two. |
| Shifts.Normalised | src/bignum.c:496-506 | The shifted divisor has its high bit set and loses nothing. |
| Shifts.ShiftUp | src/bignum.c:499-518 | The normalising loop. |
| Shifts.ShiftDown | src/bignum.c:527-536 | The un-shifting loop of the remainder. |
| Division.BnDivmod | src/bignum.c:464-538 | Crashes exactly on a zero divisor; otherwise the specified quotient and remainder of the operands, each cut to 64 limbs, through the fixed scratch arrays. |
| Division.CutNothing | src/bignum.c:82-91 | For operands of up to 64 limbs nothing is cut: the division is the specified one. |
| Division.AlgorithmD | src/bignum.c:492-538 | Normalise, digits and un-shift in buffers of the fixed size. |
| Division.DivmodExact | src/bignum.c:464-538 | Exact for every one-limb divisor, and for any other whenever no base-2^64 digit of the true quotient reaches 2^63. |
| Division.HalfIsTheBound | src/bignum.c:412-439 | All divisions with quotient digits below `h` are exact if and only if `h <= 2^63`. |
| Division.WrongDivmod | src/bignum.c:436-457 | A concrete four-by-three-limb division whose answer is one too large. |
| Division.TopLimbReached | src/bignum.c:412-424 | A concrete window whose top limb equals the divisor's: the claim at line 412 can fail by equality. |
| Products.BnSub | src/bignum.c:156-173 | Crash exactly when the limbs kept of the first operand are below the second's in the source's order, otherwise their difference modulo the first's limbs; for operands of up to 64 limbs the exact difference, or the crash on underflow. |
| Products.BnMul | src/bignum.c:542-569 | The exact product of the operands, each cut to 64 limbs as the source cuts it; every write inside the 128-limb buffer. |
| Products.Row | src/bignum.c:554-566 | One row of the product: `x` times the other operand is added at limb `i`, the carry goes up as far as it must and no further than the buffer. |
| Decimal.Div10 | src/bignum.c:178-186 | Divides the limbs by ten in place and returns the remainder. |
| Decimal.Collect | src/bignum.c:199-206 | Collects the digits, lowest first, as far as the buffer of 512 takes them. |
| Decimal.BnToDecimal | src/bignum.c:188-211 | For every atom, cut to 64 limbs as the source cuts it: writes exactly the specified text, or nothing when the buffer is too short; the rest of the buffer is untouched. |
| Decimal.MulTenAdd | src/bignum.c:222-232 | Ten times the number and a digit, with at most one new limb. |
| Decimal.BnFromDecimal | src/bignum.c:234-249 | The value of the text, cut to 64 limbs at every character, for any characters. |
| Decimal.PrintParse | src/bignum.c:188-249 | Parsing what was printed gives the number modulo 10^512. |
| Decimal.PrintParseExact | src/bignum.c:188-249 | A number survives printing and parsing if and only if it is below 10^512. |
| Bytes.WordRoundTrip | src/cold.c:28-53 | A little-endian word that fits comes back from its bytes. |
| Bytes.BytesRoundTrip | src/cold.c:28-53 | The bytes of a field come back from the word they make. |
| ColdChain.SuperReadsBack | src/cold.c:187-197 | A written superblock reads back as itself and passes its checksum. |
| ColdChain.ObjectValidates | src/cold.c:204-247 | A complete object validates, and its header gives its kind, length, generation and successor. |
| ColdChain.WalkChain | src/cold.c:249-306 | The walk accepts a superblock that describes the chain. |
| ColdChain.SelectFinds | src/cold.c:308-355 | On a good medium selection returns VALID with the chain's superblock and its slot. |
| ColdValid.ObjectExactly | src/cold.c:204-247 | An object validates exactly if it is complete, in its place, and of the generation asked for. |
| ColdValid.ValidExactly | src/cold.c:249-306 | A superblock validates exactly if it is that of a chain of complete objects filling the data area from its start. |
| ColdValid.SelectExactly | src/cold.c:308-355 | Selection, on any medium: a valid superblock that no valid one is newer than, unless two of one generation differ; otherwise empty, another version, or corrupt. |
| ColdChain.NextSuperIs | src/cold.c:484-495 | The superblock derived for an append is the one of the longer chain: generation, log count, last snapshot, data head. |
| ColdSafety.SuperStep | src/cold.c:308-355 | A superblock write cut at any byte leaves the medium on the old chain or, exactly when all of it got there, on the new one. |
| ColdSafety.AppendStep | src/cold.c:427-514 | An append cut anywhere adds its object whole or not at all; success means added; a cut before the superblock means not; the slots are left spliced as far as the fault let the write come. |
| ColdSafety.DeployStep | src/cold.c:648-738 | A deployment adds both objects under one superblock, or neither, whatever is cut. |
| ColdRuns.RunSafe | src/cold.c:308-514 | Over every run of formats, appends, deployments and faults, selection returns VALID and the superblock of exactly the completed operations in order (plus possibly the cut one). |
| ColdRuns.StepSafe | src/cold.c:357-514 | One operation keeps the invariant and the account of completed operations. |
| ColdRuns.FormatIsGood | src/cold.c:357-393 | Formatting any medium gives a good, empty one. |
| ColdRuns.OneOfAGeneration | src/cold.c:308-355 | The two slots never hold two different valid superblocks of one generation. |
| ColdRuns.KnownDigestUnfooled | src/cold.c:187-197 | While the digest bytes of the free slot are clear or whole, a torn superblock that passes its checksum would be a hash collision or a preimage of zeros. |
| ColdRuns.DigestStaysKnown | src/cold.c:114-139 | A superblock write cut before its digest bytes leaves those of the slot, one cut behind them is whole: only a cut strictly inside leaves a digest that is neither clear nor whole. |
| ColdRuns.DigestOfGivenUp | src/cold.c:483-501 | The slot that a longer chain gives up has a whole digest. |
| ColdRuns.CleanIsUnfooled | src/cold.c:308-514 | In a run whose superblock writes are never cut inside the digest bytes, and whose slots meet no hash collision and no preimage of zeros, no torn superblock passes. |
| ColdRuns.FormattedRunSafe | src/cold.c:308-514 | Every such run from a formatted medium, whatever was on it before, is crash safe, with no assumption on torn digests. |
| ColdSuccess.ObjectDone | src/cold.c:114-139 | The three writes of an object are completed exactly if the armed fault has more bytes left in its phase than the object writes there. |
| ColdSuccess.AppendExact | src/cold.c:427-514 | On a good medium an append is refused exactly for its length or for want of room, is cut exactly if the fault reaches it, and otherwise succeeds and has landed. |
| ColdSuccess.DeployExact | src/cold.c:648-738 | A deployment is rejected, in doubt or committed exactly as its objects fit and the fault reaches an object, the superblock or nothing. |
| ColdSuccess.RunSucceeds | src/cold.c:427-514 | A run of appends and deployments that have room, with no fault armed: every one succeeds, and the chain selected is the old one with all their objects behind it; nothing is assumed of the hash. |
| ColdRead.LogReadsBack | src/cold.c:793-819 | `cold_log_at` gives exactly the payloads of the chain's log entries, in order, and nothing past them. |
| ColdRead.SnapReadsBack | src/cold.c:848-862 | The snapshot read back is the last one of the chain. |
| ColdLog.Log.PhaseWrite | src/cold.c:114-139 | A phase write stops at the armed byte and otherwise writes everything. |
| ColdLog.Log.WalkObjects | src/cold.c:273-300 | The chain-walking loop ends with the result of the specified walk. |
| ColdLog.Log.ObjectWrite | src/cold.c:463-482 | Header, payload and commit are written in order, up to the first that is cut. |
| ColdLog.Log.SuperCheck | src/cold.c:249-306 | The in-place check agrees with the specification, error by error. |
| ColdLog.Log.SelectSuper | src/cold.c:308-355 | Selection sets the selected superblock and slot as specified. |
| ColdLog.Log.AppendObj | src/cold.c:427-514 | The writes, the fault and the selected fields after an append are the specified ones. |
| ColdLog.Log.StoreDeployment | src/cold.c:648-738 | The same for a deployment. |
| ColdLog.Log.FormatWindow | src/cold.c:357-393 | The same for formatting. |
| ColdLog.Log.LogEntry | src/cold.c:793-819 | The walk to the n-th log entry. |
| ColdMedia.Translate | src/cold_media.c:182-208 | A window offset maps to a sector within the extent, a byte within it and the stretch available there; out of range is the error. |
| ColdMedia.PlacesApart | src/cold_media.c:182-203 | The map is injective, and the two superblock slots never share a sector. |
| ColdMedia.Stretch | src/cold_media.c:182-203 | The bytes of one stretch lie behind each other in one sector. |
| ColdMedia.Media.Read | src/cold_media.c:215-269 | Success returns the flat window's bytes and changes nothing; the gates turn a command away in the code's order before the backend is asked; past them it succeeds if the backend works, and a failure asks for a reset. |
| ColdMedia.Media.WriteBytes | src/cold_media.c:271-340 | Success changes exactly logical bytes [off, off+len); a failure leaves what was done before it, may have changed the one sector being written, and nothing else; range, reset, read-only and owner turn a command away untouched; past them it succeeds if the backend works, and a failed write asks for a reset. |
| ColdMedia.WroteMore | src/cold_media.c:302-332 | Storing one more sector adds exactly its bytes to the window. |
| Bits.RubOfMat | src/jam.c:52-80 | `rub` undoes `mat`: it reads the number back and stops right behind it, for every number within the limb limit. |
| Jams.JamExtends | src/jam.c:152-198 | The encoder only adds bits behind what is there. |
| Jams.JamLenInStep | src/jam.c:207-251 | The length-only traversal makes the encoder's choices in both key modes: it stays in step until the limit is passed. |
| Jams.SizeCheckedExact | src/jam.c:253-269 | The size check succeeds if and only if the encoder's output fits, and then gives its exact byte count. |
| Jams.JamEndsInOne | src/jam.c:152-198 | The stream ends in a 1 bit, so no zero byte is lost off its top as an atom. |
| JamIdeal.JamIsIdeal | src/jam.c:152-198 | Whatever the hash, a noun of at most 98304 distinct words is written as with a plain map of first positions: a repeated cell as a back-reference, a repeated atom as the shorter of its two forms. |
| JamIdeal.PutIdeal | src/jam.c:117-142 | Below the limit of entries a store in the cache is an update of that map. |
| Cues.FoundIsDecoded | src/jam.c:107-121 | A noun found in the encoder's cache is equal to the one looked up and already decoded: never a cell still being written. |
| Cues.Round | src/jam.c:480-506 | The decoder reads back what the encoder wrote, at the place where it wrote it, and both caches stay in agreement. |
| Cues.CueOfJam | src/jam.c:480-513 | `cue(jam(n))` is `n` for every noun whose encoding fits the buffer, in both key modes, whatever sharing the cache finds or loses. |
| Probe.GetIs | src/jam.c:467-476 | A lookup in a linear-probe table is a lookup in the map it stands for. |
| Probe.PutIs | src/jam.c:453-465 | Writing at the slot the probe finds updates that map and nothing else. |
| Probe.FullIs | src/bounded_cue.c:77-107 | A capped probe fails only when the map has at least as many keys as the cap. |
| CueReader.DoRub | src/jam.c:394-434 | The decoding loops return the specified number and cursor, or crash as specified; a length near 2^64, whose limb count wraps to 0, gives 0. |
| CueReader.Reader.DoCue | src/jam.c:480-506 | The recursive decoder over its probe table returns what the specification returns. |
| CueReader.CueWhole | src/jam.c:508-513 | `cue` of an atom. |
| JamWriter.Writer.Write | src/jam.c:23-29 | Appends one bit to the limb buffer, or refuses exactly when it is full. |
| JamWriter.Writer.WriteMat | src/jam.c:68-80 | Appends the encoded number. |
| JamWriter.Writer.Lookup | src/jam.c:107-121 | The probe finds what the specification's cache finds. |
| JamWriter.Writer.Store | src/jam.c:123-146 | The probe stores where the specification's cache stores; a full cache loses the entry. |
| JamWriter.Writer.DoJam | src/jam.c:152-198 | Writes exactly the specified bits, and crashes exactly when they do not fit. |
| JamWriter.JamWhole | src/jam.c:278-283 | The atom with exactly these bits, or the overflow crash. |
| BoundedCueSound.MatAgrees | src/bounded_cue.c:132-188 | Reading a number with limits is the plain reading, or a limit or an end out of reach. |
| BoundedCueSound.DecodeAgrees | src/bounded_cue.c:190-258 | Node for node the bounded decoder agrees with the plain one; its capped probe table stands for the plain position map. |
| BoundedCueSound.AcceptedIsPlain | src/bounded_cue.c:276-331 | Acceptance means: the noun is the plain decoder's, it ends within a byte of the input's end, only zero bits follow. |
| BoundedCueSound.JamAccepted | src/bounded_cue.c:276-331 | Every encoding of a noun is accepted and gives the noun back unless a limit is passed or an allocation refused; the status names which, and the counters or the memory show it. |
| BoundedCueLimits.AcceptedWithin | src/bounded_cue.c:276-331 | An accepted decode stayed within every limit: work, nodes, cells, depth, back-references, atom bytes, cache entries, input bytes. |
| BoundedCueCounts.DecodeCounts | src/bounded_cue.c:187-260 | A node that is decoded adds to the counters exactly the nodes, cells, back-references, atom bytes and depth that the plain decoder reads for it. |
| BoundedCueCounts.AcceptedCounts | src/bounded_cue.c:276-331 | The counters of an accepted decode are those counts for the whole input; its work is at least a unit for each bit, node, atom byte and probe, and exactly that if no probes clash. |
| BoundedCueCounts.AcceptedTally | src/bounded_cue.c:276-331 | What is accepted is within the limits by these counts, each atom too; an input whose counts pass a limit is refused. |
| BoundedCueLimits.CueWider | src/jam.c:394-513 | What a decoder reads, one with wider limb and table limits reads the same; where one takes a wrapped length for 0, one without the wrap gives no answer. |
| CueWrap.WrapIff | src/jam.c:394-421 | What the wrapped 64-bit sum reads differs from what the full sum reads exactly at lengths of 2^64 - 63 and more; there it reads 0, and the full sum none. |
| CueWrap.CueUnwrapped | src/jam.c:394-513 | A decoder whose sum does not wrap gives no answer where decoding meets such a length, and the same answer everywhere else. |
| CueWrap.WrapMatters | src/jam.c:394-513 | `cue` answers differently from that decoder exactly on the atoms where it meets such a length and answers. |
| CueWrap.WrapReached | src/jam.c:411-421 | An atom of 129 bits that `cue` decodes to 0 and that encodes nothing. |
| BoundedCueLimits.DecodersAgree | src/bounded_cue.c:276-331 | Where both decoders answer they give the same noun. |
| CueLong.PlainOnAccepted | src/jam.c:394-513 | On what the bounded decoder accepts, `cue` gives the same noun, or crashes exactly if a number in it has more than 16384 limbs. |
| CueLong.LongAtom | src/jam.c:415-421 | The encoding of any atom of 16385 to 32768 limbs: the format with the wider limit has it, and `cue` crashes. |
| CueLong.CueNarrower | src/jam.c:394-513 | Where a decoder with wider limbs answers, a narrower one gives the same answer, or none exactly if a length is too long for it. |
| BoundedReader.Reader.ReadNumber | src/bounded_cue.c:132-188 | The loops over input bytes read the specified number, charge the specified work, and make its atom in the store, or refuse as specified. |
| BoundedReader.Reader.Spend | src/bounded_cue.c:47-57 | Charges work, or fails at the work limit. |
| BoundedReader.Reader.NextBit | src/bounded_cue.c:59-70 | Reads one bit of the input bytes, or fails at the end. |
| BoundedReader.Reader.StoreAt | src/bounded_cue.c:77-107 | The capped probe loop stores as specified. |
| BoundedReader.Reader.LoadAt | src/bounded_cue.c:109-130 | The capped probe loop finds as specified. |
| BoundedReader.Reader.DecodeNoun | src/bounded_cue.c:190-258 | The recursive decoder with its counters, atoms and cells ends in the specified state; the word it returns stands for the specified noun, and memory has only grown. |
| BoundedReader.Attempt | src/bounded_cue.c:290-331 | The decode under a transaction that has just begun, aborted on every refusal. |
| BoundedReader.Reader.FollowBackref | src/bounded_cue.c:236-251 | A back-reference is counted against its limit; its number must be direct and before this node, and the table gives the word. |
| BoundedReader.Reader.DecodeHalves | src/bounded_cue.c:228-234 | Both halves in order, the head still standing for its noun after the tail was decoded, and the cell of both. |
| BoundedReader.CueBoundedBytes | src/bounded_cue.c:276-331 | The whole decoder: status and noun are the specified ones. A refusal of any kind leaves index, store, used bytes, both cell pointers and the transaction as at entry; an acceptance leaves the noun in new atoms and cells; either way every other word keeps its meaning. |
| AtomStore.TrimmedAre | src/noun.c:482-487 | Limbs without zeros on top are the canonical limbs of their value. |
| AtomStore.WordsAreValues | src/noun.c:404-565 | Among live words, two are equal if and only if their values are. |
| AtomStore.MadeMeans | src/noun.c:482-565 | Making an atom gives its word a meaning and leaves every other word its own. |
| AtomStore.RefusedExactly | src/noun.c:482-565 | An atom is refused exactly when its word means another value, or means none and there is no place for it; a place is used exactly for a value that had none. |
| AtomStore.Store.Get | src/noun.c:404-420 | The index lookup is a lookup in the map of stored atoms. |
| AtomStore.Store.MakeAtom | src/noun.c:482-565 | The word of the value and the specified new store, or a refusal that changes nothing: exactly when another atom has its 62-bit name, or there is no slot, no room, no log entry, or allocation is shut off. |
| AtomStore.Store.Insert | src/noun.c:520-565 | The new atom is stored under its name, or nothing has changed: exactly when the index, the data area or the log is full, or allocation is shut off. |
| AtomStore.Store.Begin | src/noun.c:594-607 | Begins with an empty log and remembers the store as it is. |
| AtomStore.Store.Commit | src/noun.c:609-613 | Keeps every atom made since. |
| AtomStore.Store.Abort | src/noun.c:615-634 | The index is, slot for slot, what it was at begin, so every later lookup answers as it did then. |
| AtomStore.Store.UndoAll | src/noun.c:615-634 | Clearing the logged slots gives back, slot for slot, the index as it was. |
| NounSpaces.Space.Begin | src/noun.c:594-607 | Refuses under a live transaction; otherwise marks the next cell of the chosen heap and the atom store. |
| NounSpaces.Space.Commit | src/noun.c:609-613 | Ends the transaction and keeps everything made. |
| NounSpaces.Space.Abort | src/noun.c:615-634 | Gives back every atom and every cell made since the transaction began, in its own heap only. |
| NounSpaces.Space.AllocCell | src/noun.c:118-179 | Takes the next cell of the current heap and writes it, or refuses exactly when there is none or allocation is shut off. |
| NounSpaces.StandsStill | src/noun.c:155-179 | A word keeps standing for its noun when atoms are added and cells written in free room only. |
| NounSpaces.StandsForOne | src/noun.c:760-776 | A word stands for one noun only. |
| NounCopy.LinkedCopy | src/noun.c:304-327 | A new cell over copied halves is one more copy; nothing old changes. |
| NounCopy.CopiedTree | src/noun.c:282-334 | The copies of a tree's cells make up the tree at the new addresses. |
| NounCopy.NotInside | src/noun.c:282-334 | No cell of an acyclic heap is inside itself. |
| NounCopy.Heap.CopyRec | src/noun.c:282-334 | Copies the cells below that are not copied yet, each once, and extends the map by exactly them. |
| NounCopy.Heap.AllocCell | src/noun.c:166-179 | Takes the next cell of the room, or fails exactly when there is none. |
| NounCopy.Heap.CopyChecked | src/noun.c:336-340 | A structurally equal noun made only of new cells, one for each distinct reachable cell, every old cell unchanged; failures only for depth, memory, map or the injected fault. |
| Blake3.FoldIsTree | src/blake3.c:219-229 | The stack of all chunks but the last, folded with the last on top, is the left-full tree over all chunks. |
| Blake3.MergeEqual | src/blake3.c:155-165 | Merging two equal subtrees gives the next larger one. |
| Blake3.LowBitOnTop | src/blake3.c:200-216 | The lowest binary digit of the chunk count is the subtree on top of the stack. |
| Blake3.StackFits | src/blake3.c:169-215 | Under 2^54 chunks the stack never exceeds 54 entries. |
| Blake3Hasher.HashChunk | src/blake3.c:124-151 | The block loop chains the chunk with CHUNK_START on its first block and CHUNK_END, and the final flags, on its last. |
| Blake3Hasher.MergeDown | src/blake3.c:200-216 | After each push the loop merges as often as the count has trailing zeros, giving the next stack. |
| Blake3Hasher.MergeAll | src/blake3.c:219-229 | The final merges fold the stack, with ROOT on the last. |
| Blake3Hasher.Hash | src/blake3.c:169-230 | For every input under 2^54 chunks, and any compression function, the result is the value of the hash tree of the input as a term. |
| Blake3Terms.RootIsHash | src/blake3.c:124-230 | The root of the left-full tree is the value of a term whose every parent pairs the value over the lower chunks with that over the higher ones, with the IV, length 64, counter 0 and PARENT, ROOT at the top only; leaf i chains the blocks of chunk i in order with counter i, CHUNK_START on the first and CHUNK_END on the last. |
| Blake3Terms.OneHash | src/blake3.c:124-230 | Those conditions leave one term for each input. |
| Blake3Hasher.RootOnce | src/blake3.c:124-230 | ROOT is used at the top of the tree and nowhere else, and the leaves are the chunks in order. |
| EventQueue.FrontIs | src/kernel.c:817-843 | The front of the queue and what is behind it, list and timing ring together. |
| EventQueue.Queue.EnqPrebuilt | src/kernel.c:790-815 | Appends the node and its timing, or refuses exactly at 256 events and changes nothing. |
| EventQueue.Queue.EnqTimed | src/kernel.c:747-782 | Appends the event with its timing, or drops the new event exactly when the queue is full. |
| EventQueue.Queue.DeqTimed | src/kernel.c:817-832 | Takes the oldest event with its own timing. |
| EventQueue.Queue.PeekTimed | src/kernel.c:834-843 | Reads the oldest event and its timing and changes nothing. |
| EventQueue.Queue.Clear | src/kernel.c:715-723 | Empties the queue. |
| EventQueue.Queue.Publish | src/kernel.c:1153-1168 | A queue built elsewhere becomes this one: same events, same order, same timing. |
| EventQueue.StampedOnce | src/kernel.c:1150-1160 | Publication gives an admission time to the events that have none and leaves the timing of the others. |
| Timers.PollConserves | src/kernel.c:574-646 | A poll moves a current I2 token from table to queue or leaves it armed: together they hold it as often as before, whatever the queue length. |
| Timers.FullKeepsArmed | src/kernel.c:574-646 | A full queue keeps every current I2 timer armed as it is. |
| Timers.PollGrows | src/kernel.c:574-646 | A poll only appends, and only up to the capacity. |
| Timers.DueFires | src/kernel.c:574-646 | A due timer with a current token fires, once, if there is room when its turn comes. |
| Timers.PolledArm | src/kernel.c:574-646 | What a poll makes of an arm: not due, it stays; legacy and due, it is set a period on and ticks if there is room; I2, due and stale, it is freed. |
| Timers.PollQueues | src/kernel.c:574-646 | A poll queues only events of arms that are due, with their timing. |
| TimerRuns.RunCounts | src/kernel.c:574-646 | Over every run of polls, arrivals, deliveries, promotions and clears a token is armed, queued, delivered or retired exactly as often as it was set and not cancelled: never lost, never doubled. |
| TimerRuns.DeliveredOnce | src/kernel.c:574-646 | A new token set once is delivered at most once, and until it is delivered or retired it is armed or queued, once. |
| TimerRuns.RetiredCounts | src/kernel.c:715-723 | A token is retired exactly as often as it is queued or armed when that is cleared, or queued when a promotion leaves the backlog out. |
| TimerRuns.NothingRetired | src/kernel.c:1004-1010 | Nothing is retired without a clear or a promotion that leaves the backlog out. |
| TimerRuns.Promoting | src/kernel.c:1079-1131 | A promotion changes a token's count by its sets and cancels alone. |
| Timers.Table.TarmPoll | src/kernel.c:574-646 | The loop over the arms, with reserved nodes, leaves the table and the queue as specified. |
| Timers.Table.PollArm | src/kernel.c:574-646 | One turn of the loop, on one arm. |
| Timers.Table.FireToken | src/kernel.c:582-628 | A due timer with a current token: its reserved node goes to the queue, or the arm is kept. |
| Timers.Table.TarmClear | src/kernel.c:333-342 | Frees every arm and leaves the queue as it was. |
| Promotion.PreflightSuffices | src/kernel.c:1797-1974 | What preflight accepts, at whatever point of a lifecycle plan, has an event to consume if it consumes one, a slot for every set, a live timer for every cancel, room for every completion and for the whole new queue. |
| Promotion.PreflightExact | src/kernel.c:1797-1974 | Preflight accepts exactly what may be promoted: permitted effects within the limit about distinct cell tokens, sets with a delay of tokens not held while a timer is left, cancels of tokens held, services and causes within their limits, an event to consume, and room in the queue. |
| Promotion.SetsAreArmed | src/kernel.c:1079-1106 | Every timer that is set is armed for its delay from now under its owner. |
| Promotion.ArmStays | src/kernel.c:1079-1106 | An armed timer that no effect cancels stays as it is. |
| Promotion.CarriedOver | src/kernel.c:1067-1078 | A promotion carries over every timer that may still fire as it is. |
| Promotion.CompletionOf | src/kernel.c:1107-1131 | One completion for each request, in order, about its token, with status and detail 0. |
| Promotion.StillHeld | src/kernel.c:1089-1106 | Filling a free arm moves no held token. |
| Lifecycle.RunsNeverBoth | src/kernel.c:2286-2335 | Over every run of starts, passes and ends, a promotion that consumes a queued event never leaves the backlog out. |
| Lifecycle.NeverBoth | src/kernel.c:1008-1016 | The flags at a promotion: the backlog is left out only while the event is not from the queue. |
| Lifecycle.AtMostThree | src/kernel.c:2309-2319 | A lifecycle plan commits at most three transactions. |
| Lifecycle.PlanUnfolds | src/kernel.c:2289-2328 | A plan pass by pass: the root takes the slot and leaves the backlog out exactly on a stop; later passes take from the queue and keep it; complete when nothing is queued, failed at the third commit if something is. |
| Lifecycle.PlanEnds | src/kernel.c:2289-2297 | A pass that does not commit ends a plan, and no pass outside a plan touches the flags. |
| Lifecycle.Flags.StartPlan | src/kernel.c:2844-2863 | Starts a plan, or refuses while one is there. |
| Lifecycle.Flags.FinishPlan | src/kernel.c:2865-2870 | Clears the plan when its loop returns. |
| Lifecycle.Flags.SelectEvent | src/kernel.c:2440-2447 | The slot before the queue, and whether the event belongs to the plan (`active`, lines 2516-2517). |
| Lifecycle.Flags.TransactionTerminal | src/kernel.c:2289-2328 | The end of a transaction moves the flags as specified. |
| PromotionKernel.CandidateEnqueue | src/kernel.c:976-995 | Appends to the candidate queue, or fails for memory or at capacity. |
| PromotionKernel.Memory.Abort | src/noun.c:83-90 | An aborted transaction restores semispace selector and pointer. |
| PromotionKernel.Kernel.ApplyEffects | src/kernel.c:1079-1131 | The effects on the candidate: timers set and cancelled, completions reserved, in order. |
| PromotionKernel.Kernel.PersistCompact | src/kernel.c:997-1194 | All or nothing: on failure gate, queue, timing, timers, completions and semispace are as before; on success the queue is the retained events, the causes, then one completion per request, all published together; after preflight only an allocation can fail. |
| PromotionKernel.Kernel.CommitPass | src/kernel.c:2646-2717 | A pass whose evaluation commits: event chosen (lines 2440-2449), effects accepted exactly if they may be promoted, promoted unless memory gives out, and the plan moved on (2289-2328), with the queue cleared before a fourth transaction; with memory enough nothing else stops it, and the flags are at rest again. |
| PromotionKernel.Kernel.ExecuteLifecycle | src/kernel.c:2844-2863 | Starts a plan or refuses; a stop clears the queue. |
| PromotionKernel.OnlyAllocation | src/kernel.c:1797-1974 | A candidate that fails after preflight fails for memory, at whatever point of a lifecycle plan. |
| Manager.BuildAnyEq | src/m7_supervisor.c:137-146 | The loop builds the nested comparison from the inside out. |
| Manager.AnyEqAnswers | src/m7_supervisor.c:137-146 | The nested comparison answers whether the value is one of the given nouns. |
| Manager.ProgramDecides | src/m7_supervisor.c:120-239 | On every mode, mailbox flag, command and object, whatever nouns they are, the Nock program returns (never crashes) exactly the decision table's status, next mode and restart reason. |
| Manager.ProgramAnswersOnce | src/m7_supervisor.c:120-239 | And returns nothing else. |
| Supervisor.Resource.Request | src/m7_supervisor.c:634-703 | The mailbox takes a request or refuses it with the specified status, in the code's order of checks. |
| Supervisor.Resource.AtBoundary | src/m7_supervisor.c:788-932 | What the boundary does with the evaluator's answer is what the decision table says; the answer is never malformed. |
| Supervisor.Resource.StopNow | src/m7_supervisor.c:934-955 | A forced stop ends STOPPED, with the incarnation moved on if it could be. |
| Supervisor.Resource.RestoreState | src/m7_supervisor.c:586-601 | A snapshot whose fields pass replaces mode, reason, incarnation and status and empties the mailbox; any other changes nothing. |
| Supervisor.Resource.StartOver | src/m7_supervisor.c:957-970 | A reset ends IDLE exactly when the forced stop succeeded. |
| Supervisor.RunsAreSound | src/m7_supervisor.c:634-970 | In every run from boot, with requests, boundaries, forced stops, resets and restores: a known mode and incarnation, one confirmation per request taken; outputs marked safe only when not running, unless a running snapshot was restored; and a boundary never answers OVERFLOW or UNSUPPORTED_CMD. |
| Supervisor.StepHonest | src/m7_supervisor.c:586-601 | Outputs come to be marked safe while running if and only if the step restores a snapshot taken while it ran. |
| Supervisor.RunsExactlyWhen | src/m7_supervisor.c:788-932 | The resource runs after a boundary if and only if it ran and this was no approved STOP, or a START was approved, prepared and delivered. |
| Supervisor.StoppingExactlyWhen | src/m7_supervisor.c:862-906 | A boundary leaves STOPPING behind if and only if an approved STOP was delivered and the incarnation could not move on. |
| Supervisor.StoppingIsFinal | src/m7_supervisor.c:788-932 | From STOPPING no sequence of requests and boundaries leads out. |
| Supervisor.StoppingLeft | src/m7_supervisor.c:586-601 | A step leaves STOPPING if and only if it is a forced stop, a reset, or the restore of a snapshot that passes. |
| Supervisor.StoppingReached | src/m7_supervisor.c:862-906 | A run from boot that reaches it: START, STOP, and an incarnation that does not move on. |
| Supervisor.IncarnationExactly | src/m7_supervisor.c:862-945 | Exactly the stops carried through move the incarnation on, by one; a restore sets it; nothing else does. |
| Supervisor.RestartReason | src/m7_supervisor.c:788-862 | The reason remembered: cold for a START from IDLE, warm for one from STOPPED, the stop's for a STOP, none for a query or a refusal. |
| Supervisor.AnswerExactly | src/m7_supervisor.c:788-932 | A boundary answers what the table says, or system termination exactly if the approved request could not be carried out. |
| Supervisor.MailboxExactly | src/m7_supervisor.c:668-703 | A request waits exactly if one did before or a good one came to a supervisor that is up; one that waits is never replaced; the status says which. |
| Supervisor.SafeExactly | src/m7_supervisor.c:862-945 | Outputs count as safe after a stop exactly if the driver forced them, not after a START carried out, always after a restore, and otherwise as before. |
| Supervisor.StopsExactly | src/m7_supervisor.c:934-975 | A forced stop ends STOPPED with an empty mailbox; a reset ends IDLE and ready exactly if the stop succeeded. |
| Ingress.NoBorder | src/i2_ingress.c:161-180 | No prefix of the magic ends with a shorter prefix of it. |
| Ingress.ScanCounts | src/i2_ingress.c:161-180 | Without the magic in the stream, the scanner's count is the longest end of the stream that begins the magic. |
| Ingress.FrameReceived | src/i2_ingress.c:161-236 | Any garbage in which the magic first occurs at the frame start, followed by an encoded frame, ends READY with exactly the payload. |
| Ingress.AfterRejection | src/i2_ingress.c:98-107 | A frame right after a rejected one is received. |
| IngressTimes.ReadyInTime | src/i2_ingress.c:150-236 | After any bytes at any times, a frame that is ready is in the stream with its own header, length and digest, and each byte came before the deadlines. |
| IngressTimes.FrameInTime | src/i2_ingress.c:150-236 | An encoded frame that comes in time, after any bytes at any times without the magic, is received. |
| IngressTimes.RefusedExactly | src/i2_ingress.c:98-141 | A reason is counted exactly when a frame that was under way is given up. |
| IngressReceiver.Receiver.FeedByte | src/i2_ingress.c:161-236 | One byte moves the receiver, its two deadlines and its counts of rejections as specified; a byte after a deadline starts over and counts as the first one. |
| IngressReceiver.Receiver.Reject | src/i2_ingress.c:109-141 | Counts the rejection and starts the scan over. |
| IngressReceiver.Receiver.PayloadByte | src/i2_ingress.c:219-236 | A payload byte is stored; the last one is checked against the digest. |
| IngressReceiver.FrameEncode | src/i2_ingress.c:285-304 | The encoder writes exactly the specified frame, or refuses when it does not fit. |

## Left out

- SkaSound.ScanSound: assumes that no memo misled the scan, because the memo test as written is unsound; the turned test needs no such assumption.
- SkaEngine.Engine.SkaNock: the interpreter that src/ska.c falls back to when not even the root of the cooked tree fits its arena is a parameter, and nothing is claimed of its answer; jets, and the hints %wild and %tame that register them, are not modelled.
- SkaEngine.Engine.Rename: the nouns inside a cached tree are values here; that a heap's reuse can change them too is not modelled, and is one more reason to clear.  The one caller of `ska_cache_clear` is `swap_apply_if_ready` (src/kernel.c:2154); no heap reuse calls it.
- Nomm1s.CookFits: `direct_val` of an axis word that is not direct is not modelled: Nock crashes on such an axis, and the code looks up whatever its bits spell, so SkaBack.Strays counts it.
- NockMachine.Machine.BudgetTick: the wall-clock deadline polled every 256 ticks is not modelled.
- NockMachine.Machine.NockEval: the cell budget, the deadline and heap exhaustion during evaluation are not modelled; a crash is an outcome, not a longjmp.
- Nock.EvalIsNock4K: axes and opcodes at or above 2^63 crash in the code and are outside the equivalence, as are opcode 12 and the two jet hints.
- Division.BnDivmod: a divisor of more than 64 limbs whose 64th limb is 0 is excluded, because `__builtin_clzll` has no value at 0.
- Division.DivmodExact: for a divisor of two or more limbs it needs every digit of the quotient below 2^63, and Division.HalfIsTheBound shows why; KnuthExact.DivisionExact gives a condition on the windows of one division.
- KnuthExact.DivisionExact: one way, because the converse is false (KnuthConverse.ExactWithWrongSteps); KnuthExact.StepsIff is the exact condition for every step to be right.
- Shifts.ShiftUp: the `|` of two halves without common bits is modelled as a sum.
- ColdRuns.RunSafe: assumes that a torn superblock passes its checksum only if it is one that was written; ColdRuns.FormattedRunSafe does without, for runs without a cut inside the digest bytes of a superblock and without hash collisions.  The hash is a parameter.
- ColdLog.Log.PhaseWrite: the medium behind the window is inactive, so each phase is a plain write; the active path with deadlines and barriers is not modelled.
- ColdLog.Log.AppendObj: the same; barriers and read-back from the medium are not modelled.
- ColdLog.Log.StoreDeployment: the same.
- ColdLog.Log.FormatWindow: the same.
- ColdLog.Log.LogEntry: decoding the payload noun, and `cold_load` by hash, are not modelled.
- ColdMedia.Media.Read: descriptor validation and diagnostics are not modelled; the backend's outcomes are arbitrary.
- ColdMedia.Media.WriteBytes: descriptor validation, deadlines by the clock and diagnostics are not modelled; the backend's outcomes are arbitrary.
- Cues.CueOfJam: a noun's address for the identity key mode is part of the noun; the hash of the caches is any function.
- BoundedReader.CueBoundedBytes: the admission counters are not modelled, and some status codes are split by their reason.
- NounSpaces.Space.AllocCell: reference counts are not modelled here; NounCopy has them.
- AtomStore.Store.MakeAtom: probe statistics are not modelled.
- AtomStore.Store.Begin: the atom store's part of the transaction; NounSpaces.Space.Begin adds the cell mark.
- AtomStore.Store.Commit: likewise, with NounSpaces.Space.Commit.
- AtomStore.Store.Abort: likewise, with NounSpaces.Space.Abort.
- NounCopy.Heap.CopyChecked: the older `noun_copy`, which crashes instead of failing, is not modelled.
- Blake3Hasher.Hash: the compression function is a parameter; its block is 64 bytes of data or two chaining values side by side, so the bytes of a chaining value are its own.
- EventQueue.Queue.EnqTimed: allocating the list cell cannot fail in the model, and the overflow message is not modelled.
- Timers.Table.TarmPoll: whether a token is current is a parameter of the poll.
- Timers.Table.PollArm: the same.
- TimerRuns.RunCounts: a clear is a step of the runs whoever asks for it (a stop, the fourth transaction, a boundary, a crash, a deployment); when each of them does is not modelled there.
- Lifecycle.Flags.StartPlan: the checks on identity, mode, gate and event are one flag; the clearing of the queue is in PromotionKernel.Kernel.ExecuteLifecycle.
- Lifecycle.Flags.TransactionTerminal: the clearing of the queue is in PromotionKernel.Kernel.CommitPass; the management boundary is not modelled there.
- PromotionKernel.Kernel.ApplyEffects: effects are typed values, so their noun parsing is not modelled.
- PromotionKernel.Kernel.CommitPass: what the evaluation returned is given; without a live identity the code takes the event out of the queue before it evaluates, which is not modelled.
- PromotionKernel.Kernel.PersistCompact: each allocation may fail at will; a divergence from preflight, which cannot follow preflight, is a crash and nothing is claimed after it; the last management result is taken as empty.
- Manager.ProgramDecides: building the program assumes that its cells can be allocated.
- Supervisor.Resource.Request: whether the request's bytes are the canonical encoding of a noun is given by the caller, and `m7_manager_request`, which encodes a noun first, is not modelled.
- Supervisor.Resource.AtBoundary: decoding the stored object, the query result, the lifecycle event, the output driver and the incarnation gate are outcomes given by the caller; deployment is not modelled.
- Supervisor.Resource.StopNow: the answer before the supervisor is ready, and the clearing of queue and timers, are not modelled.
- Supervisor.Resource.StartOver: the same.
- Supervisor.Resource.RestoreState: the other parts of a snapshot are taken as installed.
- IngressReceiver.Receiver.Reject: the saturation of the counters, the last reason and the metrics are not modelled.
- `noun_eq` (src/noun.c:760-776) is equality of nouns in the model.
- Register input and output, UART text, the Forth core and the selftests are not modelled.
