# Verified models of five LLVM algorithms

This project models five self-contained algorithms of the LLVM source tree in Dafny and proves
what each of them promises. `dafny verify dfyconfig.toml` checks everything.

**BrainF compiler** (`BrainF*.dfy`). The example compiler lexes with one symbol of lookahead,
coalesces runs of `+ -` and of `< >`, and drives a mutable builder that appends instructions,
creates blocks and finishes phis. The model has a reader that runs a text one character at a time
and finds loop ends by counting brackets (`BrainFText`), command lists with an interpreter that is
proved to do the same (`BrainFSource`), the emitted part of the IR with a small-step machine
(`BrainFIR`), and the compiler as a class that updates its blocks, insertion point, current head and
input position (`BrainFEmitter`). `BrainFLayout` relates a command list to a place in a growing module,
`BrainFSimulation` and `BrainFCorrectness` show that the machine does what the interpreter does
in both directions, including divergence, `BrainFWellFormed`, `BrainFSingle` and `BrainFDominance`
show the module well formed, and `BrainFCompiler` states the end-to-end result.

**CFL-reachability alias analysis** (`Cfl*.dfy`). Worklist, reachability set, memory-alias set and
attribute map are objects updated in place. The run ends at the least relation closed under the
seven-state machine; the relation is the path grammar's; it is symmetric once states are ignored,
and so are the alias queries answered from it. `CflMirror` says what becomes of the states, `CflOrigin`
where attributes come from, and `CflQuery` what every query answers, in terms of both.

**Block-frequency mass** (`Bfi*.dfy`). Weights are combined by sorting or hashing, normalised to
32 bits and turned into portions by dithering with fixed-point probabilities whose 64-by-32-bit
scaling is proved exact. `BfiRoom` says when normalised weights fit 32 bits, `BfiMassFlow` when one
node's mass arrives whole and how much each target gets, and `BfiMassPass` that over a whole loop or function
none of the full mass is lost and how much every node, backedge and exit ends up with. Headers of irreducible regions are chosen so that every cycle passes one.

**CFG searches** (`Cfg*.dfy`). The back-edge search, which finds exactly the edges back to dominators
when the graph is reducible, and the reachability walk with its shortcuts through dominators and
whole loops.

**Index arithmetic of BasicAA** (`Baa*.dfy`). Linear decomposition at a bounded width: which operations are
looked through (`BaaStructure`), what becomes of sign extensions (`BaaSignExtend`) and of both kinds nested in
one another (`BaaMixed`); subtraction of two index lists; what a variable's recorded extensions
leave open (`BaaExtension`); and the rules at the end of `aliasGEP` (`BaaPositive`, `BaaHeuristic`,
`BaaAliasGep`), with the answers they give told from sizes, signs and offsets in `BaaAnswers`, all modulo 2^64. `Arithmetic.dfy`
holds powers of two and congruences, shared with the mass model; `Options.dfy` values that may be
missing.

## Readings and assumptions

- BrainF: `malloc` returns non-null memory whose end is below 2^64; preservation is for tapes of at
  least one cell. `curvalue` is a C++ `int`; the constants emitted wrap at 8 and 32 bits, and the
  move lengths are required to fit an `int`, which `ShortTextsFit` derives for texts shorter than
  2^31 characters. End of input reads as -1, truncated to 255; `putchar` writes an unsigned char.
  The bounds check is made at the end of each coalesced run of moves, so an excursion within a run
  is not detected; `CheckingIsExact` states exactly that. `abort()` is a status. Dominance is stated
  on paths: on every path from the entry block a register is defined before it is used.
- CFL: a comment in the source calls the reachability set symmetric. It is so only with the state
  ignored, because self pairs are dropped; `StatesAreNotSymmetric` gives a graph, and
  `RecordedIffSpelledBack` says for every graph which states are recorded the other way round.
  Function summaries rely on less: on reads one way being writes the other. That holds for all nodes that
  are not memory aliases (`ReadsMirrorWrites`) and fails for some that are (`WritesAreNotReads`).
- Mass: the assertion that a normalised total fits 32 bits can fail. `Normalize` says exactly when, by
  the amounts going to each target; `RoomSuffices` and `RoomIsNeeded` say exactly when, by the true sum
  and the number of targets alone: never up to 64 bits and 2^31 targets, but with
  two targets it can for every sum from 2^65 - 2^33 on.
  The source asserts at least two entries in an irreducible component; so does the model's
  precondition.
- Mass: the passes take the weights of each node as given. `AdmittedPass` shows that the weights `AddToDist`
  makes of a node's edges are such weights, when no edge is given up on and no node but a header has an
  edge to itself.
- CFG: `LoopInfo` is a forest of strongly connected loops, and `DominatorTree` is the definition of
  dominance. The entry block has no predecessors, and every block of a loop is on a cycle.
- BasicAA: values are unsigned integers below 2^width; a shift by the width or more and a broken
  no-wrap flag are excluded as poison. The mask oracle answers truthfully. Pointers have 64 bits.
  The analysis records how many bits a variable was extended by, not in which order
  (`ExtensionOrderIsLost`), so values are taken under a reading that says how many of the sign bits
  came first, one for each recorded variable; every statement is for all readings. Where one pointer has
  zext(sext(x)) and the other zext(x), no reading fits both: the analysis cancels the two and may
  answer must alias for different addresses. `DifferenceAcrossReadings` says exactly when the
  difference is still right.
- BasicAA: a true answer of the constant-offset heuristic is right exactly when the accesses are clear of
  each other at each distance that the two indices can be apart (`DisjointIffClear`), which the scales,
  constants and sizes tell. That holds while the scaled range fits 2^64 (`RangeSuffices`) and at full
  width up to half the address space (`FullWidthSuffices`); it fails for some indices at every width and
  scale beyond the range (`HeuristicFailsBeyond`), and for every two indices when both sizes overflow with
  the base offset to at most the gap (`HeuristicFailsOnOverflow`).
- BasicAA: two accesses may belong to different iterations of a cycle, and then a variable may have two values.
  The oracle for this vouches for some variables; the difference of two index lists and the heuristic are right
  for two valuations that agree on these and on nothing else (`DifferenceAcrossCycles`, `HeuristicAcrossCycles`).
- BasicAA: an unknown size stands for every size (`ConstantAnswersHold`). In the difference of addresses alone it
  is the number 2^64 - 1, as in the code.
- BasicAA: the rule for non-negative terms does not ask for in-bounds pointers, and without them it is wrong
  for every 64-bit variable scaled by 2^k, k >= 1, that gets past the modulo test, but for a single byte at
  offset one (`PositiveRuleFails`; offset 4, scale 4 and two accesses of 4 bytes are such a case). It is right when the offset, the greatest value
  of the terms and the first size fit the address space (`InReach`), which the widths and scales tell.
  That is exact for independent variables scaled by less than the two sizes together (`InReachIff`)
  and for one variable scaled by any power of two (`PowerInReachIff`).
- BasicAA: a sign extension of a chain of operations, among them ors without common bits and further sign
  extensions, is decomposed right exactly when its multipliers have the same product read signed and unsigned,
  modulo the outer width, and its exact offset, wrapped to the outer width, fits the inner one (`KeptIsRight`,
  and `KeptIsNeeded` when the flags hold at two neighbouring values). Where some operation may have wrapped
  (no nsw flag, or a shift) nothing below it is looked through, and the form is always right (`WrappedIsRight`). With one multiplier the first condition is a clear sign bit; two negative
  ones are multiplied as if unsigned and can fail it as well, as -1 and -1 do from 8 to 16 bits.

## Model

| member | source | states |
|---|---|---|
| BrainFSource.EndingByCounting | src/examples/BrainF/BrainF.cpp:426-475 | a text parses to its end, to an extra `]` or to a missing `]` exactly as its bracket counts say |
| BrainFText.StepIsCommand | src/examples/BrainF/BrainF.cpp:13-22 | a character that is no bracket moves the reader on as its command does, or past it when it is a comment |
| BrainFText.ReaderIsReference | src/examples/BrainF/BrainF.cpp:13-22 | wherever reading a balanced text character by character stops, its command list has that outcome |
| BrainFText.ReaderDivergence | src/examples/BrainF/BrainF.cpp:13-22 | reading goes on for ever exactly when no fuel is enough for the command list |
| BrainFSource.CoalescePreserves | src/examples/BrainF/BrainF.cpp:344-380 | adding up runs of `+ -` modulo 256 and of `< >` changes no outcome, output, tape or head, with any amount of fuel |
| BrainFSource.CoalesceSeparates | src/examples/BrainF/BrainF.cpp:344-380 | after coalescing no two moves stand side by side |
| BrainFSource.CheckingIsExact | src/examples/BrainF/BrainF.cpp:246-276 | with bounds checks a program does the same as without, except that it traps at the first run of moves that ends off the tape |
| BrainFSource.MoreFuel | src/examples/BrainF/BrainF.cpp:192-476 | the reference interpreter's outcome does not depend on the fuel once there is enough |
| BrainFIR.StoppedStays | src/examples/BrainF/BrainF.cpp:131-190 | a run that has halted or become stuck stays so |
| BrainFLayout.FollowExtends | src/examples/BrainF/BrainF.cpp:292-316 | code already in place keeps its meaning while later code is appended around it |
| BrainFSimulation.SimulateMove | src/examples/BrainF/BrainF.cpp:246-276 | one move and its bounds test: the head moves and stays on the tape, or control leaves for the error block with no further access |
| BrainFSimulation.SimulateLoop | src/examples/BrainF/BrainF.cpp:426-466 | the test block, its phi and the back edge do what the loop does, iteration by iteration |
| BrainFSimulation.Simulate | src/examples/BrainF/BrainF.cpp:192-476 | the machine at a point with the source's view reaches the end point with the source's outcome, and runs as long as the fuel lasts when it does not end |
| BrainFCorrectness.CompilationPreserves | src/examples/BrainF/BrainF.cpp:53-63 | the compiled module gives the source's output and final tape for every input, or the error message and the end block when a run of moves leaves the tape |
| BrainFCorrectness.DivergencePreserved | src/examples/BrainF/BrainF.cpp:192-476 | the program diverges exactly when the source does |
| BrainFCorrectness.StopsAsTheSource | src/examples/BrainF/BrainF.cpp:192-476 | wherever the machine stops, the source stops there too, with the same outcome |
| BrainFCorrectness.CheckedIsSafe | src/examples/BrainF/BrainF.cpp:246-276 | with bounds checks no reachable state loads or stores outside the tape or uses an undefined register |
| BrainFCorrectness.UncheckedSticksOnlyOnFaults | src/examples/BrainF/BrainF.cpp:209-290 | without bounds checks the machine gets stuck exactly when the source accesses a cell off the tape |
| BrainFWellFormed.OpeningKeepsPhis | src/examples/BrainF/BrainF.cpp:292-310 | opening a loop keeps every phi in step with the actual predecessors |
| BrainFWellFormed.ClosingKeepsPhis | src/examples/BrainF/BrainF.cpp:432-465 | closing a loop completes the test's phi with its second predecessor and gives the exit's phi its only one |
| BrainFSingle.ClosingKeepsSingle | src/examples/BrainF/BrainF.cpp:432-465 | closing a loop defines three unused registers, each at one place |
| BrainFDominance.CompiledDominates | src/examples/BrainF/BrainF.cpp:192-476 | on every path from the entry block of a compiled module each used register, also by a phi, is defined earlier |
| BrainFDominance.UsesAreDominated | src/examples/BrainF/BrainF.cpp:192-476 | every use, also by a branch or a phi, has one definition in the module, which comes before it on every path from the entry |
| BrainFEmitter.BrainF.Header | src/examples/BrainF/BrainF.cpp:65-190 | the header allocates and clears the tape, puts the head in its middle, and builds the end and error blocks |
| BrainFEmitter.BrainF.EmitRead | src/examples/BrainF/BrainF.cpp:209-224 | appends the code of one read and nothing else, keeping the module well formed |
| BrainFEmitter.BrainF.EmitWrite | src/examples/BrainF/BrainF.cpp:226-244 | appends the code of one write |
| BrainFEmitter.BrainF.EmitMove | src/examples/BrainF/BrainF.cpp:246-276 | appends the code of a move and, in checked mode, its bounds test, going on in a new block |
| BrainFEmitter.BrainF.EmitChange | src/examples/BrainF/BrainF.cpp:278-290 | appends the code of a change, its amount reduced to 8 bits |
| BrainFEmitter.BrainF.OpenLoop | src/examples/BrainF/BrainF.cpp:294-310 | branches to a new test block with a half-finished phi and goes on in a new body block |
| BrainFEmitter.BrainF.CloseLoop | src/examples/BrainF/BrainF.cpp:432-465 | closes the loop and goes on in its exit block with a one-entry phi |
| BrainFEmitter.BrainF.NextSymbol | src/examples/BrainF/BrainF.cpp:320-423 | the lexer with lookahead delivers the next command of the coalesced list, whatever comments lie between |
| BrainFEmitter.BrainF.ReadLoop | src/examples/BrainF/BrainF.cpp:192-476 | compiles up to the end of the enclosing loop or of the text, and reports an extra or missing `]` exactly when there is one |
| BrainFCompiler.CompileText | src/examples/BrainF/BrainF.cpp:53-63 | compilation succeeds exactly on balanced texts; the module has matching phis, one terminator per block, one definition per register and dominating definitions, and for every input does what reading the text character by character does |
| BrainFCompiler.ShortTextsFit | src/examples/BrainF/BrainF.cpp:344-380 | in a text of fewer than 2^31 characters every coalesced move fits an int |
| CflGraph.AddEdgeKeepsWellFormed | src/lib/Analysis/CFLGraph.h:104-112 | adding an edge adds exactly that edge, in the forward and the reverse list |
| CflReach.ReachabilitySet.Insert | src/lib/Analysis/CFLAndersAliasAnalysis.cpp:142-151 | insertion adds one triple and tells whether it is new |
| CflReach.AliasMemSet.Insert | src/lib/Analysis/CFLAndersAliasAnalysis.cpp:179-184 | insertion adds one pair and tells whether it is new |
| CflReach.Propagate | src/lib/Analysis/CFLAndersAliasAnalysis.cpp:554-561 | a triple between distinct nodes is recorded, and enqueued exactly when it is new |
| CflReach.WalkStateMachine | src/lib/Analysis/CFLAndersAliasAnalysis.cpp:641-692 | records exactly the successors of one item under the seven-state machine |
| CflReach.PropagateNewAlias | src/lib/Analysis/CFLAndersAliasAnalysis.cpp:615-630 | a memory alias found late is combined with every state recorded for it earlier |
| CflSolver.ProcessWorkListItem | src/lib/Analysis/CFLAndersAliasAnalysis.cpp:594-692 | one item ends up fully processed, no processed item is undone, and nothing is recorded that is not forced |
| CflSolver.InitializeWorkList | src/lib/Analysis/CFLAndersAliasAnalysis.cpp:563-584 | the initial triples are those of the assignment edges, each enqueued once |
| CflSolver.Solve | src/lib/Analysis/CFLAndersAliasAnalysis.cpp:748-760 | the worklist ends, at the least relation closed under the rules, with every triple enqueued exactly once |
| CflGrammar.RecordedIffSpelled | src/lib/Analysis/CFLAndersAliasAnalysis.cpp:594-692 | a state is recorded for two nodes exactly when a grammar path using the edges that state stands for, and not returning to its start, joins them |
| CflGrammar.RecordedIffJoined | src/lib/Analysis/CFLAndersAliasAnalysis.cpp:594-692 | for distinct nodes, some state is recorded exactly when a path (M? reverse)* M? (assign M?)* joins them |
| CflGrammar.MemoryAliasIffRecordedAbove | src/lib/Analysis/CFLAndersAliasAnalysis.cpp:609-616 | two nodes are memory aliases exactly when the nodes one level above them are recorded |
| CflGrammar.MemIsSymmetric | src/lib/Analysis/CFLAndersAliasAnalysis.cpp:605-607 | the memory aliases are symmetric although inserted in one direction |
| CflGrammar.RecordedIsSymmetric | src/lib/Analysis/CFLAndersAliasAnalysis.cpp:605-607 | reachability with the state ignored is symmetric |
| CflQuery.StatesAreNotSymmetric | src/lib/Analysis/CFLAndersAliasAnalysis.cpp:402-402 | a graph with an assignment cycle where a state is recorded one way and not the other |
| CflMirror.RecordedIffSpelledBack | src/lib/Analysis/CFLAndersAliasAnalysis.cpp:402-402 | a state is recorded from u to v exactly when a grammar path from v to u, not passing through u on its way, has that state when taken backwards |
| CflMirror.ReadsMirrorWrites | src/lib/Analysis/CFLAndersAliasAnalysis.cpp:400-402 | unless two nodes are memory aliases, a read-only state is recorded for them one way exactly when a write-only state is recorded the other way |
| CflMirror.WritesAreNotReads | src/lib/Analysis/CFLAndersAliasAnalysis.cpp:402-402 | two memory aliases, one on an assignment cycle, with a write-only state one way and no read-only state the other |
| CflAttrs.AliasAttrMap.Add | src/lib/Analysis/CFLAndersAliasAnalysis.cpp:202-209 | adds attributes to one node and tells whether any is new |
| CflAttrs.ProcessAttrs | src/lib/Analysis/CFLAndersAliasAnalysis.cpp:711-732 | afterwards the node's attributes are at all its aliases and just below it, and every node that changed is queued |
| CflAttrs.CleanFlowsDown | src/lib/Analysis/CFLAndersAliasAnalysis.cpp:723-731 | stopping at the first changed level is enough: attributes still reach all levels below |
| CflAttrs.BuildAttrMap | src/lib/Analysis/CFLAndersAliasAnalysis.cpp:694-738 | the propagation ends, at the least assignment closed under flow to aliases and to all lower levels |
| CflOrigin.AttrsHaveOrigins | src/lib/Analysis/CFLAndersAliasAnalysis.cpp:694-738 | a node ends up with an attribute exactly when a chain of further dereferences and grammar paths leads to it from a node that has it in the graph |
| CflQuery.PopulateAliasMap | src/lib/Analysis/CFLAndersAliasAnalysis.cpp:342-361 | the alias list of a value holds exactly the top-level values recorded for it |
| CflQuery.PopulateAttrMap | src/lib/Analysis/CFLAndersAliasAnalysis.cpp:329-340 | every value of the graph gets its top-level attributes |
| CflQuery.MayAliasIsSymmetric | src/lib/Analysis/CFLAndersAliasAnalysis.cpp:479-552 | a query and its reverse answer alike although only the first argument's list is searched |
| CflQuery.MayAliasIffJoined | src/lib/Analysis/CFLAndersAliasAnalysis.cpp:479-552 | two distinct local values may alias exactly when a grammar path joins them |
| CflQuery.MayAliasIff | src/lib/Analysis/CFLAndersAliasAnalysis.cpp:479-552 | every answer: yes for a value without a node; if one may be anything or the caller's, yes exactly when the other has any attribute; if one is a global or an argument, yes exactly when both are; else yes exactly when a grammar path joins two distinct values |
| CflQuery.LocalQueryIff | src/lib/Analysis/CFLAndersAliasAnalysis.cpp:513-549 | for any alias lists, two local values may alias exactly when the first one's list has an entry for the second that overlaps it, or has one at all when a size is unknown |
| CflQuery.EntryOverlapsIff | src/lib/Analysis/CFLAndersAliasAnalysis.cpp:528-545 | for known sizes an entry at a known offset overlaps exactly when the two ranges share a byte, unless a size exceeds a signed 64-bit number |
| CflQuery.BuildInfoFrom | src/lib/Analysis/CFLAndersAliasAnalysis.cpp:740-768 | the function summary rests on the least relation and the least attributes, which are those with an origin; its queries are symmetric, and each answers as MayAliasIff says |
| CfgBackedges.FindFunctionBackedges | src/lib/Analysis/CFG.cpp:27-66 | the search ends; every reachable cycle uses a reported edge, each reported edge closes a real cycle, every reachable edge back to a dominator is reported, and nothing else is exactly when the graph is reducible |
| CfgBackedges.StackReaches | src/lib/Analysis/CFG.cpp:44-65 | each block on the search stack reaches those above it |
| CfgBackedges.SearchBreaksCycles | src/lib/Analysis/CFG.cpp:44-65 | without the reported edges every walk goes down in the order of finishing, so none is a cycle |
| CfgBackedges.NaturalAreReported | src/lib/Analysis/CFG.cpp:44-65 | a dominator finishes no earlier than the blocks it dominates, so an edge back to it is reported, whatever the successor order |
| CfgBackedges.ReportedIsNatural | src/lib/Analysis/CFG.cpp:44-65 | on a reducible graph an edge back onto a walk without repetitions goes to a dominator |
| CfgReachability.GetOutermostLoop | src/lib/Analysis/CFG.cpp:113-120 | following parents ends at the root of the loop's tree |
| CfgReachability.LoopContainsBoth | src/lib/Analysis/CFG.cpp:123-128 | true exactly when one outermost loop contains both blocks |
| CfgReachability.OutermostBlocks | src/lib/Analysis/CFG.cpp:113-120 | the blocks of an outermost loop are those whose outermost loop it is |
| CfgReachability.IsPotentiallyReachableFromMany | src/lib/Analysis/CFG.cpp:130-172 | false means that no path exists, also when the walk jumps from a loop to its exits, and that fewer than 32 blocks and their loops are all that is reached; true means a path, or 32 blocks reached without finding out |
| CfgReachability.IsPotentiallyReachable | src/lib/Analysis/CFG.cpp:186-236 | false means that the second instruction cannot follow the first; true means that it can, unless the walk gave up or the start is in the entry block and the other block unreachable; from the entry to another block the answer is true, and back to it false |
| BfiProbability.ProbabilityRounds | src/lib/Support/BranchProbability.cpp:39-49 | a probability is the fraction rounded to 1/2^31, at most one, and one for w of w |
| BfiProbability.ScaleIsExact | src/lib/Support/BranchProbability.cpp:67-108 | scaling in 32-bit digits is the exact floor of the 96-bit product divided, saturating at 2^64-1 |
| BfiDither.PortionIsProportional | src/lib/Analysis/BlockFrequencyInfoImpl.cpp:96-105 | a portion is its exact share of the remaining mass up to one unit and one part in 2^32 |
| BfiDither.PortionsConserve | src/lib/Analysis/BlockFrequencyInfoImpl.cpp:60-76 | the portions given by repeated takeMass sum to exactly the source mass |
| BfiDither.DitheringDistributer.TakeMass | src/lib/Analysis/BlockFrequencyInfoImpl.cpp:96-105 | takes one portion off weight and mass, and the last weight takes everything left |
| BfiWeights.CombineSaturates | src/lib/Analysis/BlockFrequencyInfoImpl.cpp:123-136 | combining two weights adds their amounts, saturating at 2^64-1 |
| BfiWeights.CombinationsAgree | src/lib/Analysis/BlockFrequencyInfoImpl.cpp:138-175 | any two combinations of permuted lists are the same multiset of weights |
| BfiCombine.CompactInPlace | src/lib/Analysis/BlockFrequencyInfoImpl.cpp:145-156 | compacting a sorted list in place leaves each target once with min(2^64-1, sum of its amounts) |
| BfiCombine.CombineWeightsBySorting | src/lib/Analysis/BlockFrequencyInfoImpl.cpp:138-157 | the sorting route yields a combination of the weights |
| BfiCombine.CombineWeightsByHashing | src/lib/Analysis/BlockFrequencyInfoImpl.cpp:159-175 | the hashing route yields a combination of the weights, whatever the table's order |
| BfiCombine.CombineWeights | src/lib/Analysis/BlockFrequencyInfoImpl.cpp:177-185 | so does the choice between them |
| BfiDistribution.Distribution.Add | src/lib/Analysis/BlockFrequencyInfoImpl.cpp:107-121 | the running total is the true sum modulo 2^64 and the flag tells whether it has overflowed |
| BfiScaling.ShiftRounds | src/lib/Analysis/BlockFrequencyInfoImpl.cpp:187-193 | shifting right and adding the last bit out is division rounded to nearest, halves up |
| BfiScaling.ShiftLeavesRoom | src/lib/Analysis/BlockFrequencyInfoImpl.cpp:211-219 | a total above 32 bits is shifted to exactly 31 bits |
| BfiScaling.CombinationTotal | src/lib/Analysis/BlockFrequencyInfoImpl.cpp:223-231 | combining never increases the total, and keeps it when the true sum fits 64 bits |
| BfiScaling.SaturationNeedsOverflow | src/lib/Analysis/BlockFrequencyInfoImpl.cpp:131-135 | combining saturates only after the 64-bit total has overflowed |
| BfiRoom.RoomSuffices | src/lib/Analysis/BlockFrequencyInfoImpl.cpp:214-248 | weights whose true sum and number of targets leave room fit 32 bits once normalised, whatever the weights are |
| BfiRoom.RoomIsNeeded | src/lib/Analysis/BlockFrequencyInfoImpl.cpp:248-248 | for every sum and number of targets without that room, some weights break the 32-bit assertion |
| BfiRoom.FewTargetsAreRoomy | src/lib/Analysis/BlockFrequencyInfoImpl.cpp:214-248 | a sum of 64 bits on up to 2^31 targets always leaves room |
| BfiRoom.ScaledFits | src/lib/Analysis/BlockFrequencyInfoImpl.cpp:234-248 | the scaled weights fit 32 bits exactly when the given ones do, counted per target, saturated, rounded and at least one |
| BfiDistribution.Distribution.Normalize | src/lib/Analysis/BlockFrequencyInfoImpl.cpp:195-249 | one positive weight per target, each the rounded share of its combined amount, with Total their exact sum; it is at most 2^32-1 exactly when the amounts given to each target, saturated, rounded and at least one, sum to that |
| BfiMassFlow.AddToDist | src/lib/Analysis/BlockFrequencyInfoImpl.cpp:268-328 | adds one weight to the given target, of the given amount or one, whose kind is decided by the target alone, and gives up exactly on a local edge against the node order from a non-header |
| BfiMassFlow.AddLoopSuccessorsToDist | src/lib/Analysis/BlockFrequencyInfoImpl.cpp:330-340 | the exits of a packaged loop become the weights of a distribution that never overflows twice |
| BfiMassFlow.ExitsCanBeDistributed | src/lib/Analysis/BlockFrequencyInfoImpl.cpp:330-340 | with at most the full mass on fewer than 2^31 exits, those weights have one kind per target and normalise within 32 bits |
| BfiMassFlow.DeliverAllConserves | src/lib/Analysis/BlockFrequencyInfoImpl.cpp:402-435 | never more than the distributed mass arrives at local nodes, backedge slots and exits, and exactly it arrives when no target saturates by its own portion, and only then |
| BfiMassFlow.DeliveredToTargets | src/lib/Analysis/BlockFrequencyInfoImpl.cpp:402-435 | each node and each backedge slot ends with the lesser of 2^64-1 and what it had plus the portions of the weights that name it, each exit is recorded for its own target with its own portion, in order, and all else stays |
| BfiMassFlow.BlockFrequencyInfo.DistributeMass | src/lib/Analysis/BlockFrequencyInfoImpl.cpp:402-435 | each node, backedge slot and exit receives the portions of the normalised weights that name it, and nothing else; the source's mass is added in total exactly when no target saturates by its own portion |
| BfiMassPass.AdmittedGoesOn | src/lib/Analysis/BlockFrequencyInfoImpl.cpp:303-325 | a local edge that is not given up on leads to a node later in the order of the pass, unless it is an edge to itself |
| BfiMassPass.ProbabilitiesFit | src/include/llvm/Analysis/BlockFrequencyInfoImpl.h:1198-1216 | 32-bit weights of fewer than 2^31 successors never overflow the 64-bit total |
| BfiMassPass.AdmittedIsForward | src/include/llvm/Analysis/BlockFrequencyInfoImpl.h:1198-1224 | the weights made of the admitted edges of a node, successors or exits, have one kind per target, fit 32 bits and go to nodes that come later |
| BfiMassPass.AdmittedPass | src/include/llvm/Analysis/BlockFrequencyInfoImpl.h:1198-1224 | so the weights of a whole pass over admitted edges meet what the passes ask for |
| BfiMassPass.MovingMassFits | src/lib/Analysis/BlockFrequencyInfoImpl.cpp:402-435 | while what moves is at most the full mass, no portion saturates its target |
| BfiMassPass.StepConserves | src/lib/Analysis/BlockFrequencyInfoImpl.cpp:402-435 | one node passes on all its mass: what is still moving or has left stays the same |
| BfiMassPass.FlowedOn | src/lib/Analysis/BlockFrequencyInfoImpl.cpp:402-435 | after one more node each node and backedge slot holds what it began with and all that has been sent it, and the exits are those recorded so far |
| BfiMassPass.StepFlows | src/include/llvm/Analysis/BlockFrequencyInfoImpl.h:1110-1119 | in a pass a node sends on what it finally holds: no later node adds to it |
| BfiMassPass.PropagateMassToSuccessors | src/include/llvm/Analysis/BlockFrequencyInfoImpl.h:1198-1224 | the weights of a node, added one by one, are normalised and its mass is delivered by them |
| BfiMassPass.PropagateInOrder | src/include/llvm/Analysis/BlockFrequencyInfoImpl.h:1110-1119 | over a pass nothing saturates: each node, backedge slot and exit ends with what it had and what the nodes before have sent it, each node by its own weights and final mass, and backedges, exits and nodes without successors end up with exactly the mass that was moving |
| BfiMassPass.SplitAmongHeaders | src/include/llvm/Analysis/BlockFrequencyInfoImpl.h:1098-1104 | the headers of an irreducible loop share exactly the full mass, each by an equal weight, and nothing else changes |
| BfiMassPass.ComputeMassInLoop | src/include/llvm/Analysis/BlockFrequencyInfoImpl.h:1094-1119 | before the header adjustment and the scale: the headers begin with equal weights' shares of the full mass, every node, backedge and exit ends with what has been sent it, and all of the full mass comes out at backedges, exits and nodes without successors |
| BfiMassPass.ComputeMassInFunction | src/include/llvm/Analysis/BlockFrequencyInfoImpl.h:1126-1143 | the entry begins with the full mass, every node ends with what has been sent it, and all of the full mass ends at nodes without successors |
| BfiMassFlow.AssignAllConserves | src/lib/Analysis/BlockFrequencyInfoImpl.cpp:792-800 | assigning portions to distinct headers leaves them with exactly the mass distributed |
| BfiMassFlow.AssignedPortion | src/lib/Analysis/BlockFrequencyInfoImpl.cpp:792-800 | each of several distinct headers ends up with its own weight's portion |
| BfiMassFlow.HeaderWeightsAre | src/lib/Analysis/BlockFrequencyInfoImpl.cpp:780-789 | the weights collected are the headers with backedge mass, each once, totalling the backedge mass |
| BfiMassFlow.BlockFrequencyInfo.AdjustLoopHeaderMass | src/lib/Analysis/BlockFrequencyInfoImpl.cpp:767-801 | the full mass is split by backedge mass among the headers that have some, each holding its own portion, and nothing else changes |
| BfiIrreducible.IrreducibleGraph.AddEdge | src/lib/Analysis/BlockFrequencyInfoImpl.cpp:616-627 | an edge inside the graph and not to an outer header enters the source's successors and the target's predecessors |
| BfiIrreducible.IrreducibleGraph.PredsMatchSuccs | src/lib/Analysis/BlockFrequencyInfoImpl.cpp:616-627 | after any additions the successor and predecessor lists of the nodes describe the same edges |
| BfiIrreducible.FindIrreducibleHeaders | src/lib/Analysis/BlockFrequencyInfoImpl.cpp:646-711 | the sorted headers are exactly the nodes entered from outside or against the node order from a non-entry, the sorted others the rest |
| BfiIrreducible.HeadersPartition | src/lib/Analysis/BlockFrequencyInfoImpl.cpp:646-711 | headers and others partition the component, and every node entered from outside is a header |
| BfiIrreducible.OthersIff | src/lib/Analysis/BlockFrequencyInfoImpl.cpp:646-711 | a node of the component is no header exactly when all its predecessors are in the component and each is earlier or itself entered from outside |
| BfiIrreducible.OthersGoUp | src/lib/Analysis/BlockFrequencyInfoImpl.cpp:683-703 | edges between others go up in the node order |
| BfiIrreducible.CyclesPassHeaders | src/lib/Analysis/BlockFrequencyInfoImpl.cpp:641-645 | every cycle inside the component passes through a chosen header |
| BfiIrreducible.OrderDoesNotMatter | src/lib/Analysis/BlockFrequencyInfoImpl.cpp:651-656 | the outcome does not depend on the order in which the component is visited |
| BaaBits.LowestSetBitIs | src/lib/Analysis/BasicAliasAnalysis.cpp:1326-1326 | x ^ (x & (x - 1)) is the power of two of x's trailing zeros |
| BaaBits.DisjointOrAdds | src/lib/Analysis/BasicAliasAnalysis.cpp:239-248 | without common bits an or is a sum |
| BaaLinear.ApplyIsLinear | src/lib/Analysis/BasicAliasAnalysis.cpp:249-284 | add, sub, mul and shl by a constant map a linear form to the linear form of the exact result, modulo any width up to the outermost |
| BaaLinear.LinearFormHolds | src/lib/Analysis/BasicAliasAnalysis.cpp:200-339 | at every cut-off depth a value without sign extensions is Scale*V + Offset modulo its own width, and modulo the outermost width while NUW survives |
| BaaLinear.DecompositionPreservesValue | src/lib/Analysis/BasicAliasAnalysis.cpp:200-339 | the value decomposed equals Scale*zext(V) + Offset modulo its width, and the bits extended add up |
| BaaStructure.Structure | src/lib/Analysis/BasicAliasAnalysis.cpp:200-339 | for every value and depth, told from opcodes, flags and depth: where the decomposition stops, which of NSW and NUW survive, and how many bits of each extension are recorded |
| BaaStructure.ConstantIsOffset | src/lib/Analysis/BasicAliasAnalysis.cpp:214-223 | a constant becomes all offset, without a scale |
| BaaStructure.ExtensionStops | src/lib/Analysis/BasicAliasAnalysis.cpp:291-333 | an extension of what may have wrapped in its own sense keeps the value extended, with scale 1, offset 0 and the bits of the extension |
| BaaStructure.LooksSixDeep | src/lib/Analysis/BasicAliasAnalysis.cpp:207-212 | of n nested additions exactly the outer six are looked through |
| BaaLinear.SignExtensionLosesNegativeScales | src/lib/Analysis/BasicAliasAnalysis.cpp:300-318 | sext(-x) is decomposed as 255*sext(x), which differs |
| BaaLinear.SignExtensionTakenForZeroExtension | src/lib/Analysis/BasicAliasAnalysis.cpp:319-331 | a sign extension above a zero extension and an addition is decomposed as a zero extension, which differs |
| BaaLinear.SignExtensionWrapsOffsets | src/lib/Analysis/BasicAliasAnalysis.cpp:303-307 | sext(x + 100 + 100) with both additions nsw is decomposed with offset -56, which differs |
| BaaSignExtend.ChainIsExact | src/lib/Analysis/BasicAliasAnalysis.cpp:249-284 | a chain of additions, subtractions, multiplications, ors without common bits and sign extensions whose nsw flags hold is its signed linear form over the integers |
| BaaSignExtend.SignExtensionAt | src/lib/Analysis/BasicAliasAnalysis.cpp:300-318 | a sign extension of such a chain equals Scale*sext(V) + Offset at a value of V exactly when what scale and offset are off by cancels there |
| BaaSignExtend.SignExtendedChain | src/lib/Analysis/BasicAliasAnalysis.cpp:300-318 | the sign extension of a chain is decomposed to where the chain stops, with scale and offset exact modulo the outer width exactly when the chain's constants, read signed and unsigned, say so |
| BaaSignExtend.KeptIsRight | src/lib/Analysis/BasicAliasAnalysis.cpp:300-318 | when the product of the multipliers is the same signed and unsigned and the wrapped exact offset fits the inner width, the decomposition is right at every value for which the flags hold |
| BaaSignExtend.KeptIsNeeded | src/lib/Analysis/BasicAliasAnalysis.cpp:300-318 | when the flags hold at two neighbouring values, it is right at both exactly on that condition |
| BaaSignExtend.OneMultiplier | src/lib/Analysis/BasicAliasAnalysis.cpp:303-307 | with one multiplication in the chain the scale is kept exactly when the multiplier, read signed, is not negative |
| BaaSignExtend.SumsFitIff | src/lib/Analysis/BasicAliasAnalysis.cpp:303-307 | with additions and subtractions only, it is right exactly when the constants add up to a number that fits the inner width |
| BaaSignExtend.WrappedIsRight | src/lib/Analysis/BasicAliasAnalysis.cpp:300-331 | a sign extension of something that may have wrapped keeps that as its variable and is decomposed right for all values |
| BaaSignExtend.SignedFormHolds | src/lib/Analysis/BasicAliasAnalysis.cpp:200-339 | at every cut-off depth a value without zero extensions on the way, whatever operations may have wrapped and however sign extensions are nested, is Scale*sext(V) + Offset modulo its own width when the chains under its sign extensions keep their constants |
| BaaSignExtend.SignAfterZeroExtension | src/lib/Analysis/BasicAliasAnalysis.cpp:319-331 | a sign extension above a zero extension is decomposed right exactly when the value extended has its sign bit clear |
| BaaSignExtend.SignAfterWrappedZeroExtension | src/lib/Analysis/BasicAliasAnalysis.cpp:319-331 | the same above a zero extension of something that may have wrapped, which is kept as the variable |
| BaaMixed.MixedFormHolds | src/lib/Analysis/BasicAliasAnalysis.cpp:200-339 | with zero and sign extensions nested in any order a value is its linear form, the variable sign-extended before it is zero-extended, when each sign extension is of where the decomposition stops or extends a clear sign bit above a zero extension |
| BaaDifference.IndexList.GetIndexDifference | src/lib/Analysis/BasicAliasAnalysis.cpp:1704-1738 | the list edited in place is the difference of the two lists under the cycle oracle |
| BaaDifference.DifferenceValue | src/lib/Analysis/BasicAliasAnalysis.cpp:1704-1738 | the difference's linear value is the first minus the second modulo 2^64 for all values of the recorded variables, whatever the cycle oracle says |
| BaaDifference.DifferenceKeepsCanonical | src/lib/Analysis/BasicAliasAnalysis.cpp:1723-1736 | each variable stays listed once and no scale becomes zero |
| BaaDifference.NothingLeftIff | src/lib/Analysis/BasicAliasAnalysis.cpp:1723-1736 | nothing is left exactly when the two lists have the same value for all values of the recorded variables |
| BaaDifference.DifferenceAcrossCycles | src/lib/Analysis/BasicAliasAnalysis.cpp:1718-1736 | for two valuations that agree on the variables the cycle oracle vouches for, the difference, each entry valued for the pointer it came from, is the first list minus the second |
| BaaDifference.DifferenceListsOnce | src/lib/Analysis/BasicAliasAnalysis.cpp:1718-1736 | whatever the oracle says, a variable it vouches for stays listed once and no scale becomes zero |
| BaaRanges.DisjointIff | src/lib/Analysis/BasicAliasAnalysis.cpp:1328-1335 | when two byte ranges of a wrapping address space share no byte, in terms of their distance |
| BaaAliasGep.AliasByOffsets | src/lib/Analysis/BasicAliasAnalysis.cpp:1258-1351 | the rules at the end of aliasGEP, scales and signs gathered in one pass |
| BaaAliasGep.VariablesVanish | src/lib/Analysis/BasicAliasAnalysis.cpp:1291-1326 | the variable part of an address is zero modulo the lowest set bit of all scales |
| BaaAliasGep.ModuloTestIsSound | src/lib/Analysis/BasicAliasAnalysis.cpp:1326-1335 | a passed modulo test means disjoint ranges for all variable values |
| BaaAliasGep.ModuloTestIsExact | src/lib/Analysis/BasicAliasAnalysis.cpp:1326-1335 | when the test fails for non-empty known sizes, some variable values make the ranges overlap |
| BaaAliasGep.MustAliasIsExact | src/lib/Analysis/BasicAliasAnalysis.cpp:1252-1259 | without variables the addresses are the same exactly when the offset is zero |
| BaaAliasGep.ConstantOffsetIsExact | src/lib/Analysis/BasicAliasAnalysis.cpp:1261-1288 | a partial alias is an overlap; no alias is disjointness exactly as long as the higher access does not come around the address space |
| BaaAnswers.ConstantAnswers | src/lib/Analysis/BasicAliasAnalysis.cpp:1261-1288 | a constant offset other than zero gets may alias exactly when the second size is unknown, or the first and the offset is negative; else partial alias exactly when the lower access reaches the start of the higher, and no alias exactly when not |
| BaaAnswers.ConstantAnswersHold | src/lib/Analysis/BasicAliasAnalysis.cpp:1261-1288 | a definite answer is right for every size an unknown one may stand for, no alias exactly as long as the higher access does not come around |
| BaaPositive.AllPositiveIsExact | src/lib/Analysis/BasicAliasAnalysis.cpp:1337-1341 | for given values of non-negative terms the accesses are disjoint exactly when the wrapped sum is clear of the second access, and for a sum in the address space when the first does not run past its end |
| BaaAnswers.PositiveIff | src/lib/Analysis/BasicAliasAnalysis.cpp:1303-1324 | a term counts as positive exactly when no value of its variable that the known bits allow makes it negative, in any order of extension |
| BaaPositive.InReachSuffices | src/lib/Analysis/BasicAliasAnalysis.cpp:1337-1341 | when offset, greatest terms and first size fit the address space, the rule is right for every value the signs allow |
| BaaPositive.InReachIff | src/lib/Analysis/BasicAliasAnalysis.cpp:1337-1341 | for independent variables scaled by less than the two sizes together, it is right for all values exactly then |
| BaaAliasGep.PowerInReachIff | src/lib/Analysis/BasicAliasAnalysis.cpp:1326-1341 | for one variable scaled by a power of two the answer is right for all values exactly when the modulo test passes or those three fit |
| BaaAliasGep.PositiveRuleFails | src/lib/Analysis/BasicAliasAnalysis.cpp:1337-1341 | a non-negative 64-bit variable scaled by 2^k, k >= 1, past the modulo test: no alias although some value makes the accesses overlap |
| BaaAliasGep.NoAliasIsSound | src/lib/Analysis/BasicAliasAnalysis.cpp:1290-1345 | no alias from any of the variable-offset rules means no shared byte for all variable values; the conditions of the two inexact rules can be told before the values and are asked for only where those rules decide |
| BaaAnswers.VariableAnswers | src/lib/Analysis/BasicAliasAnalysis.cpp:1290-1351 | with variables the answer is no alias exactly when both accesses fit the offset's residue for known sizes, or every term counts as positive and the second access fits below the offset, or the heuristic says so; else may alias |
| BaaExtension.WrappedDifference | src/lib/Analysis/BasicAliasAnalysis.cpp:1777-1783 | two equal forms plus constants, extended in any of the ways the bit counts admit, differ by one of at most six distances, told by the constants and by what the scale reaches |
| BaaExtension.DistanceArises | src/lib/Analysis/BasicAliasAnalysis.cpp:1777-1783 | each of these distances arises for some values of the right residue |
| BaaExtension.ExtensionOrderIsLost | src/lib/Analysis/BasicAliasAnalysis.cpp:459-471 | the indices zext(sext(x)) and zext(x), each sign-extended to pointer size, are recorded alike and cancel in the difference; the addresses are equal exactly when the sign bit of x is clear or the scale hides it |
| BaaExtension.DifferenceAcrossReadings | src/lib/Analysis/BasicAliasAnalysis.cpp:1704-1738 | when the two lists were extended in different orders, the difference is the first minus the second exactly when the second has the same value under both orders |
| BaaExtension.ReadingsAgree | src/lib/Analysis/BasicAliasAnalysis.cpp:1704-1738 | it has when each of its variables is extended alike or has its sign bit clear |
| BaaHeuristic.ClearIsSound | src/lib/Analysis/BasicAliasAnalysis.cpp:1740-1792 | two indices of one form keep the accesses disjoint for every value of the variables when they are clear of each other at each distance |
| BaaHeuristic.ClearAcrossCycles | src/lib/Analysis/BasicAliasAnalysis.cpp:1740-1792 | the same for two indices in different iterations of a cycle, as far as the oracle vouches for the variable they share |
| BaaHeuristic.ClearIsNeeded | src/lib/Analysis/BasicAliasAnalysis.cpp:1740-1792 | with a free variable of any scale, not being clear at one distance means that some value makes the accesses overlap |
| BaaHeuristic.DisjointIffClear | src/lib/Analysis/BasicAliasAnalysis.cpp:1740-1792 | so for all values of a free variable the accesses are disjoint exactly when they are clear at each distance |
| BaaHeuristic.HeuristicIsSound | src/lib/Analysis/BasicAliasAnalysis.cpp:1740-1792 | a true answer means disjoint accesses for every value of the variables when they are clear at each distance, the exact condition above |
| BaaHeuristic.HeuristicAcrossCycles | src/lib/Analysis/BasicAliasAnalysis.cpp:1740-1792 | and so does a true answer not rest on a variable that the oracle does not vouch for |
| BaaAnswers.MinDiffIsLeast | src/lib/Analysis/BasicAliasAnalysis.cpp:1777-1785 | the difference compared with is the least distance from zero of all that the two indices can be apart at their width |
| BaaAnswers.HeuristicIff | src/lib/Analysis/BasicAliasAnalysis.cpp:1740-1792 | for two indices of one form the answer is true exactly when both sizes are known and each, with the offset, fits the bytes of that distance, modulo 2^64 |
| BaaHeuristic.NeighboursOfOneForm | src/lib/Analysis/BasicAliasAnalysis.cpp:1752-1775 | i + c and i are recognised as one form with offsets c and 0, whatever the flags and extensions |
| BaaAnswers.NeighboursDoNotAlias | src/lib/Analysis/BasicAliasAnalysis.cpp:1343-1345 | a[i + c] and a[i] get no alias whenever both accesses and the offset fit the distance between them, the short way round |
| BaaHeuristic.RangeSuffices | src/lib/Analysis/BasicAliasAnalysis.cpp:1784-1791 | they are clear when the bytes compared with leave room for both sizes and the scaled range of the extended variable fits 2^64 |
| BaaHeuristic.FullWidthSuffices | src/lib/Analysis/BasicAliasAnalysis.cpp:1784-1791 | at 64 bits they are clear for every scale when those bytes are at most half the address space |
| BaaHeuristic.HeuristicFailsBeyond | src/lib/Analysis/BasicAliasAnalysis.cpp:1784-1785 | for every width and scale beyond 2^64 some indices get a true answer although the accesses overlap |
| BaaHeuristic.OverflowIsNotClear | src/lib/Analysis/BasicAliasAnalysis.cpp:1790-1791 | whenever a size overflows with the base offset and some distance lies on the same side, the accesses are not clear there |
| BaaHeuristic.HeuristicFailsOnOverflow | src/lib/Analysis/BasicAliasAnalysis.cpp:1790-1791 | for every two indices of one form, sizes that both overflow with the offset to at most the gap get a true answer although the accesses overlap wherever they are |
| BaaHeuristic.OverflowingSizes | src/lib/Analysis/BasicAliasAnalysis.cpp:1790-1791 | such sizes exist for every two indices of one form and every offset of at least two bytes |

## Left out

- BaaLinear.LinearFormHolds: not for sign extensions, for which the code's result is not always the value; `BaaSignExtend` says when it is for sign extensions nested in one another, and `BaaMixed` for both kinds nested, except for operations on constants under a sign extension that a zero extension extends again.
- BaaHeuristic.HeuristicIsSound: its condition is shown needed for a variable as wide as the index; for one that was zero-extended within the index it is sufficient.
- BaaAliasGep.NoAliasIsSound: its condition on non-negative terms is shown needed for variables scaled by less than the two sizes together and for one scaled by a power of two; for others it is sufficient.
- BfiMassPass.ComputeMassInLoop: a successor that is given up on ends the source's pass; the model's passes are those that run to their end.
- BasicAA: `DecomposeGEPExpression`, object sizes, struct fields, phi, select, attribute and call-site rules, and recursion into other analyses; known bits are an oracle.
- BasicAA: pointers narrower than 64 bits and integer types wider than 64 bits.
- CFL: graph construction from a function, summaries at call sites, `populateExternalRelations`, known field offsets, caching and eviction.
- CFL and mass: hash maps are maps and sets, iterated in an arbitrary order; `std::sort` and `equal_range` are library code and stand as their specifications.
- Mass: `Scaled64` floating point, conversion to integer frequencies, loop unwrapping and packaging, profile counts; the node a packaged loop stands for is taken as resolved.
- CFG: how `LoopInfo` and `DominatorTree` are computed, edge criticality and successor numbers.
- BrainF: names of values, bitcode output, the JIT and the driver.
- The 2003f backend named in the repository's README: its source is not part of this model.
