# A model of the optimizer's analyses and of its register compression

The repository is a small optimizing back end for JerryScript byte code. It cuts a function into
basic blocks, computes dominators and liveness, builds live intervals, maps the intervals to as few
registers as possible by linear scan, and then renumbers operands and literals in place. This project
models these passes in Dafny and proves what each of them computes, and what they compute together.

`dafny verify dfyconfig.toml` checks the whole project.

## How the model is laid out

| file | part of the program |
|---|---|
| `Paths.dfy` | graphs as sets of edges between block numbers: paths, dominance, bypassing a node |
| `IR.dfy` | instructions, basic blocks with their mirrored edge lists, live intervals |
| `ControlFlow.dfy` | leaders, dead code and block edges against instruction-level stepping |
| `ControlFlowAnalysis.dfy` | the pass that finds leaders, cuts blocks and draws edges |
| `Dominators.dfy`, `ImmediateDominators.dfy` | the dominator fixpoint and the elimination of candidates |
| `Liveness.dfy`, `LiveRanges.dfy` | the live-out fixpoint and the one-pass interval builder |
| `LinearScan.dfy` | sorting, the active list, the last-in-first-out pool, the mapping |
| `RegisterByLifetime.dfy` | which register the scan hands out, told from starts and ends alone |
| `Renaming.dfy` | the chain of substitutions, and when renaming keeps the meaning of any run |
| `AllocatedBlocks.dfy` | what the allocator's renaming does to a block that its intervals cover |
| `Runs.dfy` | runs through the blocks of a function: what live-out means for them, when all of them keep their meaning |
| `Rewriter.dfy` | the rewriting in place |
| `Literals.dfy`, `LiteralCodec.dfy` | literal classes and bounds, the byte encoding of indices |
| `RegisterCompression.dfy` | the register pass from live ranges to rewritten instructions, and what it means for one block |
| `LostMeaning.dfy` | functions whose meaning the pass loses |
| `EndToEnd.dfy` | control-flow analysis followed by dominators, immediate dominators and liveness |
| `Counting.dfy`, `Wrappers.dfy` | finite sets and sequences, an option type |

The objects that the passes update are classes with the same fields; the passes are methods that
update them. Each method is proved against a description on plain values: a set of edges, a family
of sets, a list of intervals. What the program promises is then proved about those values. Ghost
parameters such as `u` (all blocks), `e` (the graph they draw), `cuts` (the positions of the leaders)
or `doms` (the sets currently held) name the values; they do not influence what is computed.

## What holds, and where the code falls short

The proofs describe the code as it is. Where the expected property fails, the exact condition under
which it holds is proved, next to an input on which it fails.

* **Control flow.** `findLeaders` passes over a jump in first position. Call the block graph exact if
  control enters blocks only at their first instruction, edges are the steps from the last live
  instruction of a block to the first of another, and what executes is what is not dead and lies in a
  block that can be reached. It is exact if and only if what the first jump leads to is a leader for
  another reason (`ExactIffFirstJumpCovered`, `FirstJumpExample`). Edges and reachability alone are right
  in one more case: a conditional first jump rejoins, at a live instruction, the block of the second
  instruction (`EdgesAndReachabilityIff`, `RejoiningExample`). `computeDominators` dereferences the first
  predecessor of each block but the first; the built blocks have one if and only if every leader but
  the first is entered from a block (`FlowGraphIffNoOrphans`) which, on an exact graph, means stepped to
  by an instruction that is not dead (`NoOrphansIff`). A target that only dead jumps lead to breaks this
  (`OrphanExample`).
* **Dominators.** The in-place sweeps with the one-sided change test compute exactly the dominators.
  The search for the immediate dominator of a block ends if and only if the block has a nearest strict
  dominator (`EliminationEndsIff`). Every block that can be reached has one, because strict dominators
  form a chain. A block that cannot be reached has one if and only if another block cannot be reached
  either or some other block is dominated by all the rest (`UnreachableHasNearestIff`); otherwise the
  loop runs forever, as it does on a program of six instructions (`EndlessEliminationExample`). If all
  blocks can be reached, every search ends and the links form the dominator tree (`FindDominatorTree`).
  Through the block graph all this says which first instructions every execution has passed.
* **Liveness.** The equation takes the block's own exposed registers where textbooks take those of
  the successors. The theory is proved for any generating sets; for the equation as written the
  solution is characterised by paths. `PassIsTextbookIff` says, in terms of the flow graph and the kill
  and exposed sets, when both agree. On the blocks that control-flow analysis builds, only the end block
  leads nowhere (`EveryBlockHasSuccessor`), so that what can be missed are registers that a block both
  exposes and kills (`LivenessIsTextbookIff`, `UsedThenKilledIsMissed`). On decoded instructions these are
  all that a block kills, because a written register is listed among those read (`DecodedKillIsExposed`),
  and live-out by the textbook means mentioned further on (`LiveMeansMentionedAhead`). For runs through
  the blocks, textbook live-out is exactly what some run still asks for (`Runs.LiveOutMeaning`), and the
  collected sets are those of the blocks' code, so that the same condition decides when the pass finds just
  that (`CollectedSummarise`, `LiveOutIsAskedForIff`).
* **Allocation.** The mapping is non-interfering, dense and uses as many registers as the largest
  clique of conflicting intervals, capped by the registers at hand. The scan stops at the first interval
  at whose start all registers are taken, a point interval included. The pool is last in, first out: an
  interval takes the free register that was released last (`ReleasedBeforeMeaning`). So, unless two live intervals start and end
  together and leave the order of the sort open, the mapping is a function of the starts and ends of the
  sorted intervals (`MappingFollowsLifetimes`, `ScanIsMapping`). Point intervals are skipped and keep
  their old number, so a register operand can stay above the new bound (`RenamedRegisterIsBelowIff`,
  `PointIntervalEscapes`).
* **Rewriting.** Substituting interval after interval equals applying the mapping once if and only if
  no interval is given a register that a later one renames (`SequenceIsMappingIffChainFree`,
  `ChainCanRenameTwice`). With ascending old numbers this always holds.
* **Meaning.** For any renaming, and for the trace of any run, through several blocks or one, the same
  values are read and left behind, whatever the instructions compute, if and only if no value that is
  still asked for is overwritten by a write to another register that is renamed to the same one
  (`RenamingPreservesMeaningIff`). The two register files are related by the renaming on entry. If
  they are the same, every register read from before must keep its number as well
  (`RenamingInPlacePreservesMeaningIff`, `MovedArgumentExample`). A run keeps its meaning exactly when
  each of its blocks does for what the rest of the run needs (`RunPreservesMeaningIff`).
* **Meaning, under the allocator.** If a block's accesses lie in their intervals, only one thing can go
  wrong: the block opens with a dead write, whose interval ends at offset 0 and is expired at once, and
  its register is handed to one that the block still needs from before
  (`AllocationPreservesMeaningIff`, `DeadFirstWriteExample`). For a function of several blocks whose
  intervals cover each block with what is live out of it, all runs keep their meaning if and only if no
  block that can be reached opens like that (`AllRunsKeepMeaningIff`). The builder passes over the
  instructions once, in order, and does not see back edges, so that a loop need not be covered: a value
  from before the loop, read early in its body, loses its register to one written later in the body
  (`LoopExample`).
* **Meaning, from the builder on.** The interval builder does not record the reads of instructions that
  write a register, and point intervals are not allocated. Take a function of one block whose registers
  each get one interval, that is, are written only where the builder meets them first
  (`BuiltAtMostOnceIff`), and whose mapping is chain free. A read is unsafe if another register is
  written between the value and the read, and either the read is by an instruction that writes and no
  later recorded read finds the same value, or the write in between is the first instruction and is never
  read. Without unsafe reads builder, allocator and rewriter together keep the meaning, whatever
  registers are handed out (`SafeBlockKeepsMeaning`). With them they keep it if and only if the registers
  concerned get different numbers by the starts and ends of the intervals, provided no two live intervals
  start and end together (`OneBlockKeepsMeaningIff`). `CompressOneBlock` runs the three passes on the
  blocks and ends with these statements about the rewritten instructions. Both kinds of unsafe read do
  lose a value (`MissedReadExample`, `LostEntryExample`).
* **Literals.** The bound of the arguments does not move with the others, so literal classes are kept
  if and only if the arguments still fit below the new register bound (`MovedLiteralsKeepClassIff`,
  `ArgumentsCanSwallowIdent`).
* **Codec.** The encoder chooses the form by index and not by mode. In full encoding indices from 128
  to 510 do not survive a round trip; all others do (`RoundTripIff`, `MiddleRangeExample`).

## Assumptions

* Decoded instructions are contiguous, their jumps lead to instructions, a conditional jump is a jump
  and never the last instruction (`ControlFlow.WellFormed`). `BRANCH_IF_NULLISH` sets only the
  conditional flag (src/inst.cpp:991-994) and is outside this assumption. Return and throw fall
  through, as they do in the code.
* Block numbers are unique within a function. `removeSuccessor` is called for an edge that exists,
  because its pointer is uninitialised otherwise (src/basic-block.cpp:63-78); `removeEmpty` is called
  for a block without a self-loop, because it grows the lists it traverses otherwise.
* Byte maximum 255, small maximum 510, full maximum 32767, decoding limits 255 and 128, deltas 0xfe01
  and 0x8000, masks 0x7f and 0x80 are JerryScript's constants; their definitions are not part of this
  model.
* `std::sort` and the unordered containers are known by their contract only: results hold for every
  order of ties and every order of traversal. Erasing from a set while traversing it
  (src/dominator-analysis.cpp:114-118) is taken as filtering.
* Offsets and block numbers are unbounded; literal indices and bounds are 16-bit with wrap-around.

## Model

| member | source | states |
|---|---|---|
| IR.BasicBlock.AddIns | src/basic-block.cpp:11-15 | the instruction is last in the block and belongs to it |
| IR.BasicBlock.AddPredecessor | src/basic-block.cpp:17-21 | both lists grow by one edge and stay mirror images, multiplicities included |
| IR.BasicBlock.AddSuccessor | src/basic-block.cpp:23-27 | both lists grow by one edge and stay mirror images |
| IR.BasicBlock.RemovePredecessor | src/basic-block.cpp:29-61 | deletes all edges from that block on both sides and no others; reports whether there were any; lists stay mirrored |
| IR.BasicBlock.RemoveSuccessor | src/basic-block.cpp:63-95 | the same for an edge to a block |
| IR.BasicBlock.RemoveAllPredecessors | src/basic-block.cpp:102-111 | terminates despite restarting; no edge to the block is left anywhere, all other edges stay |
| IR.BasicBlock.RemoveAllSuccessors | src/basic-block.cpp:113-123 | terminates despite restarting; no edge from the block is left anywhere, all other edges stay |
| IR.BasicBlock.Remove | src/basic-block.cpp:97-100 | the drawn graph loses exactly the edges at the block |
| IR.BasicBlock.RemoveEmpty | src/basic-block.cpp:132-144 | the block is isolated and the drawn graph is the old one with the block bypassed; any other block's successors are followed by two edges to each successor of the block for every edge it had to the block |
| Paths.BypassKeepsReachability | src/basic-block.cpp:132-144 | bypassing a block leaves reachability between all other blocks as it was |
| IR.WithoutCounts | src/basic-block.cpp:32-43 | erasing by number removes every edge to that number and changes no other multiplicity |
| IR.WithoutKeepsOrder | src/basic-block.cpp:32-43 | what stays, stays in order |
| IR.MoveInsns | src/basic-block.cpp:151-161 | erasing while traversing moves exactly the instructions from the offset on, in order, and they know their new block |
| IR.SplitKeepsAll | src/basic-block.cpp:150-161 | the two halves together hold every instruction as often as before |
| IR.SplitByOffset | src/basic-block.cpp:150-161 | the instructions from the offset on are those that move |
| IR.SplitKeepsOrder | src/basic-block.cpp:150-161 | both halves keep the order |
| IR.SplitOfSortedIsCut | src/basic-block.cpp:146-161 | on a block in offset order the two halves together are the old instruction list |
| IR.Split | src/basic-block.cpp:146-175 | the second half takes over all successors, two edges to each, and becomes the only successor of the first, by two edges; nothing changes if it stays empty; lists stay mirrored |
| Paths.SplitKeepsReachability | src/basic-block.cpp:163-174 | if the second half is a new block, reachability between the other blocks stays as it was, and the second half is reached where the first was |
| ControlFlow.LiveWithinBlock | src/control-flow-analysis.cpp:97-115 | from a block's first instruction control can reach each of its live instructions without leaving the block |
| ControlFlow.CoveredEntersAtLeaders | src/control-flow-analysis.cpp:43-76 | control leaves a block only at its exit and enters blocks only at their first instruction |
| ControlFlow.EdgesFollowSteps | src/control-flow-analysis.cpp:123-162 | a block edge is a step from the last live instruction of one block to the first of another, in both directions |
| ControlFlow.ReachabilityFollows | src/control-flow-analysis.cpp:85-162 | an instruction can execute exactly when it is not dead and its block can be reached |
| ControlFlow.ExactIffFirstJumpCovered | src/control-flow-analysis.cpp:43-162 | control enters blocks only at leaders, edges are steps between blocks and reachability agrees, all three, if and only if a jump in first position leads to leaders |
| ControlFlow.EdgesAndReachabilityIff | src/control-flow-analysis.cpp:43-162 | the last two alone, if and only if it does or is conditional and rejoins the block of the second instruction at a live one |
| ControlFlow.RejoiningExample | src/control-flow-analysis.cpp:50-57 | a program whose first jump is not covered, with right edges and reachability |
| ControlFlow.FirstJumpExample | src/control-flow-analysis.cpp:50-57 | a program on which passing over the first jump makes the graph inexact |
| ControlFlow.DominanceIsExecutionDominance | src/control-flow-analysis.cpp:85-162 | dominance among blocks is dominance among their first instructions in executions |
| ControlFlowAnalysis.FindLeaders | src/control-flow-analysis.cpp:43-83 | the leaders are exactly the first instruction and, for each later jump, the instruction at its offset plus branch offset and, if it is conditional, the one after it; in offset order |
| ControlFlowAnalysis.SortByOffset | src/control-flow-analysis.cpp:73-78 | a set of instructions becomes an ascending list of the same instructions |
| ControlFlowAnalysis.DeadIffJumpFound | src/control-flow-analysis.cpp:96-114 | the flag of the loop is set exactly when the instruction is dead |
| ControlFlowAnalysis.AddInstruction | src/control-flow-analysis.cpp:105-110 | the instruction joins the current block and is marked if and only if it is dead |
| ControlFlowAnalysis.BeginBlock | src/control-flow-analysis.cpp:99-103 | at the next leader the current block is complete and a fresh one begins |
| ControlFlowAnalysis.CutBlocks | src/control-flow-analysis.cpp:85-115 | each block holds the instructions from its leader to the next one, which know it; exactly the dead ones are marked |
| ControlFlowAnalysis.BuildBlocks | src/control-flow-analysis.cpp:85-121 | start and end block frame the blocks; only the edges from the start and to the end are drawn yet |
| ControlFlowAnalysis.ExitAt | src/control-flow-analysis.cpp:129-149 | a block's first jump, or without one its last instruction, is its last live instruction |
| ControlFlowAnalysis.ExitIsUnique | src/control-flow-analysis.cpp:129-149 | a block is left from one instruction only |
| ControlFlowAnalysis.JumpNeighbours | src/control-flow-analysis.cpp:131-147 | the next block, if the jump is conditional, and then the block of its target are all the blocks entered from it |
| ControlFlowAnalysis.NextBlock | src/control-flow-analysis.cpp:151-157 | the block of the next instruction, or none after the last one |
| ControlFlowAnalysis.NextNeighbour | src/control-flow-analysis.cpp:151-157 | without a jump the next block is the only one entered |
| ControlFlowAnalysis.ConnectBlocks | src/control-flow-analysis.cpp:123-162 | the edges drawn are exactly those of the block graph, mirrored in both lists; the successor lists are, in order, the end block for the last block, then the block after a conditional jump, then the target's block, or the next block without a jump, each once |
| ControlFlowAnalysis.Run | src/control-flow-analysis.cpp:18-36 | the whole pass: blocks, dead marks, the exact successor lists, mirrored edges, nothing else analysed yet |
| Dominators.TrueDominatorsAreInMeet | src/dominator-analysis.cpp:102-136 | intersecting the predecessors' sets never drops a dominator |
| Dominators.UpdateMakesProgress | src/dominator-analysis.cpp:100-151 | sets only shrink, the one-sided test sees every change, and each change lowers the total size |
| Dominators.FixpointIsDominance | src/dominator-analysis.cpp:96-156 | a stable, sound family of sets is the dominance relation |
| Dominators.IntersectPredecessors | src/dominator-analysis.cpp:102-136 | the result holds the block and what all its predecessors hold |
| Dominators.UpdateDominators | src/dominator-analysis.cpp:138-150 | the list is refilled if and only if an old element is missing, and then holds the intersection |
| Dominators.Sweep | src/dominator-analysis.cpp:98-151 | a sweep that reports a change has made the sets smaller; one that does not leaves a stable family |
| Dominators.ComputeDominators | src/dominator-analysis.cpp:83-156 | terminates with `d` listed for `n` if and only if every path from the first block to `n` passes through `d` |
| Paths.DominatorsFormChain | src/dominator-analysis.cpp:52-68 | two dominators of a reachable block are comparable |
| Paths.DominanceIsAntisymmetric | src/dominator-analysis.cpp:52-68 | two reachable blocks that dominate each other are the same |
| Paths.ImmediateDominatorIsUnique | src/dominator-analysis.cpp:70-71 | a reachable block has at most one immediate dominator |
| Paths.DominatorsThroughImmediate | src/dominator-analysis.cpp:70-71 | the dominators of a block are the block and those of its immediate dominator |
| ImmediateDominators.ReachableHasNearest | src/dominator-analysis.cpp:52-68 | a block that can be reached has a nearest strict dominator |
| ImmediateDominators.NearestIsImmediate | src/dominator-analysis.cpp:70-71 | for a block that can be reached it is the immediate dominator |
| ImmediateDominators.QueryDecidesDominance | src/dominator-analysis.cpp:35-38 | the query on the lists decides dominance |
| ImmediateDominators.EliminationKeepsCandidates | src/dominator-analysis.cpp:56-65 | striking out a candidate that dominates another one keeps a candidate below every strict dominator |
| ImmediateDominators.SomeCandidateGoes | src/dominator-analysis.cpp:54-67 | with a nearest strict dominator, one of several candidates is always dominated by another |
| ImmediateDominators.EliminationEndsIff | src/dominator-analysis.cpp:52-68 | the loop ends if and only if the block has a nearest strict dominator |
| ImmediateDominators.UnreachableHasNearestIff | src/dominator-analysis.cpp:52-68 | a block that cannot be reached has one if and only if another cannot be reached either or some other block is dominated by all the rest |
| ImmediateDominators.FindDominating | src/dominator-analysis.cpp:53-67 | finds a comparable pair if there is one |
| ImmediateDominators.NearestDominator | src/dominator-analysis.cpp:47-71 | the loop ends with the nearest strict dominator if there is one, whatever the order of the list |
| ImmediateDominators.ComputeImmDominator | src/dominator-analysis.cpp:40-72 | every block but the first gets its nearest strict dominator if each has one, the first gets none |
| ImmediateDominators.FieldsFormTree | src/dominator-analysis.cpp:40-72 | if all blocks can be reached, the `idom` fields form the dominator tree |
| ImmediateDominators.DominatorCount | src/dominator-analysis.cpp:40-72 | a block has exactly one dominator more than its immediate dominator |
| ImmediateDominators.IdomLinksMeetExactlyTheDominators | src/dominator-analysis.cpp:40-72 | following the links from a block meets exactly its dominators, the entry among them: the links form a tree |
| EndToEnd.DrawnOnBothSides | src/basic-block.cpp:17-27 | mirrored lists draw one graph for passes that follow predecessors and passes that follow successors |
| EndToEnd.EdgesAreExact | src/control-flow-analysis.cpp:123-162 | in the built lists, a successor is a step from the last live instruction to a first instruction |
| EndToEnd.ReachabilityIsExact | src/control-flow-analysis.cpp:85-162 | in the built blocks, an instruction can execute exactly when it is unmarked and its block reachable from the start block |
| EndToEnd.RenumberingKeepsDominance | src/control-flow-analysis.cpp:89-92 | numbering the blocks and putting a start block in front changes no dominance |
| EndToEnd.FlowGraphIffNoOrphans | src/dominator-analysis.cpp:102-107 | the built blocks are fit for the dominator pass if and only if every leader but the first is entered |
| EndToEnd.NoOrphansIff | src/control-flow-analysis.cpp:96-162 | on instructions: every leader but the first is stepped to by an instruction that is not dead |
| EndToEnd.OrphanExample | src/control-flow-analysis.cpp:53-71 | a program with a jump target that only a dead jump leads to |
| EndToEnd.FindDominators | src/dominator-analysis.cpp:19-33 | after both passes a block is listed as dominator if and only if every execution that arrives at the other block's first instruction has executed its first instruction |
| EndToEnd.EndlessEliminationExample | src/dominator-analysis.cpp:52-68 | a program without orphans on which the search for an immediate dominator never ends |
| EndToEnd.ReachableMeansEnds | src/dominator-analysis.cpp:52-68 | if every block can be reached, there are no orphans and every search ends |
| EndToEnd.RunDominatorAnalysis | src/dominator-analysis.cpp:19-33 | both parts of the pass, on the blocks that control-flow analysis leaves |
| EndToEnd.FindImmediateDominators | src/dominator-analysis.cpp:19-33 | for a block that can be executed, the immediate dominator is the nearest of its strict dominators, which are the blocks whose first instruction every execution has passed before |
| EndToEnd.IdomsFormTree | src/dominator-analysis.cpp:40-72 | if every block can be reached, the links left in the blocks form the dominator tree of the block graph |
| EndToEnd.FindDominatorTree | src/dominator-analysis.cpp:19-72 | all passes in a row: if every block can be reached, they end with the dominator tree in the blocks |
| EndToEnd.CollectedIsSummary | src/liveness-analysis.cpp:40-60 | what is collected for a block that occupies a stretch of the program is what its code asks for on entry, with all that each instruction reads, and what it writes |
| EndToEnd.CollectedSummarise | src/liveness-analysis.cpp:40-60 | on built blocks the collected sets are those of all blocks as code, the start and the end block included |
| EndToEnd.RunLiveness | src/liveness-analysis.cpp:33-34 | on the built blocks, the sets are what the code of each block asks for and writes, and live-out holds exactly the registers exposed along a path of the block graph |
| EndToEnd.EveryBlockHasSuccessor | src/control-flow-analysis.cpp:117-162 | every block but the end block leads somewhere |
| EndToEnd.LivenessIsTextbookIff | src/liveness-analysis.cpp:76-113 | on built blocks the pass finds the textbook's live registers if and only if what a block exposes is exposed again further on, and what a block exposes and kills is seen from the blocks before it without passing the kill |
| EndToEnd.LiveOutIsAskedForIff | src/liveness-analysis.cpp:40-113 | live-out holds exactly what some run through the block still asks for, if and only if what a block exposes is asked for again, and what a block exposes and kills is seen from the blocks before it without passing the kill |
| EndToEnd.DecodedKillIsExposed | src/liveness-analysis.cpp:40-60 | on decoded instructions every block exposes all it kills |
| EndToEnd.OneInstructionDraws | src/control-flow-analysis.cpp:85-121 | a program of one instruction draws the graph on which a used and killed register is missed |
| Liveness.ComputeKillUe | src/liveness-analysis.cpp:40-60 | a block kills what it writes and exposes what it reads, by whatever instruction, before any write of its own (`EndToEnd.CollectedIsSummary` says it of the block's code) |
| Liveness.SetsEqual | src/liveness-analysis.cpp:62-74 | equal size and inclusion decide equality |
| Liveness.ClosedSetsHoldLive | src/liveness-analysis.cpp:76-113 | any solution of the equations holds everything that is live along a path |
| Liveness.LeastSolution | src/liveness-analysis.cpp:76-113 | for any generating sets, a closed family of live registers is the path-defined solution and satisfies the equations |
| Liveness.OwnGenMeaning | src/liveness-analysis.cpp:79-91 | the equation as written: a path to a block with a successor that exposes the register, not killed after the start |
| Liveness.SuccessorGenMeaning | src/liveness-analysis.cpp:79-91 | the textbook equation on the same graph: a path of at least one edge to a block that exposes the register |
| Liveness.SameLivenessIff | src/liveness-analysis.cpp:76-113 | one equation's solution is within the other's if and only if its generating sets are |
| Liveness.PassIsTextbookIff | src/liveness-analysis.cpp:76-113 | the pass finds the textbook's live registers if and only if what a block with a successor exposes is exposed again along a path, and what a successor exposes is exposed along a path by a block with a successor |
| Liveness.PassIsTextbookWithSuccessorsIff | src/liveness-analysis.cpp:76-113 | the same where every exposing block has a successor: only registers that a block both exposes and kills can be missed |
| Liveness.UsedThenKilledIsMissed | src/liveness-analysis.cpp:91-91 | a register that a block reads and then writes is live out of the block before it, but not in the pass's solution |
| Liveness.LiveMeansMentionedAhead | src/liveness-analysis.cpp:76-113 | where blocks expose all they kill, live-out by the textbook means mentioned further on |
| Liveness.KilledIsExposed | src/liveness-analysis.cpp:40-60 | reads are taken before writes, so a listed written register is exposed |
| Liveness.UpdateGrows | src/liveness-analysis.cpp:97-113 | sets only grow, stay live, and each change uses up room |
| Liveness.ComputeLiveOut | src/liveness-analysis.cpp:76-95 | the block's set becomes what the equation yields from its successors |
| Liveness.ComputeLiveOuts | src/liveness-analysis.cpp:97-113 | terminates with exactly the registers live along a path |
| LiveRanges.CurrentInterval | src/liveness-analysis.cpp:142-173 | the last interval opens at the last write, else at 0 for an argument, else at the start of the first reading block; it ends at the latest recorded read, or at 0 |
| LiveRanges.IntervalsTile | src/liveness-analysis.cpp:154-156 | each interval ends where the next one starts |
| LiveRanges.WritesOpenIntervals | src/liveness-analysis.cpp:144-157 | the starts after the opening interval are the offsets of the writes, in order |
| LiveRanges.RecordedReadIsCovered | src/liveness-analysis.cpp:142-173 | each recorded read lies in the interval opened at the last preceding write, or in the opening interval |
| LiveRanges.LiveRangeMap.RecordWrite | src/liveness-analysis.cpp:144-157 | a write closes the register's last interval and opens the next; other registers keep theirs |
| LiveRanges.LiveRangeMap.RecordReads | src/liveness-analysis.cpp:159-171 | a read extends the last interval or opens one at the block start; other registers keep theirs |
| LiveRanges.BuildLiveRanges | src/liveness-analysis.cpp:135-173 | every instruction of every block is visited once, in order, and the map holds the intervals of every register after all of them |
| LiveRanges.VisitedIn | src/liveness-analysis.cpp:142-143 | every visit is that of an instruction of some block, at its place |
| LiveRanges.VisitsAscend | src/liveness-analysis.cpp:142-143 | where the offsets increase along the blocks, they increase along the visits |
| LiveRanges.WriteIsOpened | src/liveness-analysis.cpp:144-157 | every write in any block opens an interval in the map |
| LiveRanges.ReadIsCovered | src/liveness-analysis.cpp:159-171 | every read in any block, by an instruction that does not write, lies in an interval of the map |
| LiveRanges.IntervalComesFromCode | src/liveness-analysis.cpp:142-173 | every interval in the map starts at 0 for an argument, at a write, or at the start of a block that reads the register, and ends at 0 or where the register is written or read |
| LinearScan.Collect | src/regalloc-linear-scan.cpp:42-46 | every live interval is gathered, as often as it occurs, mapped to its own register |
| LinearScan.EntriesOfDistinctRegisters | src/regalloc-linear-scan.cpp:42-46 | one live interval per register gives entries of pairwise different registers |
| LinearScan.RegallocLinearScan.SortIntervals | src/regalloc-linear-scan.cpp:40-64 | in order of start, then end, every interval of every register as often as it occurs, mapped to its own register |
| LinearScan.RegallocLinearScan.InitialPool | src/regalloc-linear-scan.cpp:70-72 | the pool holds all registers, lowest on top |
| LinearScan.PoolHoldsEveryRegister | src/regalloc-linear-scan.cpp:70-92 | after every step active and free registers together are each register exactly once |
| LinearScan.ExpireOldIntervals | src/regalloc-linear-scan.cpp:102-127 | sorting by end and dropping a prefix removes exactly the intervals that have ended, and frees their registers |
| LinearScan.RegallocLinearScan.VisitInterval | src/regalloc-linear-scan.cpp:74-92 | one step keeps everything an allocation needs; the pool is never popped empty |
| LinearScan.RegallocLinearScan.ComputeRegisterMapping | src/regalloc-linear-scan.cpp:66-100 | conflicting intervals get different registers, registers come into use without gaps, some clique needs as many, and the scan stops exactly at the first interval at whose start as many of the visited ones are open as there are registers |
| LinearScan.OpenAreActive | src/regalloc-linear-scan.cpp:74-81 | no more of the visited intervals are open than are active, so that the scan goes on while a register is left |
| LinearScan.ActiveIsFull | src/regalloc-linear-scan.cpp:77-81 | when all registers are active, as many visited intervals are open |
| LinearScan.TopIsReleasedLast | src/regalloc-linear-scan.cpp:85-127 | the register on top of the pool is the free one that was released last |
| LinearScan.ReleasedBeforeMeaning | src/regalloc-linear-scan.cpp:102-127 | one interval is released before another if and only if an earlier visit releases it or, at the same visit, it ends first or ends together and starts first |
| LinearScan.CliqueNeedsRegisters | src/regalloc-linear-scan.cpp:66-92 | no assignment that separates conflicting intervals uses fewer registers than a clique has members |
| LinearScan.AllocationIsOptimal | src/regalloc-linear-scan.cpp:66-92 | the count is the size of the largest clique, or all registers if that is less |
| LinearScan.CliqueNumberExists | src/regalloc-linear-scan.cpp:66-92 | there is a largest clique |
| LinearScan.NewRegisterIsAtMostPosition | src/regalloc-linear-scan.cpp:85-92 | the k-th interval never gets a register above k |
| RegisterByLifetime.TakesIsTakesFrom | src/regalloc-linear-scan.cpp:74-127 | which interval's register another one takes over is told by starts and ends |
| RegisterByLifetime.UsedAreFirst | src/regalloc-linear-scan.cpp:74-92 | the registers in use before an interval are the lowest ones, as many as intervals took none over |
| RegisterByLifetime.MappingFollowsLifetimes | src/regalloc-linear-scan.cpp:66-127 | the scan gives every interval the register that starts and ends determine before any is mapped, if no two live ones start and end together |
| RegisterByLifetime.ScanIsMapping | src/regalloc-linear-scan.cpp:66-127 | if all intervals are visited, the result is that mapping of the sorted intervals, points unchanged |
| Renaming.SequenceIsMappingIffChainFree | src/regalloc-linear-scan.cpp:136-161 | the nested substitution applies the mapping to every operand if and only if the mapping is chain free |
| Renaming.SequenceStepByStep | src/regalloc-linear-scan.cpp:136-161 | interval after interval renames what the ones before have made of an operand, whether or not chains or several intervals of a register occur |
| Renaming.ChainMergesRegisters | src/regalloc-linear-scan.cpp:136-161 | otherwise two registers given different ones end up in the same one |
| Renaming.AscendingIsChainFree | src/regalloc-linear-scan.cpp:74-92 | with ascending old numbers no interval gets a higher register than its own, and the mapping is chain free |
| Renaming.ChainCanRenameTwice | src/regalloc-linear-scan.cpp:136-161 | an allocation on which an operand is renamed twice |
| Renaming.RenamingPreservesMeaningIff | src/regalloc-linear-scan.cpp:136-161 | any code reads and leaves the same values after renaming if and only if no demanded value is clobbered |
| Renaming.RenamingInPlacePreservesMeaningIff | src/regalloc-linear-scan.cpp:136-161 | the same from one and the same register file, if and only if registers read from before also keep their number |
| Renaming.RunPreservesMeaningIff | src/regalloc-linear-scan.cpp:136-161 | a run through several blocks keeps its meaning if and only if each block does for what the rest needs |
| AllocatedBlocks.SharingMeansDead | src/regalloc-linear-scan.cpp:74-92 | a register is shared with an open interval only by a dead one that starts with it |
| AllocatedBlocks.SharesWithDeadIff | src/regalloc-linear-scan.cpp:102-127 | an interval gets the register of a dead one of the same start if and only if all allocated between them are dead |
| AllocatedBlocks.AllocationPreservesMeaningIff | src/regalloc-linear-scan.cpp:66-161 | a block that its intervals cover keeps its meaning if and only if it does not open with a dead write whose register is handed to one it still needs |
| AllocatedBlocks.DeadFirstWriteExample | src/regalloc-linear-scan.cpp:102-127 | a block that renaming breaks |
| Runs.RunAsksFor | src/liveness-analysis.cpp:40-60 | a run asks for what a block on it exposes before any block on it kills it |
| Runs.LiveOutMeaning | src/liveness-analysis.cpp:76-113 | a register is live out of a block by the textbook's paths if and only if some run through the block still asks for it |
| Runs.RunKeepsMeaningIff | src/regalloc-linear-scan.cpp:66-161 | a run through covered blocks keeps its meaning if and only if none of them opens with a dead write over a register the run still needs |
| Runs.AllRunsKeepMeaningIff | src/regalloc-linear-scan.cpp:66-161 | all runs of a covered function do if and only if no reachable block opens with a dead write over one it needs or that is live out of it |
| Rewriter.RenameInInstruction | src/regalloc-linear-scan.cpp:138-159 | one interval's substitution hits reads and literals under the read flag, the write under the write flag |
| Rewriter.UpdateInstructions | src/regalloc-linear-scan.cpp:129-174 | every instruction ends up with the chain of substitutions followed by the shift, the bounds move along; if no register is saved, every operand and bound is what it was |
| Rewriter.OutcomeOnFields | src/regalloc-linear-scan.cpp:130-172 | operand by operand: reads and literals renamed under the read flag, the write under the write flag, a literal at or above the bound shifted; nothing at all without saved registers |
| Rewriter.BoundsOnFields | src/regalloc-linear-scan.cpp:130-174 | all bounds but that of the arguments go down by the number of registers saved, or all stay |
| Rewriter.RewrittenLiteral | src/regalloc-linear-scan.cpp:147-170 | a register literal is renamed and any other one shifted, never both |
| Rewriter.RenamedRegisterIsBelowIff | src/regalloc-linear-scan.cpp:81-92 | a register lies below the new bound if and only if it has an allocated interval or was low enough before |
| Rewriter.PointIntervalEscapes | src/regalloc-linear-scan.cpp:81-83 | a point interval whose register stays above the new bound |
| Rewriter.RewriteKeepsRegisterLiteralsIff | src/regalloc-linear-scan.cpp:163-172 | literals are registers under the new bound where they were under the old one, if and only if all register literals are covered |
| Rewriter.RewriteKeepsReadsMatching | src/regalloc-linear-scan.cpp:136-172 | the registers listed as read are again the register literals |
| RegisterCompression.Compress | src/regalloc-linear-scan.cpp:33-35 | from the live ranges to an allocation of exactly these intervals, and operands and bounds rewritten by it |
| RegisterCompression.Run | src/regalloc-linear-scan.cpp:20-38 | the whole pass: compression, or nothing for a function without registers |
| RegisterCompression.GatheredAreDistinct | src/regalloc-linear-scan.cpp:40-46 | one live interval per register stays so through sorting and mapping |
| RegisterCompression.RewrittenBlockPreservesMeaningIff | src/regalloc-linear-scan.cpp:129-161 | the rewritten operands of a block are the renamed block; so, covered by its intervals, it keeps its meaning unless it opens with such a dead write |
| RegisterCompression.BuiltStart | src/liveness-analysis.cpp:142-173 | the one interval built for a register opens at its only write or, without one, with the block |
| RegisterCompression.RecordedReadIsInside | src/liveness-analysis.cpp:159-171 | a read that the builder records lies in the interval, after any write of its register |
| RegisterCompression.BuiltAtMostOnceIff | src/liveness-analysis.cpp:135-173 | a register gets at most one interval if and only if it is written only where the builder meets it first |
| RegisterCompression.OpenIffReadAhead | src/liveness-analysis.cpp:142-173 | the interval of a register is open over an instruction if and only if a later recorded read finds the same value |
| RegisterCompression.OpenIsSharedAtEntry | src/regalloc-linear-scan.cpp:74-92 | where a read is recorded ahead, only an unread write of the first instruction can overwrite the value |
| RegisterCompression.LosesMeaningIffShared | src/regalloc-linear-scan.cpp:20-38 | for any order of ties: meaning is lost if and only if an unsafe read's register is renamed like the one written in between |
| RegisterCompression.SafeBlockKeepsMeaning | src/regalloc-linear-scan.cpp:20-38 | without unsafe reads, a condition on the instructions alone, builder, allocator and rewriter keep the meaning |
| RegisterCompression.OneBlockKeepsMeaningIff | src/regalloc-linear-scan.cpp:20-38 | with all its reads: they keep it if and only if the registers of unsafe reads and of the writes in between get different numbers by starts and ends; in place, if also what is read from before gets its own |
| RegisterCompression.CompressOneBlock | src/regalloc-linear-scan.cpp:20-38 | builder, scan and rewriter on the blocks of a function: the operands are the renamed ones and the statements above hold of them; if no register is saved, operands and bounds are the old ones |
| LostMeaning.MissedReadExample | src/liveness-analysis.cpp:144-157 | a block that loses a read of an instruction that writes |
| LostMeaning.LostEntryExample | src/regalloc-linear-scan.cpp:81-83 | a block whose unread first write keeps its number and destroys a value |
| LostMeaning.LoopExample | src/liveness-analysis.cpp:142-173 | a loop whose second iteration finds another register's value |
| LostMeaning.MovedArgumentExample | src/bytecode.h:140-145 | a block whose argument is looked for in another register than the one it arrives in |
| Literals.BytecodeArguments.MoveRegIndex | src/bytecode.h:140-145 | all bounds but that of the arguments move, in 16 bits |
| Literals.MovedBoundsKeepRanges | src/bytecode.h:140-145 | the register bound becomes the number of registers used, and the ranges above it keep their lengths |
| Literals.MovedLiteralKeepsSlot | src/bytecode.h:201-210 | a moved literal keeps its slot in the pool, does not wrap and stays apart from others |
| Literals.MovedLiteralsKeepClassIff | src/bytecode.h:140-145 | every moved literal keeps its class if and only if the arguments still fit below the new register bound |
| Literals.ArgumentsCanSwallowIdent | src/bytecode.h:140-145 | bounds on which an identifier turns into an argument |
| Literals.KindsDivideIndices | src/inst.cpp:121-146 | each of the five kinds stands for exactly the indices between two neighbouring bounds |
| Literals.DecodeLiteral | src/inst.cpp:121-146 | the kind of the literal is that of the range its index lies in; the registers listed as read stay exactly the register literals |
| Literals.SetWriteReg | src/inst.h:390-394 | a written register is listed among the reads as well |
| LiteralCodec.Buffer.Emit | src/inst.cpp:34-49 | appends the encoding of one index |
| LiteralCodec.EmitAll | src/inst.cpp:25-27 | appends the encodings of all literals of an instruction |
| LiteralCodec.DecodeAll | src/inst.cpp:88-98 | reads as many indices as asked for, each from where the one before ended |
| LiteralCodec.EmitThenDecode | src/inst.cpp:25-49 | reading back what was emitted gives the same indices, if encoder and decoder agree on them |
| LiteralCodec.Cursor.DecodeLiteralIndex | src/inst.cpp:88-98 | reads one index and moves past exactly its bytes |
| LiteralCodec.SingleRoundTripIff | src/inst.cpp:34-49 | an index survives a round trip if and only if encoder and decoder agree on it |
| LiteralCodec.RoundTripIff | src/bytecode.cpp:97-108 | a list of indices is decoded to itself, with nothing left over, if and only if they agree on every one |
| LiteralCodec.MiddleRangeExample | src/inst.cpp:40-44 | index 200 in full encoding is read back as another index |

## Left out

- Try, catch and finally edges (src/control-flow-analysis.cpp:137-144) and try contexts as leaders: excluded by `WellFormed`, since the code stops at the first jump of a block and loses edges there.
- The opcode decoder, its tables and the abstract stack: an instruction is its offset, size, flags, jump target, read and written registers and literals.
- Branch offsets and line numbers in the emitted byte code: they are not recomputed after renumbering, so no round trip of whole functions is claimed.
- `LiteralPool::movePoolStart`, header packing, snapshots, files, the command line and logging: memory layout and input or output.
- `removeInaccessible` is `removeAllSuccessors` on a block without predecessors; `prevInst` serves try contexts only, and `setOffset` sets the sizes that `WellFormed` takes as given. The optimizer's mask of finished passes decides only whether a pass runs.
- `DominatorAnalysis::run` clears the results of an earlier run first; the model starts from blocks that hold none.
- LinearScan.RegallocLinearScan.VisitInterval: one iteration works on values and the loop stores its results in the members, where the code updates them step by step; no one else reads them in between.
- RegisterCompression.OneBlockKeepsMeaningIff: speaks of functions of one block whose registers each get one interval and whose live intervals do not coincide; `RegisterCompression.LosesMeaningIffShared` covers coinciding ones in terms of the mapping. For several blocks `Runs.AllRunsKeepMeaningIff` starts from intervals that cover the blocks, which the builder does not ensure in loops.
- EndToEnd.RunLiveness: the blocks' sets count instructions that never execute among those that read and write, so they and `Runs.LiveOutMeaning` speak of runs through whole blocks.
- LiveRanges.RecordedReadIsCovered: covers the reads that the builder records, which are those of instructions without a written register.
- LiveRanges.ReadIsCovered: the same reads, on the map; it speaks of blocks whose offsets increase, as they do when control-flow analysis has built them.
- ControlFlowAnalysis.BeginBlock: the flag that marks start and end block as invalid is a constant of the block in the model, set when the block is created rather than right after.
- Rewriter.RewriteKeepsRegisterLiteralsIff: without the read flag it speaks of instructions without register literals only; the decoder sets the flag with the first one.
