# Egalito, verified in Dafny

A model of the analysis layer of the Egalito binary recompiler, with proofs of what its algorithms
promise. `dafny verify dfyconfig.toml` checks the whole project (Dafny 4.11).

What is modelled, by component:

- **Graph walkers** (`Graph`, `Dfs`, `NodeOrder`, `PrunedReach`, `PrunedExact`, `SccState`, `SccProof`,
  `Scc`, `WalkedLoops`): the recursive depth-first walk with its callbacks, the order collectors, both
  reachability searches, and the component collector with its two stacks. A walk is specified by the
  log of its callbacks (`Dfs.Visit`); the walkers are classes proved to make exactly these callbacks,
  and the theorems are about the log.
- **Dominators** (`ControlFlow`, `DomTree`, `DomPass`, `Dominators`, `Dominance`): the control flow
  graph with its paired links and the iteration over a reverse postorder. The proof that it stops
  compares the parents before and after a pass while the tree is half old and half new; the proof
  that it is right uses the invariant that every strict dominator of a node dominates its parent.
- **Rescheduling of a block** (`Footprints`, `KillMap`, `KillProof`, `ReachingDef`, `Reorder`, `BlockMeaning`):
  the declarations of the handlers, the one-pass construction of the dependencies, the closure, and the
  scheduler whose callback may pick any ready instruction. The main theorem says exactly for which blocks
  the computed state is the same whatever it picks, with effects bounded by what the instructions really
  load and store rather than by what is declared for them.
- **Use-def chains** (`RefLists`, `Flow`, `Sweeps`, `UseDef`, `Chains`, `DirectPaths`,
  `StaleUses`): one or two sweeps over each component, the refs and uses they record, and the removal of a
  definition. The recorded refs are characterised exactly, by paths that are described without reference
  to the sweeps, and so are the graphs on which nothing is missed.
- **Expression trees and memory locations** (`SlicingTree`, `MemLocation`), **bounds through use-def
  chains** (`ValueFlow`, `HiddenBound`), **the archive file** (`Archive`), **chunk lists and their indexes**
  (`ChunkList`), and **cached code** (`ChunkCache`).

How the model represents things:

- Graph nodes, blocks, instructions, states and chunks are numbers. A graph is a sequence of lists
  of link targets; the model of `ControlFlow` shows that forward and backward links mirror each other.
- Handlers are reduced to what they tell the analysis: in `Footprints` the declared accesses, written
  out handler by handler for x86-64; in `Flow` a sequence of uses and definitions per block.
- The effect of an instruction is any function on states (one value for each register, the flags, and
  memory as a whole) that stays within its accesses: the declared ones in `Reorder`, the real ones in
  `BlockMeaning`. The effect of an instruction whose accesses
  are not known is any function at all.
- Callbacks are functions of everything they have seen. Iteration over sets of pointers, whose order
  depends on addresses, is in no particular order, so the results hold for every order.
- Integers are unbounded, with 32-bit wrap-around written out in `Archive` and `ChunkCache`.
- An assertion of the code that can fail is an error result (`SetRegWrite`, `Analyze`).

Where the code does less than one would expect, the model follows the code, an example shows it, and
the exact condition is proved:

- A pop into memory declares no store, so a later load may move before it (`PopThenLoadBreaks`). A
  block keeps its meaning in all orders exactly when every real conflict is linked by declared ones
  (`MeaningExactly`, `PassBreaks`). A pop into the stack pointer stops the analysis (`OnlyPopSpIsRejected`).
- Definitions that reach a use only through a link from a block to itself, or only by going back
  twice in a component, are not recorded (`SelfLoopRun`, `ReachingIsMissed`, `CarriesIsPlain`). On which
  graphs nothing is missed whatever the code is `DirectPaths.CompleteExactly`.
- Cancelling a definition that its own instruction uses leaves a use without ref, unless it is listed
  first (`CancelUseDefReg`, `CancelLeavesUse`).
- The pruned search can miss a node that has an unpruned path (`PruningCanMiss`). It is complete for
  every order of links exactly when there is no unpruned path, or no simple path has a pruned node
  before the destination (`PrunedExact.CompleteExactly`).
- Swapped operands are equal for every operator, and comparison of registers with the instruction
  pointer is one-way (`EqualExactly`, `CommutesExactly`,
  `SymmetricExactly`).
- Most chunk types change when written and read back, and recorded offsets are ahead of positions
  (`OnlyFirstTypesSurvive`, `RecordedOffset`).
- A file cut inside its chunk count can pass as an empty archive (`TruncatedIsRejected`).
- `genFull` from a node other than 0 can leave out node 0 (`SccOrderFull`, `ZeroIsLeftOut`).
- Chunks that share a key, or are in the list twice, spoil the indexes (`StepKeepsIndex`,
  `SecondEntryIsLost`, `NamesakeIsLost`).
- Deleting a use that is listed twice could delete another instead (`SweptExactly`, `TwiceIsNotRemoved`).
  The analysis never lists one twice, so on its lists deletion is right (`LinkKeeps`, `Unuse`).
- Cached code that is copied too far refers elsewhere (`TargetKept`, `FarCopyMisses`).
- A bound that passes through a state with two registers can be missed, as the results of a call show
  (`CallHidesBound`). Answers are right for every further user of a register exactly when no state can
  be met with two registers (`RightExactly`).

## Model

| member | source | states |
|---|---|---|
| `Dfs.VisitReaches` | src/analysis/walker.h:38-51 | whatever a walk newly visits is reachable from its start |
| `Dfs.VisitCloses` | src/analysis/walker.h:38-51 | no link leads from a node finished by a walk to a node left unvisited |
| `Dfs.FreshVisit` | src/analysis/walker.h:17-22 | a walk on a fresh graph visits exactly the nodes reachable from its start |
| `Dfs.LapsAre` | src/analysis/walker.h:24-35 | the first lap is a walk from the given node; each later one is a walk from the lowest node after 0 that no lap before has visited, and after the last one no such node is left |
| `NodeOrder.CollectsVisited` | src/analysis/walker.h:66-82 | each newly visited node is collected once, or twice for pre- and postorder together, and no other node is |
| `NodeOrder.OrderListsReachable` | src/analysis/walker.h:66-129 | a preorder or postorder lists exactly the reachable nodes, each once |
| `NodeOrder.ParentFinishesLater` | src/analysis/walker.h:72-76 | in a postorder the start comes last and every other node has a predecessor that comes later |
| `NodeOrder.ParentComesEarlier` | src/analysis/walker.h:66-70 | in a preorder the start comes first and every other node has a predecessor that comes earlier |
| `NodeOrder.ReversedPostorder` | src/analysis/walker.h:90-95 | the reversed postorder starts with the root, lists exactly what it reaches, each node once, and every other node after one of its predecessors |
| `NodeOrder.NodeWalker.constructor` | src/analysis/walker.h:97-106 | a collector for one kind of order |
| `NodeOrder.NodeWalker.Append` | src/analysis/walker.h:117-122 | a callback appends the node to the list of the current lap and changes nothing else |
| `NodeOrder.NodeWalker.WalkHelper` | src/analysis/walker.h:38-51 | the recursive walk makes exactly the callbacks of the specification and marks exactly the nodes it visits |
| `NodeOrder.NodeWalker.WalkLinks` | src/analysis/walker.h:41-49 | the same for the loop over the links |
| `NodeOrder.NodeWalker.Reset` | src/analysis/walker.h:108-112 | one empty list is left |
| `NodeOrder.NodeWalker.Finish` | src/analysis/walker.h:124-128 | every list is reversed, or none |
| `NodeOrder.NodeWalker.Gen` | src/analysis/walker.h:17-22 | one list: the walk from the given node |
| `NodeOrder.NodeWalker.GenFull` | src/analysis/walker.h:24-35 | one list per lap, the laps being those that `LapsAre` describes |
| `NodeOrder.ReversePostorder` | src/analysis/walker.h:248-250 | the order that the dominator iteration relies on |
| `NodeOrder.IsReachable` | src/analysis/walker.h:266-276 | true exactly when a path exists |
| `PrunedReach.IsReachablePruned` | src/analysis/walker.h:282-304 | true exactly when the walk enters the destination while no call in progress is for a pruned node; then a path exists with no pruned node before the destination |
| `PrunedReach.ScanList` | src/analysis/walker.h:286-303 | the scan with its two variables computes the three-state machine of the specification |
| `PrunedReach.VisitBalanced` | src/analysis/walker.h:38-51 | entries and exits of a walk are properly bracketed |
| `PrunedReach.CallsFormPath` | src/analysis/walker.h:38-51 | at every entry the calls in progress form a path from the start to the node entered |
| `PrunedReach.ScanVisit` | src/analysis/walker.h:286-303 | over the list of a walk, the scan finds the destination exactly when it is entered with nothing pruned in progress |
| `PrunedReach.FoundByUnprunedPath` | src/analysis/walker.h:282-304 | a positive answer has a path without a pruned node before the destination |
| `PrunedReach.MissedBelowPruned` | src/analysis/walker.h:282-304 | if the first link leads to a pruned node that links to the destination, the search misses it whatever other paths there are |
| `PrunedReach.PruningCanMiss` | src/analysis/walker.h:282-304 | a graph on which an unpruned path exists and the search answers no |
| `PrunedExact.UnhiddenIsFound` | src/analysis/walker.h:282-304 | if no simple path has a pruned node before the destination, the search answers yes exactly when a path exists |
| `PrunedExact.WalkFollows` | src/analysis/walker.h:38-51 | a walk whose links list a simple path first enters the nodes of that path one inside the other |
| `PrunedExact.LedIsMissed` | src/analysis/walker.h:282-304 | if that path has a pruned node before the destination, the search misses the destination |
| `PrunedExact.CompleteExactly` | src/analysis/walker.h:282-304 | the search agrees with the existence of an unpruned path whatever the order of links, if and only if there is none or no simple path has a pruned node before the destination |
| `SccProof.PreKeeps` | src/analysis/walker.h:159-165 | entering a node keeps the invariant of the two stacks and the low links |
| `SccProof.LateKeeps` | src/analysis/walker.h:190-195 | a link to a visited node is accounted for |
| `SccProof.ChildKeeps` | src/analysis/walker.h:38-51 | the walk of a child accounts for the link to it, although its low link is not passed up |
| `SccProof.CutPositions` | src/analysis/walker.h:173-183 | the suffixes popped from `stack` and `poStack` hold the same nodes and start where the stacks were when the node was entered |
| `SccProof.ComponentOf` | src/analysis/walker.h:173-188 | nodes that reach each other through one of them, with links only to themselves and to a closed set, are a whole component |
| `SccProof.EmitKeeps` | src/analysis/walker.h:173-188 | emitting a component keeps the invariant, which says that each emitted list is one whole component |
| `SccProof.StayKeeps` | src/analysis/walker.h:166-174 | a node that is not a root stays and its recomputed low link belongs to a lower stack node that it reaches |
| `SccProof.PostKeeps` | src/analysis/walker.h:166-189 | leaving a node is always possible and completes its walk |
| `SccProof.VisitKeeps` | src/analysis/walker.h:38-51 | every walk, on every graph, keeps the invariant |
| `Scc.RunKeepsOrder` | src/analysis/walker.h:166-188 | whatever the callbacks, nodes are listed in reverse finishing order, and lists come out in the order in which their first nodes finish |
| `Scc.FinishedOnce` | src/analysis/walker.h:24-35 | over all laps no node finishes twice |
| `Scc.ReversedTopological` | src/analysis/walker.h:196-199 | the emitted lists, reversed, are the components in topological order and list exactly the visited nodes |
| `Scc.SccWalker.constructor` | src/analysis/walker.h:145-148 | empty stacks and no list |
| `Scc.SccWalker.PreVisit` | src/analysis/walker.h:159-165 | numbers the node and pushes it |
| `Scc.SccWalker.LateVisit` | src/analysis/walker.h:190-195 | lowers the low link to the number of a node that is on the stack |
| `Scc.SccWalker.LowerOverLinks` | src/analysis/walker.h:167-172 | the low link becomes the lowest over all later-numbered targets |
| `Scc.SccWalker.FindCut` | src/analysis/walker.h:175-181 | the two iterators stop at the last place of the node and move in step |
| `Scc.SccWalker.PopComponent` | src/analysis/walker.h:174-188 | both stacks are cut and the component is appended in reverse postorder |
| `Scc.SccWalker.PostVisit` | src/analysis/walker.h:166-189 | the callback as a whole is the step of the specification |
| `Scc.SccWalker.WalkHelper` | src/analysis/walker.h:38-51 | the recursive walk leaves the collector in the state to which the callbacks of the specification lead |
| `Scc.SccWalker.WalkAll` | src/analysis/walker.h:24-35 | after all laps the invariant holds with nothing waiting on the stacks |
| `Scc.SccWalker.Finish` | src/analysis/walker.h:196-199 | the trailing empty list is dropped and the order reversed |
| `Scc.SccOrderFrom` | src/analysis/walker.h:24-51 | `gen`: exactly the components among the nodes reachable from the start, topologically sorted; the nodes of a list in reverse finishing order, and the lists in the reverse order in which their first nodes finish |
| `Scc.SccOrderFull` | src/analysis/walker.h:24-51 | `genFull`: the components of the whole graph, likewise; exactly node 0 is missing, when the walk does not start there and no other node reaches it |
| `Scc.OnlyOrder` | src/analysis/walker.h:24-35 | of the same nodes there is only one order with these properties, so the result is determined |
| `WalkedLoops.FinishedThree` | src/analysis/walker.h:24-51 | the finishing order of two graphs with loops |
| `WalkedLoops.TwoLoopsOrder` | src/analysis/walker.h:196-199 | two loops that share a node: `genFull` gives one list, in ascending order |
| `WalkedLoops.LeadInOrder` | src/analysis/walker.h:196-199 | a block before a loop: `genFull` gives its list first, then that of the loop |
| `WalkedLoops.ZeroIsLeftOut` | src/analysis/walker.h:24-35 | a graph and a start for which node 0 is missing |
| `ControlFlow.ControlFlowGraph.AddEdge` | src/analysis/controlflow.cpp:108-113 | a link is recorded at both of its ends |
| `ControlFlow.ControlFlowGraph.AddJump` | src/analysis/controlflow.cpp:96-128 | a link to the target of a jump, if that is a block of the function or in one |
| `ControlFlow.ControlFlowGraph.AddTable` | src/analysis/controlflow.cpp:150-180 | one link per entry whose address has not occurred before and whose target is in the function |
| `ControlFlow.ControlFlowGraph.ConstructBlock` | src/analysis/controlflow.cpp:61-209 | a block gets exactly the links that its last instruction calls for |
| `ControlFlow.ControlFlowGraph.constructor` | src/analysis/controlflow.cpp:48-59 | every block has exactly the links that its last instruction calls for, and each link is recorded as often backward as forward |
| `ControlFlow.SuccessorsAre` | src/analysis/controlflow.cpp:61-209 | a block has a link to exactly the blocks where control can go on: where its last instruction can go, instruction by instruction (a conditional jump to its target or on, a call on if it returns, a return nowhere), and the first entry for each address of its jump tables |
| `ControlFlow.TableLeadsTo` | src/analysis/controlflow.cpp:151-180 | the blocks named by a jump table are those of the first entry for each address |
| `ControlFlow.PairedMirrors` | src/analysis/controlflow.cpp:108-113 | forward and backward links describe the same graph |
| `DomTree.NearestIsCommon` | src/analysis/dominance.cpp:69-89 | the meeting point of the two fingers is an ancestor of both |
| `DomTree.NearestIsLowest` | src/analysis/dominance.cpp:69-89 | and every common ancestor is an ancestor of it |
| `DomTree.RaiseShrinks` | src/analysis/dominance.cpp:58-60 | giving a node one of its ancestors as parent only removes ancestors |
| `DomPass.MeetExtends` | src/analysis/dominance.cpp:45-56 | one more predecessor and one more intersection give the nearest common ancestor of all |
| `DomPass.StepSettles` | src/analysis/dominance.cpp:36-63 | after a node is processed, it and all before it are settled, even where the tree is half old and half new |
| `Dominators.DominatorIsAncestor` | src/analysis/dominance.cpp:33-64 | under the optimistic invariant every dominator is an ancestor |
| `Dominators.StepIsOptimistic` | src/analysis/dominance.cpp:45-60 | processing a node loses no dominator |
| `Dominators.AncestorsAreDominators` | src/analysis/dominance.cpp:33-64 | at an optimistic fixpoint ancestors are exactly dominators, over all paths |
| `Dominators.ParentIsImmediate` | src/analysis/dominance.cpp:33-64 | and parents are the immediate dominators |
| `Dominance.OrderNumbers` | src/analysis/dominance.cpp:20-25 | a reverse postorder numbers the reachable nodes as the iteration needs |
| `Dominance.NodeStep` | src/analysis/dominance.cpp:42-62 | one step of a pass keeps what the pass has established |
| `Dominance.TotalShrinks` | src/analysis/dominance.cpp:33-64 | a change after the first pass makes the sum of the parents' numbers smaller |
| `Dominance.PassEnds` | src/analysis/dominance.cpp:33-64 | a pass moves the parents down in total, or finds an optimistic fixpoint |
| `Dominance.ChainListsDominators` | src/analysis/dominance.cpp:91-100 | a chain of parents up to node 0 lists exactly the dominators, each followed by its immediate one |
| `Dominance.Dominance.Number` | src/analysis/dominance.cpp:23-25 | the numbers are the inverse of the order |
| `Dominance.Dominance.Intersect` | src/analysis/dominance.cpp:69-89 | terminates and gives the nearest common ancestor; a node without parent yields to the other |
| `Dominance.Dominance.CommonAncestor` | src/analysis/dominance.cpp:45-56 | the nearest common ancestor of the predecessors that have parents |
| `Dominance.Dominance.ProcessNode` | src/analysis/dominance.cpp:36-63 | the body of the loop is one step of a pass |
| `Dominance.Dominance.Pass` | src/analysis/dominance.cpp:35-63 | one round of the loop |
| `Dominance.Dominance.Iterate` | src/analysis/dominance.cpp:33-64 | the loop terminates at an optimistic fixpoint |
| `Dominance.Dominance.constructor` | src/analysis/dominance.cpp:7-67 | for every reachable node the recorded parent is its immediate dominator; unreachable nodes have none |
| `Dominance.Dominance.GetDominators` | src/analysis/dominance.cpp:91-100 | exactly the dominators of a reachable node, from the node up to node 0, each followed by its immediate dominator; no result exactly for unreachable nodes, where the source indexes with -1 |
| `Dominance.BlockDominators` | src/analysis/dominance.cpp:7-100 | from the last instructions of the blocks to the dominators of a block, over the graph of where control can go from each block, with no result exactly for unreachable blocks |
| `Footprints.OnlyPopSpWritesTwice` | src/analysis/reachingdef.cpp:423-442 | the only instruction that declares a location as written twice is a pop into the stack pointer |
| `Footprints.DeclaredInRange` | src/analysis/reachingdef.cpp:228-442 | handlers name only registers, the flags and memory |
| `Footprints.KnownIsDeclared` | src/analysis/reachingdef.cpp:168-442 | accesses are declared for exactly the listed forms of the listed instructions; everything else is a barrier |
| `Footprints.OnlyPopToMemoryIsNotCovered` | src/analysis/reachingdef.cpp:168-442 | declarations cover all that the instruction loads and stores, except exactly for a pop into memory |
| `Footprints.NothingElseDeclared` | src/analysis/reachingdef.cpp:168-442 | declared writes are stores and declared reads are loads, whatever the instruction |
| `KillProof.ReadKeeps` | src/analysis/reachingdef.cpp:187-196 | a declared read keeps the invariant that conflicts are in the closure and dependencies are conflicts |
| `KillProof.SelfWrite` | src/analysis/reachingdef.cpp:198-219 | an instruction is the last writer of a location exactly when it has declared a write of it |
| `KillProof.WriteKeeps` | src/analysis/reachingdef.cpp:198-226 | a first declared write of a location keeps the invariant |
| `KillProof.NextKeeps` | src/analysis/reachingdef.cpp:23-47 | going on to the next instruction keeps it |
| `KillProof.BarrierKeeps` | src/analysis/reachingdef.cpp:135-147 | a barrier keeps it, although the readers are not forgotten |
| `KillProof.LastCompletes` | src/analysis/reachingdef.cpp:16-48 | in the end every conflict is in the closure, every dependency is a conflict, and all point backward |
| `KillProof.ClosureIsConflictChain` | src/analysis/reachingdef.cpp:16-48 | the closure of the dependencies is exactly the relation of being linked by a chain of conflicts |
| `ReachingDef.InKillClosure` | src/analysis/reachingdef.cpp:97-120 | terminates although the queue may hold duplicates, and answers whether the destination is in the closure |
| `ReachingDef.AreDependenciesCovered` | src/analysis/reachingdef.cpp:122-133 | in both modes: whether all instructions in the closure are covered |
| `ReachingDef.ReadyGroup` | src/analysis/reachingdef.cpp:56-61 | the group is exactly the instructions whose dependencies have all been visited |
| `ReachingDef.EarliestIsReady` | src/analysis/reachingdef.cpp:58-72 | the first remaining instruction is always ready |
| `ReachingDef.NoneReadyNoneLeft` | src/analysis/reachingdef.cpp:63-72 | an empty group means that nothing remains |
| `ReachingDef.ReachingDef.constructor` | src/analysis/reachingdef.h:39 | no dependencies and no accesses yet |
| `ReachingDef.ReachingDef.SetRegRead` | src/analysis/reachingdef.cpp:187-196 | the step of the specification for a read |
| `ReachingDef.ReachingDef.SetRegWrite` | src/analysis/reachingdef.cpp:198-226 | the step for a write; the assertion fails exactly when the instruction is already the last writer |
| `ReachingDef.ReachingDef.SetBarrier` | src/analysis/reachingdef.cpp:135-147 | the step for a barrier |
| `ReachingDef.ReachingDef.Fill` | src/analysis/reachingdef.cpp:260-442 | a handler's declarations are accepted exactly when none is a second write, and then keep the invariant |
| `ReachingDef.ReachingDef.Analyze` | src/analysis/reachingdef.cpp:16-48 | succeeds exactly when no instruction declares two writes of one location; then conflicts and dependencies agree up to closure |
| `ReachingDef.ReachingDef.ComputeDependencyClosure` | src/analysis/reachingdef.cpp:80-95 | the map is replaced by exactly its transitive closure, which leaves the closure as it was |
| `ReachingDef.ReachingDef.VisitInstructionGroups` | src/analysis/reachingdef.cpp:50-78 | for every callback: each choice is from a group of exactly the ready instructions, all instructions are chosen once, after all they depend on |
| `Reorder.Commute` | src/analysis/reachingdef.cpp:187-226 | instructions without conflict have the same effect in either order |
| `Reorder.SameResult` | src/analysis/reachingdef.cpp:50-78 | any permutation that keeps conflicting pairs in order gives the same state as the ascending order |
| `Reorder.ScheduleIsSafe` | src/analysis/reachingdef.cpp:50-78 | a schedule that respects the closure swaps no conflicting pair |
| `Reorder.SafeOrderKeepsMeaning` | src/analysis/reachingdef.cpp:50-78 | from every state, for all effects within their declarations, a safe order ends in the state of the original order |
| `Reorder.SafeIsSchedule` | src/analysis/reachingdef.cpp:50-95 | conversely, an order that swaps no conflicting pair respects all dependencies that the analysis finds, before and after the closure is computed |
| `Reorder.EveryScheduleIsPicked` | src/analysis/reachingdef.cpp:50-78 | every schedule is what the scheduler returns for some callback |
| `Reorder.RescheduleAs` | src/pass/reorderpush.cpp:75-97 | analysis, closure and scheduler produce every order that swaps no conflicting pair, for some callback |
| `Reorder.Reschedule` | src/pass/reorderpush.cpp:75-97 | for every block and callback: rejected exactly when a location is written twice, otherwise a safe order |
| `BlockMeaning.OnlyPopSpIsRejected` | src/analysis/reachingdef.cpp:217-219 | the analysis stops exactly on blocks with a pop into the stack pointer |
| `BlockMeaning.RealIsAdequate` | src/analysis/reachingdef.cpp:168-442 | an effect within the real loads and stores of a known instruction, or any effect of another one, is within its real footprint |
| `BlockMeaning.OrderedKeepsMeaning` | src/analysis/reachingdef.cpp:50-78 | if all real conflicts are linked by chains of declared ones, every order that the pass can produce computes the same state, whatever the real effects, those of barriers included |
| `BlockMeaning.UnlinkedBreaks` | src/analysis/reachingdef.cpp:50-78 | two instructions that really conflict and are not linked: the pass may put the later one first, and some real effects then compute something else |
| `BlockMeaning.MeaningExactly` | src/analysis/reachingdef.cpp:50-78 | all orders that the pass can produce keep the meaning of a block if and only if every real conflict is linked by a chain of declared ones |
| `BlockMeaning.OnlyPopsAreNotDeclared` | src/analysis/reachingdef.cpp:431-436 | a real conflict that is not declared is at memory, and one of the two instructions pops into memory |
| `BlockMeaning.BlockKeepsMeaning` | src/analysis/reachingdef.cpp:50-78 | so a block that never pops into memory keeps its meaning in every order |
| `BlockMeaning.PopThenLoadBreaks` | src/analysis/reachingdef.cpp:431-436 | a pop into memory and a load of it: the swapped order can be chosen, and with these real effects of the two it gives another result from every state |
| `BlockMeaning.PopCanBeOrdered` | src/analysis/reachingdef.cpp:431-436 | a pop into memory that other conflicts keep in its place |
| `BlockMeaning.BarriersStay` | src/analysis/reachingdef.cpp:135-147 | an instruction whose form is not among the known ones keeps its place in every order |
| `BlockMeaning.RescheduleBlock` | src/pass/reorderpush.cpp:75-97 | from the instructions of a block to the new order: rejected exactly for a pop into the stack pointer, otherwise an order that keeps apart what is noticed, and that keeps the meaning of every ordered block, in particular of every block that never pops into memory |
| `BlockMeaning.PassBreaks` | src/pass/reorderpush.cpp:75-97 | where two instructions really conflict and are not linked, the pass produces, for some callback, an order that computes something else |
| `BlockMeaning.DeclaredIsReal` | src/analysis/reachingdef.cpp:168-442 | where nothing pops into memory, conflicts are declared exactly where they are |
| `BlockMeaning.DeclaredExactly` | src/analysis/reachingdef.cpp:168-442 | two instructions conflict by their declarations exactly when one of them is not known, or one stores what the other loads or stores, with the store of a pop into memory overlooked |
| `BlockMeaning.SafeExactly` | src/analysis/reachingdef.cpp:50-78 | the orders that respect the declarations are exactly those that do not reverse a noticed clash and do not move anything across an unknown instruction |
| `BlockMeaning.RescheduleTo` | src/pass/reorderpush.cpp:75-97 | each of these orders is what the pass returns for some callback |
| `BlockMeaning.SwapPair` | src/pass/reorderpush.cpp:75-97 | two known instructions that do not clash can be swapped |
| `RefLists.AddIfExist` | src/analysis/usedef.cpp:60-77 | adds without duplicates to a list that exists |
| `RefLists.AddRef` | src/analysis/usedef.cpp:53-58 | adds without duplicates |
| `RefLists.AddUse` | src/analysis/usedef.cpp:110-124 | adds without duplicates |
| `RefLists.RemoveState` | src/analysis/usedef.cpp:126-136 | the loop that deletes while it runs, for every list |
| `RefLists.SweptIsMoved` | src/analysis/usedef.cpp:126-136 | what it leaves, for every list: the list shorter by the number of times the state is in it, with the last elements in the places of the state |
| `RefLists.SweptExactly` | src/analysis/usedef.cpp:126-136 | it removes exactly the state if and only if none of the elements that it moves is the state |
| `RefLists.SweptRemoves` | src/analysis/usedef.cpp:126-136 | it removes exactly a state that is in the list at most once, reading the freed slot without harm |
| `RefLists.TwiceIsNotRemoved` | src/analysis/usedef.cpp:126-136 | a state that is there twice, as no list of the analysis has it, can stay, and another go in its stead |
| `RefLists.DelUse` | src/analysis/usedef.cpp:126-136 | only the list of the register changes; exactly the state goes, if and only if none of the elements that are moved is the state, in particular if it is in the list at most once |
| `Flow.CarriedFromEntry` | src/analysis/usedef.cpp:279-293 | what a block exposes is its own last definition, or what came in |
| `Flow.CarriesIsPlain` | src/analysis/usedef.cpp:476-527 | the sweeps carry a definition to the end of a block exactly along paths without redefinition, without a link from a block to itself, going back at most once in each component |
| `Flow.ArrivesIsPlain` | src/analysis/usedef.cpp:476-527 | the same up to the start of a block |
| `Flow.AloneSameSweep` | src/analysis/usedef.cpp:487-492 | for a component of one block one sweep is as good as two |
| `Sweeps.IncomingArrives` | src/analysis/usedef.cpp:279-293 | the exposed sets found on a visit come from exactly the sweeps that the paths ask for |
| `Sweeps.VisitExposes` | src/analysis/usedef.cpp:502-522 | a visit makes the exposed set of its block right for this sweep |
| `Sweeps.VisitRefers` | src/analysis/usedef.cpp:603-623 | a visit adds to the refs exactly what flows to the uses of its block in this sweep |
| `Sweeps.AloneNextList` | src/analysis/usedef.cpp:487-492 | one sweep over one block leaves what two would |
| `UseDef.LinkKeeps` | src/analysis/usedef.cpp:618-621 | adding a ref and the use on the other side keeps the two relations inverse and the lists free of duplicates |
| `UseDef.UseDef.constructor` | src/analysis/usedef.h:268-273 | empty sets and lists |
| `UseDef.UseDef.TransitionTo` | src/analysis/usedef.cpp:279-293 | the working set is the union of what the other predecessors expose; the block itself brings nothing |
| `UseDef.UseDef.DefReg` | src/analysis/usedef.cpp:588-601 | the state becomes the only definition of the register |
| `UseDef.UseDef.UseReg` | src/analysis/usedef.cpp:603-623 | the state refers to exactly the definitions in the working set, in addition to before |
| `UseDef.UseDef.FillBlock` | src/analysis/usedef.cpp:506-520 | each use sees the definition in force at its place |
| `UseDef.UseDef.VisitNode` | src/analysis/usedef.cpp:502-525 | the visit of a block as a whole |
| `UseDef.UseDef.AnalyzeGraph` | src/analysis/usedef.cpp:495-527 | one sweep over a component |
| `UseDef.UseDef.Analyze` | src/analysis/usedef.cpp:476-493 | all sweeps, for every order in which no block comes twice; the refs of a state used in one block start with what the first sweep finds |
| `UseDef.FirstSweepDone` | src/analysis/usedef.cpp:487-492 | after the first sweep over a component, the lists hold exactly what that sweep finds |
| `UseDef.UseDef.Inherit` | src/analysis/usedef.cpp:628-631 | the users refer to the origin, and are recorded there |
| `UseDef.UseDef.Unuse` | src/analysis/usedef.cpp:126-136 | on a list without duplicates, as all lists of the analysis are, deleting a use removes exactly that use |
| `UseDef.UseDef.CancelUseDefReg` | src/analysis/usedef.cpp:625-635 | the refs of the state go and its users refer to all upstream definitions; what the uses become; refs and uses stay inverse exactly when the state does not use its own definition or lists it first |
| `UseDef.RelinkedLinks` | src/analysis/usedef.cpp:625-635 | the same as a statement about the lists before and after |
| `StaleUses.OwnDefinitionLast` | src/analysis/usedef.cpp:476-527 | a loop for which the analysis lists the own definition of a use, and not first |
| `StaleUses.CancelLeavesUse` | src/analysis/usedef.cpp:625-635 | component order, analysis and cancellation on that loop: the state stays among the uses of a definition to which it no longer refers |
| `Chains.RefersMeansFound` | src/analysis/usedef.cpp:476-527 | the recorded refs are exactly those described by the paths |
| `Chains.FoundIsReaching` | src/analysis/usedef.cpp:476-527 | every recorded ref is a reaching definition |
| `Chains.AcyclicFindsAll` | src/analysis/usedef.cpp:476-527 | on an acyclic graph every reaching definition is recorded |
| `Chains.BuildChains` | src/analysis/usedef.cpp:476-527 | for every function, in the order of `genFull(0)`: refs and uses are inverse, the refs are exactly those described by the paths, all are reaching definitions, and on acyclic graphs they are all of them |
| `Chains.SelfLoopIsMissed` | src/analysis/usedef.cpp:279-293 | a block that links to itself: a reaching definition that is not recorded |
| `Chains.SelfLoopRun` | src/analysis/usedef.cpp:476-527 | the whole analysis on that block does not record it |
| `Chains.TwoRetreatsAreMissed` | src/analysis/usedef.cpp:487-492 | three blocks in a component: a reaching definition that two sweeps do not find |
| `Chains.ReachingIsMissed` | src/analysis/usedef.cpp:476-527 | the whole analysis on those blocks, in the order of `genFull(0)`, does not record it |
| `DirectPaths.SimpleFindsAll` | src/analysis/usedef.cpp:476-527 | if no block links to itself and no path without shortcuts goes back twice in a component, every reaching definition is recorded |
| `DirectPaths.TakesStep` | src/analysis/usedef.cpp:476-527 | a path that stays on the blocks of a path without shortcuts takes every step of it |
| `DirectPaths.CompleteExactly` | src/analysis/usedef.cpp:476-527 | in the order of `genFull(0)`, every reaching definition is recorded whatever the code, if and only if no block links to itself and no path without shortcuts goes back twice in a component |
| `DirectPaths.BuildAll` | src/analysis/usedef.cpp:476-527 | the analysis of a function: on such graphs the refs are exactly the reaching definitions |
| `SlicingTree.EqualReflexive` | src/analysis/slicingtree.cpp:46-79 | every tree equals itself |
| `SlicingTree.EqualExactly` | src/analysis/slicingtree.cpp:46-145 | for all trees: a tree equals exactly its rearrangements, which differ in the order of operands, in the widths of registers, and in the target of a plain instruction pointer |
| `SlicingTree.RearrangedIsEqual` | src/analysis/slicingtree.cpp:46-145 | whatever operands are swapped, and one-way nodes turned, the tree equals the result |
| `SlicingTree.EqualIsRearranged` | src/analysis/slicingtree.cpp:46-145 | whatever a tree equals is reached by such swaps and turns |
| `SlicingTree.SwappedIsEqual` | src/analysis/slicingtree.cpp:71-79 | swapped operands are equal for every operator, and in comparisons |
| `SlicingTree.EqualTransitive` | src/analysis/slicingtree.cpp:46-145 | comparison is transitive |
| `SlicingTree.SymmetricExactly` | src/analysis/slicingtree.h:66-82 | comparison with a tree is symmetric exactly when the tree has no node that a one-way comparison of registers applies to |
| `SlicingTree.EqualSameValue` | src/analysis/slicingtree.cpp:46-79 | equal trees have equal values when all operators commute and no one-way node occurs |
| `SlicingTree.CommutesExactly` | src/analysis/slicingtree.cpp:71-79 | over one operator, equal trees have equal values exactly when it commutes |
| `SlicingTree.ComparesExactly` | src/analysis/slicingtree.h:241-250 | comparisons that are equal have equal values exactly when comparing commutes |
| `MemLocation.MatchesAdditive` | src/analysis/slicingmatch.h:96-129 | the pattern matches exactly a register plus constants on the right, and captures exactly these |
| `MemLocation.Extract` | src/analysis/usedef.cpp:2447-2469 | the register and the sum of the constants, or the tree itself and zero |
| `MemLocation.SumLocation` | src/analysis/usedef.cpp:2447-2469 | the location of a register with constants added one after the other is the register and their total |
| `MemLocation.AdditiveIsSum` | src/analysis/slicingmatch.h:96-129 | a tree that is not its own location is a register with constants added one after the other |
| `MemLocation.LocationDenotes` | src/analysis/usedef.cpp:2447-2469 | a location denotes the address its tree computes |
| `MemLocation.SameLocationSameAddress` | src/analysis/usedef.h:465-468 | equal locations are the same address under every valuation |
| `MemLocation.SameLocationExactly` | src/analysis/usedef.h:465-468 | for registers, alone or with constants added, also the converse |
| `MemLocation.MemOriginList.Set` | src/analysis/usedef.cpp:163-182 | the entries for other locations stay, as a multiset, and one entry with the new origin is added |
| `MemLocation.MemOriginList.Add` | src/analysis/usedef.cpp:184-199 | appends unless the origin is there for the location |
| `MemLocation.OneEntry` | src/analysis/usedef.cpp:163-182 | afterwards exactly one entry is for the location |
| `ValueFlow.Search` | src/analysis/jumptabledetection.cpp:2205-2299 | terminates on cyclic chains; its answer and the states it visits are those of the functional search, in which a state is marked whatever the register |
| `ValueFlow.SearchUp` | src/analysis/jumptabledetection.cpp:2283-2296 | the loop over the refs, up to the first that cuts, is the functional search over these |
| `ValueFlow.SearchDefs` | src/analysis/jumptabledetection.cpp:2235-2280 | the loop over the definitions of a use is the functional search over those that are copies or constant shifts |
| `ValueFlow.NextIsStep` | src/analysis/jumptabledetection.cpp:2230-2296 | the search goes on from a node exactly to where a step leads |
| `ValueFlow.ShiftedFolds` | src/analysis/jumptabledetection.cpp:2244-2261 | a copy passes a value on as it is, a shift by a constant multiplies or divides it by the power of two, and every other tree passes nothing on |
| `ValueFlow.ShiftLeftIs` | src/analysis/jumptabledetection.cpp:2244-2261 | shifting left multiplies by the power of two |
| `ValueFlow.ShiftRightIs` | src/analysis/jumptabledetection.cpp:2244-2261 | shifting right divides by the power of two, rounding down |
| `ValueFlow.CutsIsFromMemory` | src/analysis/jumptabledetection.cpp:2197-2203 | the way back stops at exactly the states whose first definition of the register is a load |
| `ValueFlow.UpstreamIsRef` | src/analysis/jumptabledetection.cpp:2283-2296 | the way back leads to exactly the refs that come before the first such state |
| `ValueFlow.FoundIsReaching` | src/analysis/jumptabledetection.cpp:2205-2299 | what is found has a chain of steps behind it |
| `ValueFlow.VisitedIsMet` | src/analysis/jumptabledetection.cpp:2205-2299 | every state is visited with a register with which it can be met |
| `ValueFlow.VisitedIsCovered` | src/analysis/jumptabledetection.cpp:2205-2299 | a search that finds nothing has gone on from every state it visited to all states that a step leads to |
| `ValueFlow.NothingMissed` | src/analysis/jumptabledetection.cpp:2205-2299 | if no state can be met with two registers, a chain is found whenever there is one |
| `ValueFlow.SameRun` | src/analysis/jumptabledetection.cpp:2205-2299 | a search that does not visit a state with a register does not notice a new user of that register of that state |
| `ValueFlow.WrongWithTwo` | src/analysis/jumptabledetection.cpp:2218-2219 | of two registers with which a state can be met, the answer for a new user of one is wrong |
| `ValueFlow.RightExactly` | src/analysis/jumptabledetection.cpp:2205-2309 | the answer is right for every new user of one register of one state, if and only if no state can be met with two registers |
| `ValueFlow.ValueReaches` | src/analysis/jumptabledetection.cpp:2301-2309 | a reported bound has a chain of steps behind it, with the value folded through its shifts; if no state can be met with two registers, one is reported exactly when there is one; otherwise the bound stays |
| `ValueFlow.ShiftDivides` | src/analysis/jumptabledetection.cpp:2301-2309 | one shift to the right between the bound and the use: it is found, and the bound divided by the power of two |
| `HiddenBound.CallHidesBound` | src/analysis/jumptabledetection.cpp:2165-2180 | a call, a comparison of its result, a copy, a shift and an indirect jump: use-def analysis and search composed; the bound reaches the jump and the search says no |
| `Archive.OnlyFirstTypesSurvive` | src/archive/chunktypes.cpp:3-33 | a type survives encoding and decoding exactly if it is one of the first seven; what the others become |
| `Archive.LettersAre` | src/archive/chunktypes.cpp:3-65 | the letter of each type and the type that each letter is read as; other bytes read as the unknown type |
| `Archive.WordBytes` | src/archive/stream.cpp:59-61 | byte i of a word is its byte of weight 256 to the i |
| `Archive.ChunkFields` | src/archive/writer.cpp:38-46 | where type, id, offset, size and data of a chunk are in its bytes; of the size and the data only what 32 bits can say is written |
| `Archive.WriteData` | src/archive/writer.cpp:27-49 | header, then the bytes of each chunk |
| `Archive.AssignOffsets` | src/archive/writer.cpp:12-25 | each chunk gets the 32-bit sum of the sizes before it |
| `Archive.OffsetIsPositionPlusIndex` | src/archive/writer.cpp:12-49 | the total before chunk i is its position in the file plus i |
| `Archive.RecordedOffset` | src/archive/writer.cpp:12-49 | the offset recorded for chunk i is, in 32 bits, its position in the file plus i |
| `Archive.Read` | src/archive/reader.cpp:11-75 | the archive that the file stands for, as `ArchiveKeepsLast`, `VersionsRead` and `OtherSignature` describe it; a count that is cut off is completed with what the variable held |
| `Archive.ArchiveKeepsLast` | src/archive/reader.cpp:45-75 | for every file with a good header, whatever the ids in it: reading fails exactly when a chunk is cut off, and otherwise gives the last chunk under each id, up to the largest id |
| `Archive.CountBytes` | src/archive/reader.cpp:37-40 | each byte of the count comes from the file as far as it goes, and behind that is what the variable held |
| `Archive.RoundTrip` | src/archive/reader.cpp:45-75 | reading what was written returns the same ids, offsets and data, and the decoded encoding of the types |
| `Archive.VersionsRead` | src/archive/reader.cpp:11-43 | a file of any version up to 24 comes back, and one of a later version is rejected |
| `Archive.OtherSignature` | src/archive/reader.cpp:11-43 | a file that does not start with the signature is rejected |
| `Archive.WriteAndRead` | src/archive/writer.cpp:7-49 | offsets, writing and reading composed: ids and data come back as they were, types as their encoding decodes, offsets as position plus index in 32 bits |
| `Archive.TruncatedIsRejected` | src/archive/reader.cpp:37-62 | a proper prefix of an archive file is rejected, except exactly when it is cut inside the chunk count and both the count bytes that are there and the uninitialised ones are all zero |
| `ChunkList.Build` | src/chunk/chunklist.h:108-118 | the index that holds under each key exactly the last chunk with it; it matches the list exactly when no two chunks share a key |
| `ChunkList.BuiltHoldsLast` | src/chunk/chunklist.h:108-118 | an index built now holds under each key the last chunk with it, and nothing else |
| `ChunkList.BuiltExactly` | src/chunk/chunklist.h:108-118 | an index built now matches the list exactly when no two chunks share a key |
| `ChunkList.AddKeepsIndex` | src/chunk/chunklist.h:84-89 | adding keeps an index right exactly when no other chunk has the key |
| `ChunkList.RemoveKeepsIndex` | src/chunk/chunklist.h:91-106 | removing keeps an index right exactly when no remaining entry has the key |
| `ChunkList.ChunkList.constructor` | src/chunk/chunklist.h:52 | an empty list without indexes |
| `ChunkList.ChunkList.Add` | src/chunk/chunklist.h:84-89 | the list grows by the chunk at its end, and the indexes that exist get its key |
| `ChunkList.ChunkList.IndexOf` | src/chunk/chunklist.h:156-163 | the first place of a chunk |
| `ChunkList.ChunkList.Remove` | src/chunk/chunklist.h:91-96 | the first entry of the chunk goes, if there is one, and its key in the indexes |
| `ChunkList.ChunkList.RemoveLast` | src/chunk/chunklist.h:98-106 | likewise for the last entry; nothing happens to an empty list |
| `ChunkList.ChunkList.GetSpatial` | src/chunk/chunklist.h:75 | builds the index on first use, with the last chunk at each address, and changes nothing after that |
| `ChunkList.ChunkList.GetNamed` | src/chunk/chunklist.h:76 | likewise |
| `ChunkList.StepKeepsIndex` | src/chunk/chunklist.h:84-118 | an operation on the list leaves an index right unless, exactly, it adds a chunk with the key of another, removes one whose key a remaining entry has, or builds the index while chunks share a key |
| `ChunkList.OperationKeepsIndexes` | src/chunk/chunklist.h:84-118 | the same for both indexes of the list at once |
| `ChunkList.RunKeepsSpatial` | src/chunk/chunklist.h:84-118 | after every run that adds no chunk twice and no two at one address, the spatial index matches the list |
| `ChunkList.RunKeepsNamed` | src/chunk/chunklist.h:84-118 | after every run that adds no chunk twice and no two of one name, the named index matches the list |
| `ChunkList.SecondEntryIsLost` | src/chunk/chunklist.h:91-96 | a chunk added twice and removed once is in the list but no longer in the index |
| `ChunkList.NamesakeIsLost` | src/chunk/chunklist.h:91-96 | one of two chunks of one name is removed, and the other cannot be found |
| `ChunkList.FindContaining` | src/chunk/chunklist.h:189-197 | the chunk that starts last at or before the address, if it contains it; without overlaps, exactly the chunk that contains it |
| `ChunkList.OverlapIsCommonPoint` | src/util/range.cpp:7-18 | chunks that are not empty overlap exactly when they have an address in common |
| `ChunkList.EmptyChunkHides` | src/chunk/chunklist.h:189-197 | an empty chunk inside another one hides it |
| `ChunkCache.Make` | src/chunk/cache.cpp:12-40 | the code of the chunk, and the places that the addresses of the instructions give their displacements |
| `ChunkCache.CodeAt` | src/chunk/cache.cpp:12-40 | the bytes of an instruction come after those of all blocks before its block and all instructions before it |
| `ChunkCache.RecordedExactly` | src/chunk/cache.cpp:12-40 | the recorded places are those of the displacements in the code exactly when the instructions that have one are at the addresses that the code gives them |
| `ChunkCache.PlaceIsListed` | src/chunk/cache.cpp:23-31 | each displacement has its place in the list |
| `ChunkCache.ListedIsPlace` | src/chunk/cache.cpp:23-31 | each place in the list is that of a displacement |
| `ChunkCache.PlacesApart` | src/chunk/cache.cpp:12-40 | displacements in the code do not overlap, and come in order |
| `ChunkCache.CopyAndFix` | src/chunk/cache.cpp:43-51 | the words at the fixups are replaced one after the other by the moved words of the code; where they do not overlap, each is there in the end and nothing else changes; the buffer behind the copy stays |
| `ChunkCache.TargetKept` | src/chunk/cache.cpp:43-51 | a sign-extended displacement refers to the same address from the copy as from the original exactly when the new distance fits in 32 bits |
| `ChunkCache.FarCopyMisses` | src/chunk/cache.cpp:43-51 | a copy 4 GB away refers elsewhere |
| `ChunkCache.CopyChunk` | src/chunk/cache.cpp:12-51 | from the blocks of a chunk to the copied code: only displacements change, and every instruction refers to the same address exactly when the new distance fits in 32 bits |

## Left out

- Reorder.Reschedule: push reordering is not modelled; the pass that would ask for it has it disabled.
- ReachingDef.ReachingDef.ComputeDependencyClosure: only the form without push reordering, for the same reason.
- BlockMeaning.RescheduleBlock: likewise without push reordering.
- ControlFlow.ControlFlowGraph.constructor: does not record the offsets of links and whether they follow a jump; no modelled analysis reads them.
- ControlFlow.ControlFlowGraph.AddEdge: likewise.
- ControlFlow.ControlFlowGraph.AddTable: likewise.
- ControlFlow.ControlFlowGraph.ConstructBlock: likewise.
- UseDef.UseDef.UseReg: does not model partial chains, which nothing in the repository turns on, nor the error thrown for registers that are not integer registers or flags.
- UseDef.UseDef.TransitionTo: leaves out the memory half of the working set; the lists it is made of are in `MemLocation`.
- UseDef.UseDef.Analyze: orders that list a block twice are excluded; the component orders never do.
- UseDef.UseDef.DefReg: does not keep the tree of the definition.
- UseDef.UseDef.CancelUseDefReg: the removal of the definition itself (`delRegDef`) is not modelled, as trees of definitions are not kept.
- MemLocation.Extract: offsets are unbounded integers, without 64-bit overflow.
- SlicingTree.EqualSameValue: the widths of registers and dereferences, which comparison ignores, do not enter the value.
- ValueFlow.ValueReaches: shifts are on unbounded integers; amounts below 0 or above 63 and 64-bit overflow, undefined in the source, are not modelled.
- Archive.Read: ids are unbounded when chunks are put in the list, so the wrap-around for the id 0xffffffff is not modelled; chunks are values rather than objects updated in place.
- ChunkCache.CopyAndFix: recorded places outside the code, where the source would write outside the copy, are excluded.
- ChunkCache.CopyChunk: the instructions with displacements are taken to be at the addresses that the code gives them; this is exactly when the recorded places are right (`RecordedExactly`).
- Archive.WriteData: lists with gaps, on which the writer crashes, and types beyond the encoding table are excluded.
- ChunkList.RunKeepsSpatial: insertion at a position, which bypasses the indexes, is not an operation of the run.
- ChunkList.RunKeepsNamed: likewise.
- The per-opcode handlers of the use-def analysis, and all AArch64 and RISC-V variants: long case lists that only produce uses and definitions.
- Post-dominators (src/analysis/dominance.cpp:102-150): the function ignores its argument.
- The component order that the dominance constructor computes only to log it.
- `findAllContaining` and `findAllWithin` of the spatial index: the first looks back five entries by design.
- The rest of jump table detection, slicing and pointer detection: heuristics on top of what is modelled.
- Applications, shells, scripts, logging and dumping, ELF parsing, serialization of chunk contents, object lifetime.
- Vendored code under dep/.
