# Dynamic symmetry breaking over two CDCL solvers: a verified model

The repository adds a layer called cosy to two SAT solvers. Cosy finds symmetries of a formula on a graph, orders the
variables, and while the solver runs it watches for each symmetry generator whether the current assignment can still
be extended to the smallest assignment of its orbit. When it cannot, cosy hands the solver a clause that forbids the
current values. This project models that layer, the MiniSat kernel and simplifier it works with, and the two Glucose
passages that touch it, and proves what they promise.

## What is proved

**Symmetry breaking keeps satisfiability.** Soundness.dfy and Runs.dfy treat cosy as a state machine with the steps
notify, cancel and fetch. `Runs.RunSound` says that the lexicographically least model satisfies every clause emitted
in any run whose reducing pairs meet the condition below, whatever the order in which generators are visited and
wherever the notify loop stops early. `Runs.RunEquisatisfiable` and `Runs.InvolutionsEquisatisfiable` draw the
conclusion. The classes in CosyStatus.dfy, CosyManager.dfy and SymmetryController.dfy carry out the loops of the
source and are proved to take exactly these steps.

**Where it fails.** The verdict tests whichever of a literal and its preimage stands earlier in the order
(src/CosyStatus.cc:83-92). `Soundness.ReducerVerdictExact` proves that a REDUCER verdict means that every extension
has a smaller image if and only if the literal is not later than its preimage. Generators made of two-cycles always
meet this condition (`Soundness.InvolutionAligned`). With longer cycles it can fail: `LongCycles.LongCyclesUnsound`
exhibits a satisfiable formula, two rotations of length three and a run, with every emitted clause answered by
backtracking, whose clauses make the formula unsatisfiable. `Alignment.TrustworthyExactly` says which generators are
affected, before anything is assigned: following the inverse of a moved variable back through the variables before it
tells at which pairs a walk can ever be decided, and the verdicts of a generator are right if and only if at those
pairs the literal is not later than its preimage. `Alignment.TrustworthyByRuns` states the same condition on runs: it
holds if and only if no clause the generator emits on its own forbids an assignment that comes before its image;
otherwise `Alignment.UntrustworthyEmits` builds a run that emits a clause which forbids nothing else.
`Alignment.TrustworthyEquisatisfiable` then holds for all runs.

**From a formula to the clauses.** `Sessions.BreakSymmetries` puts the parts together for one formula: automorphisms
of its graph are read and filtered, an order is made, the controller is enabled, and the solver takes the units, then
reports, withdraws and takes clauses in any sequence the interface allows; such sequences are exactly the runs
(`Sessions.DrivenIsRun`, `Sessions.RunIsDriven`). KeptArrays.dfy says what comes of the arrays: exactly those that
keep signs and move something are kept, one generator for each, its table the inverse of the array, all in the order
the mode stands for. The formula with everything received is satisfiable if and only if the formula is, provided the
generators can be trusted in that order; if every kept array is its own inverse they can, in any order.
`Solving.SolveFormula` goes on to an answer: rounds of the verified search alternate with rounds of calls, the clauses
received are added, a model is always one of the formula, and a refutation is one under the same condition.

**Nothing is overlooked.** The notify loop stops at the first generator that reduces, which leaves the lookup indices
of the others behind. `Detection.EveryReducerDetected` proves that this is harmless as long as the solver answers an
emitted clause by backtracking, and `Detection.DetectionExactly` that what is assigned before symmetry breaking starts
must not already settle a first pair; an empty assignment never does. `Runs.BacktrackRestores` proves that
backtracking restores every lookup index and undo stack exactly.

**The symmetries are symmetries.** CNFGraph.dfy builds the coloured graph, Automorphism.dfy reads an automorphism
array back as cycles of literals, Group.dfy filters, and `FormulaSymmetry.GeneratorIsSymmetry` proves that what passes
the filter maps the clause set onto itself, although binary clauses and the links between a literal and its negation
use the same kind of edge. `CNFGraphs.AutomorphismsExactly` adds the converse: among the node permutations that
respect negation, the automorphisms of the coloured graph are exactly the symmetries of the formula that leave unused
variables alone. DisjointSets.dfy and Orbits.dfy compute orbits, Order.dfy the variable orders. The BreakID order
claims to list next a variable of the largest orbit (include/cosy/Order.h:145). Picking.dfy proves what the scan does
instead: it picks a variable such that no orbit as large as its own has a rarer one, and `Picking.LargestExactly` that
the claim holds in every order of the orbits if and only if the rarest variable of all is in a largest orbit.

**The CDCL kernel.** Solver.dfy is the solver class: propagation with two watched literals and blockers, in-place
compaction of watcher lists, conflict analysis, recursive clause minimisation, backtracking, adding clauses and the
search loop. `Solvers.Solver.Propagate` keeps the watch invariant and leaves no unit clause behind,
`Solvers.Solver.Analyze` returns an asserting clause that is implied and consists of exactly the first unique
implication point and the front behind it, without what minimisation may drop; Reaching.dfy says what that is on the
trail alone, and that the marks left by earlier answers do not change it. `LevelFilter.FilterLosesNothing` proves that
giving up early at levels that do not occur changes no answer. `Solvers.Solver.Search` is right in all its answers,
with assumptions, and each conflict leaves exactly one clause or level-0 fact more (Counting.dfy).
GarbageCollection.dfy proves that collecting clause memory with forwarding references is an isomorphism.
BinaryMinimisation.dfy is Glucose's minimisation with binary clauses. SolverHook.dfy proves that an emitted clause is
a conflict this analysis accepts. It also proves when such a clause can be watched: attached as the source attaches
it, the two-watch invariant survives backtracking if and only if the literal in slot 0 becomes unassigned. The
exchange in src/CosyStatus.cc:136 does not ensure that, because it leaves there the first variable of the first pair
that is not the reason, whatever its level. `SolverHook.EmittedLost` names a condition on the clause alone, before the
analysis: if it has a single literal of the current level and minimisation cannot drop slot 0, the invariant is lost,
and the learnt literal restores it only when slot 0 is of the very level returned to. `LostWatch.InvariantLost` gives
a run of one involution and a trail of four decisions where it stays lost. Then the clause may propagate late; the
other clauses keep the invariant.

**The simplifier.** EliminationRuns.dfy proves that after any sequence of variable eliminations and equivalent
rewritings, one backward walk over the flat vector of stored clauses turns a model of the last formula into a model of
the first. Simplifier.dfy holds the class whose `EliminateVar` is proved to make such a step, together with
subsumption and strengthening, and to do so exactly when the resolvents are few and short enough; Subsumption.dfy
proves the subsumption test exact, including its 32-bit filter.

**Containers.** Heap.dfy and Sort.dfy are MiniSat's indexed heap and sort. Words.dfy and Bitset.dfy prove the
word-level tricks on bitsets equal to reading the bits one by one: the masks, the parallel population count, first and
last set bit, the range queries, the iterator and the queue of set bits.

## How it is laid out

Values and their theory come first (Logic, LexLeader, Lookup, Trail, Watches, Propagation, Analysis, Minimisation,
Search, Resolution, Elimination, Subsumption, KeptArrays); each class then keeps its fields as the source does and
states what a method does in terms of that theory. A literal is a variable and a sign, a model maps variables to truth
values, an assignment is a finite map. What is chosen by heuristics in the source (decisions, the order of watchers
and of orbits, when to give up) is left to nondeterministic choice or a parameter. `dafny verify dfyconfig.toml`
checks everything.

## Model

| member | source | states |
|---|---|---|
| LexLeader.LexLeastExists | src/Order.cc:33-49 | a satisfiable formula has a model that is least in the variable order under the value mode: the model symmetry breaking must keep |
| Lookup.Walk | src/CosyStatus.cc:47-56 | the lookup index stops at the first pair that does not agree, every pair before it does |
| Soundness.ImageIsModel | src/CosyStatus.cc:48-49 | applying the inverse of a symmetry to a model of the formula gives a model |
| Soundness.VerdictCompares | src/CosyStatus.cc:72-105 | when both values of the pair at the lookup index are assigned and differ, the verdict is INACTIVE or REDUCER, and together with the alignment of the pair it decides which of a total extension and its image is the smaller one |
| Soundness.ReducerVerdictExact | src/CosyStatus.cc:83-92 | exact condition: REDUCER is right about all extensions if and only if the element is not later in the order than its inverse |
| Soundness.InvolutionAligned | src/Order.cc:33-37 | for generators of two-cycles that condition always holds at the first pair that differs |
| Soundness.EsbpHolds | src/CosyStatus.cc:107-140 | the lexicographically least model satisfies the clause a REDUCER status builds |
| Soundness.InvertingUnitHolds | src/CosyStatus.cc:23-40 | the least model satisfies the unit built for an inverting first pair |
| Soundness.EsbpIsFalsified | src/CosyStatus.cc:116-133 | every literal of the clause is false under the notified assignment |
| Soundness.EsbpMentions | src/CosyStatus.cc:120-133 | the clause has exactly one literal, the false one, for the reason and for every variable of a pair up to the lookup index, and no other literal |
| Soundness.EsbpSize | src/CosyStatus.cc:135-136 | the clause has one literal exactly if the lookup index is 0 at an inverting pair of the reason; otherwise it has more and the false literal of the reason is in slot 1 and that of the first variable of the first pair that is not the reason in slot 0 |
| Runs.StepKeepsInv | include/cosy/SymmetryController.h:140-157 | notify, cancel and fetch keep: pairs below each lookup index are assigned and agree, the undo stacks lead back along the trail, pending clauses belong to notified variables |
| Runs.RunKeepsInv | include/cosy/SymmetryController.h:140-187 | the same in every state of every run, whatever the watch order and wherever the notify loop stops |
| Runs.InitInv | src/CosyManager.cc:20-39 | the state after enabling satisfies it |
| Runs.BacktrackRestores | src/CosyStatus.cc:60-70 | a run that comes back to its trail has every lookup index and undo stack exactly as before |
| Runs.EmissionSound | src/CosyManager.cc:49-60 | one emitted clause holds in the least model, if the element of the reducing pair is not later than its inverse |
| Runs.RunSound | src/CosyManager.cc:36-61 | the least model satisfies every clause and unit emitted in a run, if in its states a reducing pair has its element not later than its inverse |
| Runs.RunEquisatisfiable | src/CosyManager.cc:36-61 | adding everything emitted in a run never changes satisfiability, if the element is not later than its inverse wherever a status reduces in the run |
| Runs.InvolutionsEquisatisfiable | src/CosyStatus.cc:72-140 | for involutive generators this needs no condition |
| Runs.EmittedIsConflict | src/CosyStatus.cc:107-140 | an emitted clause is false, repeats nothing, is stored for the reason, and has the reason in slot 1 exactly when it is not the one-literal case |
| Runs.UnitsPreventShortClauses | src/CosyManager.cc:36-39 | when the inverting units are true no one-literal clause is emitted |
| Detection.EveryReducerDetected | src/CosyManager.cc:49-60 | if the solver answers an emitted clause by backtracking and nothing is overlooked at the start, the early exit of the notify loop overlooks no generator: outside an alarm every index is exact and no REDUCER is left unnoticed, for any values assigned before the start |
| LongCycles.LongCyclesUnsound | src/CosyStatus.cc:83-92 | without the condition: a satisfiable formula, two of its symmetries whose cycles all have length three, and a run that answers every emitted clause by backtracking, whose clauses make the formula unsatisfiable |
| SolverHook.EmittedStartsAnalysis | examples/solvers/glucose-3.0/core/Solver.cc:795-800 | an emitted clause is false with a literal of the current level, and with two literals or more it can be attached and analysed as a conflict |
| Assignments.Assignment.AssignFromTrueLiteral | include/cosy/Assignment.h:48-52 | the two bits of a variable encode the partial assignment; assigning changes one variable |
| Assignments.Assignment.UnassignLiteral | include/cosy/Assignment.h:54-57 | clears both bits of one variable |
| Assignments.Assignment.HasSameAssignmentValue | include/cosy/Assignment.h:75-78 | true exactly when both literals are assigned with the same truth value |
| Assignments.Assignment.GetFalseLiteralForAssignedVariable | include/cosy/Assignment.h:91-95 | the false literal of an assigned variable |
| Orders.Order.Add | src/Order.cc:21-27 | positions of both polarities agree and nothing is listed twice |
| Orders.CompleteIsValid | src/Order.cc:21-37 | a complete order lists every variable once and the index table is its inverse |
| Orders.Order.Leq | src/Order.cc:33-37 | one of the two literals, at a position no later than either; the first one when both stand at the same position |
| Orders.Order.IsMinimalValue | src/Order.cc:39-43 | holds exactly for a literal whose variable is assigned so that the literal has the smaller value of the mode |
| Orders.Order.IsMaximalValue | src/Order.cc:45-49 | the same for the larger value |
| Orders.Order.Increase | include/cosy/Order.h:76-80 | a finished order, by index |
| Orders.Order.Occurrence | include/cosy/Order.h:100-113 | a finished order, by decreasing occurrence and then index |
| Orders.SortVariables | include/cosy/Order.h:108-109 | every variable once, sorted by occurrence and index |
| Orders.Order.BreakID | include/cosy/Order.h:122-190 | the generator loop ends; the finished order first lists variables such that each is the first one some generator moves, every generator moves one, and each is, for the generators that move none before it, the rarest of all whose orbits are as large as its own; then all others by index |
| Orders.Order.AddMoved | include/cosy/Order.h:134-182 | the greedy loop that does so; each round drops exactly the generators that move the variable |
| Injection.ClauseInjector.AddClause | include/cosy/ClauseInjector.h:26-29 | adds the clause unless one waits for its cause already; no variable ever has more than one clause waiting |
| Injection.ClauseInjector.RemoveClause | include/cosy/ClauseInjector.h:31-33 | drops what waits for a cause, nothing else |
| Injection.ClauseInjector.GetClause | include/cosy/ClauseInjector.h:41-50 | hands out the latest waiting clause and removes it |
| CosyStatuses.WalkUnique | src/CosyStatus.cc:47-56 | an index that stops the walk is the only one |
| CosyStatuses.CosyStatus.UpdateNotify | src/CosyStatus.cc:42-58 | index, undo stack and verdict become those of the specification |
| CosyStatuses.CosyStatus.UpdateState | src/CosyStatus.cc:72-105 | the verdict of the specification, which Soundness.VerdictCompares and Soundness.ForcedExactly explain |
| CosyStatuses.CosyStatus.UpdateCancel | src/CosyStatus.cc:60-70 | pops exactly when the latest entry is of the variable |
| CosyStatuses.CosyStatus.GenerateUnitClauseOnInverting | src/CosyStatus.cc:23-40 | adds the inverting unit at an inverting pair, nothing otherwise |
| CosyStatuses.CosyStatus.CollectESBP | src/CosyStatus.cc:107-136 | the loops build a clause with exactly the specified literals, without repeats; after the exchange the reason is in slot 1 and the first variable of the first pair that is not the reason in slot 0 |
| CosyStatuses.CosyStatus.GenerateESBP | src/CosyStatus.cc:107-140 | hands that clause to the injector for the reason |
| CosyManagers.RestrictedIsLookup | src/CosyManager.cc:29-33 | the lookup order a generator receives is the order restricted to its moved variables |
| CosyManagers.CosyManager.constructor | src/CosyManager.cc:10-34 | statuses wired to the generators of the group, all at index 0 |
| CosyManagers.CosyManager.GenerateUnits | src/CosyManager.cc:36-39 | the units of the inverting first pairs are added, one for each such generator, in their order |
| CosyManagers.CosyManager.UpdateNotify | src/CosyManager.cc:41-61 | a visited subset of the watchers is updated, at most the last visited one reduces and its clause is emitted; all are visited if none reduces |
| CosyManagers.CosyManager.UpdateCancel | src/CosyManager.cc:63-75 | every watcher of the variable is undone |
| SymmetryControl.SymmetryController.UpdateNotify | include/cosy/SymmetryController.h:139-145 | refines a notify step of the state machine |
| SymmetryControl.SymmetryController.UpdateCancel | include/cosy/SymmetryController.h:147-157 | refines a cancel step: assignment first, then the statuses, then the injector |
| SymmetryControl.SymmetryController.ClauseToInject | include/cosy/SymmetryController.h:167-174 | refines a fetch step |
| SymmetryControl.SymmetryController.constructor | include/cosy/SymmetryController.h:123-137 | the first state of a run |
| Permutations.Permutation.AddToCurrentCycle | src/Permutation.cc:7-19 | cycle list and both lookup tables stay consistent |
| Permutations.Permutation.CloseCurrentCycle | src/Permutation.cc:21-37 | the last element is linked to the first; a closed permutation has two-sided inverse tables |
| Permutations.MutuallyInverseAdd | src/Permutation.cc:16-17 | adding a pair to both tables keeps them inverse |
| Groups.NothingFixed | src/Group.cc:55-69 | a closed permutation maps none of its literals to itself |
| Groups.ConsistentGivesInverse | src/Group.cc:55-69 | a permutation that passes the filter gives the negation-respecting inverse table a lookup needs |
| Groups.Group.IsPermutationSpurious | src/Group.cc:55-69 | exactly the permutations some moved literal of which does not move consistently with its negation |
| Groups.Group.AddPermutation | src/Group.cc:14-48 | spurious and empty ones are dropped; otherwise watchers, symmetric and inverting variables grow by exactly the moved and inverted ones |
| Automorphism.NodesAreLiterals | include/cosy/CNFGraph.h:18-41 | literal and node numberings are inverse to each other |
| Automorphism.OnAutomorphism | src/BlissSymmetryFinder.cc:9-37 | ends on every bijection that keeps literal nodes apart; the permutation is the array on moved literals, with inverse tables, trivial exactly on fixed ones |
| Automorphism.FollowCycle | src/BlissSymmetryFinder.cc:28-33 | the inner loop comes back to its start |
| CNFGraphs.CNFGraph.Assign | src/CNFGraph.cc:19-58 | the graph encodes the clauses with as many edges as they need, the variables without occurrence get colours of their own and all other literals share one |
| CNFGraphs.CNFGraph.AddEdge | src/CNFGraph.cc:60-73 | adds one undirected edge, also from a node to itself, and counts it at both ends |
| CNFGraphs.ColorsKeepLiterals | src/CNFGraph.cc:55-57 | colours keep literal nodes and clause nodes apart |
| CNFGraphs.BinaryImage | src/CNFGraph.cc:27-30 | an automorphism that respects negation maps a binary clause that is no tautology to such a clause, although binary clauses share the edge kind of negations |
| CNFGraphs.NodeImage | src/CNFGraph.cc:31-37 | and every other clause to a clause |
| CNFGraphs.AutomorphismMapsClauses | src/CNFGraph.cc:19-58 | every clause, except those of the form x or not x, has its image among the clauses |
| CNFGraphs.UnusedNotMoved | src/CNFGraph.cc:46-54 | variables of no clause are fixed by every automorphism |
| FormulaSymmetry.FilterKeepsNegation | src/Group.cc:55-69 | passing the filter is what makes an automorphism respect negation |
| FormulaSymmetry.GeneratorIsSymmetry | src/CNFGraph.cc:19-58 | a generator found on the graph and kept by the group is a symmetry of the formula, clauses of the form x or not x aside: what the soundness theorem assumes |
| DisjointSet.DisjointSets.Add | include/cosy/DisjointSets.h:45-54 | a new element is a set of its own |
| DisjointSet.DisjointSets.Find | include/cosy/DisjointSets.h:81-97 | returns the root; path compression points exactly the nodes on the way at it and changes no set and no rank |
| DisjointSet.DisjointSets.Union | include/cosy/DisjointSets.h:56-79 | merges two sets and no others, ranks grow towards roots, a root of rank r has at least 2^r elements, the counters stay right |
| DisjointSet.CompressKeepsRoots | include/cosy/DisjointSets.h:88-94 | pointing a node at its root changes no root |
| DisjointSet.HungRoot | include/cosy/DisjointSets.h:69-76 | linking moves exactly one set under the other root |
| DisjointSet.HungWeighed | include/cosy/DisjointSets.h:69-76 | and keeps the size bound of every root |
| OrbitPartition.Orbits.Assign | src/Orbits.cc:7-42 | lists exactly the moved variables; two of them share an orbit exactly when a chain of generator images connects them |
| OrbitPartition.TogetherIsConnected | src/Orbits.cc:17-33 | the sets of the union-find are the connected components of the links made so far |
| Trails.TrailImplied | examples/solvers/minisat/core/Solver.cc:431-441 | every assignment with a reason follows from the clauses and the reasonless ones before it |
| Trails.LevelsGrow | examples/solvers/minisat/core/Solver.cc:431-436 | levels do not decrease along the trail |
| Trails.EnqueuedReasoned | examples/solvers/minisat/core/Solver.cc:431-436 | enqueuing keeps: a reason's first literal is the forced one, the others were false before |
| Trails.BacktrackedKeeps | examples/solvers/minisat/core/Solver.cc:207-220 | backtracking keeps exactly the assignments of the kept levels |
| Watching.NothingUnit | examples/solvers/minisat/core/Solver.cc:461-514 | from the watch invariant at a fully propagated trail: each clause has a true literal or neither watched literal false |
| Watching.MovedSettled | examples/solvers/minisat/core/Solver.cc:492-496 | choosing a new watch keeps the invariant |
| Watching.BlockerSettled | examples/solvers/minisat/core/Solver.cc:486-489 | so does a new blocker |
| Watching.SwappedSettled | examples/solvers/minisat/core/Solver.cc:478-482 | and exchanging the two watched literals |
| Watching.AttachedStable | examples/solvers/minisat/core/Solver.cc:162-168 | and attaching a clause whose false watch is excused by the other |
| Watching.BacktrackedStable | examples/solvers/minisat/core/Solver.cc:207-220 | and backtracking, with the queue head at the start of the undone levels |
| Propagation.BusyUnit | examples/solvers/minisat/core/Solver.cc:499-507 | enqueuing the forced literal keeps it |
| Propagation.BusyConflict | examples/solvers/minisat/core/Solver.cc:500-505 | after a conflict the lower levels are still propagated |
| Propagation.LearntSteady | examples/solvers/minisat/core/Solver.cc:646-654 | attaching and asserting a learnt clause keeps it |
| Propagation.SameModels | examples/solvers/minisat/core/Solver.cc:478-495 | reordering the literals of clauses changes no model |
| Solvers.Solver.UncheckedEnqueue | examples/solvers/minisat/core/Solver.cc:431-441 | the trail grows by one literal at the current level |
| Solvers.Solver.NewDecisionLevel | examples/solvers/minisat/core/Solver.h:325 | a level starts at the end of the trail |
| Solvers.Solver.CancelUntil | examples/solvers/minisat/core/Solver.cc:207-220 | the trail is cut at the level, what is left is propagated, no model is gained or lost |
| Solvers.Solver.AttachClause | examples/solvers/minisat/core/Solver.cc:162-168 | one watcher on each of the first two literals |
| Solvers.Solver.FindWatch | examples/solvers/minisat/core/Solver.cc:492-493 | the first literal from slot 2 on that is not false |
| Solvers.Solver.Visit | examples/solvers/minisat/core/Solver.cc:470-497 | one watcher: skip, update the blocker, or look for another watch |
| Solvers.Solver.Rewatch | examples/solvers/minisat/core/Solver.cc:491-508 | move the watch, enqueue the forced literal or report a false clause with a literal of the current level |
| Solvers.Solver.PropagateLiteral | examples/solvers/minisat/core/Solver.cc:466-512 | the in-place compaction of one watcher list keeps the invariant |
| Solvers.Solver.Propagate | examples/solvers/minisat/core/Solver.cc:455-519 | no conflict: no clause is unit or false; conflict: a false clause with a literal of the current level; ends; clauses keep their literals and every new assignment has a reason |
| Analysis.ConflictCuts | examples/solvers/minisat/core/Solver.cc:275-298 | the false clause makes the trail's values above level 0 of its variables jointly impossible |
| Analysis.ResolveCuts | examples/solvers/minisat/core/Solver.cc:283-303 | so do they after a variable is replaced by the others of its reason |
| Analysis.HasReason | examples/solvers/minisat/core/Solver.cc:276 | a seen literal that is not the last of the current level has a reason |
| Analysis.KeptDiffers | examples/solvers/minisat/core/Solver.cc:363-389 | along the trail order: a model that differs at a seen variable differs at a kept one |
| Analysis.KeptCuts | examples/solvers/minisat/core/Solver.cc:308-337 | dropping literals that follow from seen ones leaves an implied clause |
| Solvers.Solver.AddReason | examples/solvers/minisat/core/Solver.cc:283-296 | exactly the unseen variables above level 0 become seen; counted at the current level, collected below |
| Solvers.Solver.LastSeen | examples/solvers/minisat/core/Solver.cc:298-300 | the latest seen literal, of the current level |
| Solvers.Solver.FirstUIP | examples/solvers/minisat/core/Solver.cc:266-305 | replacing trail literals by their reasons from the conflict backwards, the first front with a single literal of the current level: that literal in slot 0 and exactly the rest of the front after it, stated on the trail alone; an implied clause |
| Solvers.Solver.LitRedundant | examples/solvers/minisat/core/Solver.cc:363-389 | yes if and only if everything reached from the literal through reasons, without passing what is seen or of level 0, has a reason and a level residue among the given ones; yes marks exactly what is reached, no leaves marks and list as before; ends |
| Solvers.Solver.ReasonSeen | examples/solvers/minisat/core/Solver.cc:327-332 | whether all other literals of the reason are seen or of level 0 |
| Solvers.Solver.Minimise | examples/solvers/minisat/core/Solver.cc:307-341 | in every mode exactly the literals are dropped that the mode may drop, judged by the marks before the first one is dropped; the shortened clause is implied |
| Solvers.Solver.BacktrackLevel | examples/solvers/minisat/core/Solver.cc:343-356 | a literal of the highest level after slot 0 is in slot 1, a permutation |
| Solvers.Solver.Analyze | examples/solvers/minisat/core/Solver.cc:266-358 | the learnt clause is exactly the first unique implication point and the front behind it without what the mode may drop; implied, false, slot 1 of the backtrack level (0 for a unit) and none above it, no variable twice, no mark left |
| Solvers.Solver.Learn | examples/solvers/minisat/core/Solver.cc:642-654 | back at the level the clause is stored, unless it is a unit, and its first literal forced by it; the watch invariant holds and no model is lost; clauses and reasonless level-0 literals together are one more |
| Solvers.Solver.ResolveConflict | examples/solvers/minisat/core/Solver.cc:636-656 | a conflict at level 0 leaves no model; at any other the clause the analysis must find is learnt at the level it asserts at |
| Solvers.Solver.AnalyzeFinal | examples/solvers/minisat/core/Solver.cc:401-428 | the literal and the negations of exactly those decisions that are reached back from it through reasons: an implied clause; no mark left |
| Solvers.Solver.SortClause | examples/solvers/minisat/core/Solver.cc:138 | sorted by code, a permutation |
| Solvers.Solver.AddClause | examples/solvers/minisat/core/Solver.cc:132-159 | the models afterwards are those before that satisfy the clause; a clause with a true literal or both literals of a variable changes nothing, of any other one exactly the unassigned literals are stored in order of their codes, or asserted and propagated; no if and only if the solver gives up, and then there is no model |
| Solvers.Solver.NextAssumption | examples/solvers/minisat/core/Solver.cc:682-697 | the first assumption that is not true is decided next if it is open; if it is false the answer is the implied clause of it and the negated assumptions that make it false; none left means all are true |
| Solvers.Solver.Search | examples/solvers/minisat/core/Solver.cc:625-716 | true: the assignment is total, satisfies the assumptions, and every extension of it is a model; false: the reported clause of negated assumptions is implied (empty: no model); undecided: back at level 0 with the same models, at the bound on conflicts or out of budget; every conflict above level 0 has left one clause or one level-0 fact more |
| Searching.FinalIsImplied | examples/solvers/minisat/core/Solver.cc:401-428 | the clause over the decisions found is implied |
| Searching.ModelFound | examples/solvers/minisat/core/Solver.cc:702-706 | an assignment that satisfies every clause extends only to models |
| BinaryMinimisation.BinaryMinimiser.ComputeLBD | examples/solvers/glucose-3.0/core/Solver.cc:346-371 | the number of distinct levels |
| BinaryMinimisation.BinaryMinimiser.Minimise | examples/solvers/glucose-3.0/core/Solver.cc:407-445 | in a clause of few levels, drops exactly the literals whose negation a binary clause of the asserting literal implies |
| BinaryMinimisation.MinimisedFollows | examples/solvers/glucose-3.0/core/Solver.cc:420-427 | the shorter clause follows from the learnt one and those binary clauses |
| BinaryMinimisation.PartitionDone | examples/solvers/glucose-3.0/core/Solver.cc:429-441 | the exchange loop leaves exactly the removed literals at the end |
| GarbageCollection.Collector.Reloc | examples/solvers/minisat/core/SolverTypes.h:234-248 | copies a clause the first time, follows the forwarding reference afterwards; forwarding references never change |
| GarbageCollection.Collector.RelocReasons | examples/solvers/minisat/core/Solver.cc:918-925 | every reason of an assigned variable is moved |
| GarbageCollection.GarbageCollect | examples/solvers/minisat/core/Solver.cc:902-949 | watchers, reasons, learnt and original references move along one isomorphism: same literals in order, mark, learnt flag and activity, equal after iff equal before; exactly what is referred to is copied |
| GarbageCollection.CollectedSteady | examples/solvers/minisat/core/Solver.cc:902-936 | watcher lists, reasons and the two-watch invariant survive the collection, and no clause is lost |
| Resolution.Merge | examples/solvers/minisat/simp/SimpSolver.cc:217-244 | no exactly for a tautology; otherwise the resolvent without repeats |
| Resolution.MergeSize | examples/solvers/minisat/simp/SimpSolver.cc:248-274 | the same verdict, and the number of literals in the two clauses over other variables |
| Resolution.ResolventImplied | examples/solvers/minisat/simp/SimpSolver.cc:517-521 | both clauses imply their resolvent |
| Elimination.MkElimClause | examples/solvers/minisat/simp/SimpSolver.cc:444-466 | appends the clause with the eliminated literal first and its length last |
| Elimination.MkElimUnit | examples/solvers/minisat/simp/SimpSolver.cc:437-441 | appends a one-literal entry |
| Elimination.ExtendModel | examples/solvers/minisat/simp/SimpSolver.cc:563-577 | the backward walk over the flat vector sets the first literal of each entry whose other literals are all false, last entry first, on any assignment that may be partial |
| EliminationRuns.EliminationBack | examples/solvers/minisat/simp/SimpSolver.cc:499-521 | one elimination: an assignment satisfying the new clauses, extended by the entries stored for it, satisfies the old ones |
| EliminationRuns.RunExtends | examples/solvers/minisat/simp/SimpSolver.cc:470-528 | any sequence of eliminations and equivalent rewritings: walking back through the whole stack turns an assignment that satisfies the last clauses into one that satisfies the first |
| EliminationRuns.RunImplied | examples/solvers/minisat/simp/SimpSolver.cc:517-521 | every later clause is implied by the original ones |
| EliminationRuns.RunEquisatisfiable | examples/solvers/minisat/simp/SimpSolver.cc:470-528 | a run changes nothing about satisfiability |
| Subsumption.FilterPasses | examples/solvers/minisat/core/SolverTypes.h:154-159 | the 32-bit abstraction never rejects clauses whose variables all occur in the other |
| Subsumption.SizePasses | examples/solvers/minisat/core/SolverTypes.h:375 | nor does the size test |
| Subsumption.Subsumes | examples/solvers/minisat/core/SolverTypes.h:367-396 | exact: subsumed iff all literals occur, strengthening by p iff all but p occur and p occurs negated, filters included |
| Subsumption.SubsumedImplied | examples/solvers/minisat/simp/SimpSolver.cc:371-372 | a subsumed clause is implied |
| Subsumption.StrengthenedSame | examples/solvers/minisat/simp/SimpSolver.cc:373-377 | beside the other clause the strengthened one is equivalent |
| Simplifiers.Simplifier.Lookup | examples/solvers/minisat/core/SolverTypes.h:269 | exactly the stored clauses with the variable, each once |
| Simplifiers.Simplifier.AddClause | examples/solvers/minisat/simp/SimpSolver.cc:135-171 | exactly the literals that are not false are kept, and stored, queued or assigned unless one is true; models afterwards are those before that satisfy the clause; occurrence lists stay exact |
| Simplifiers.Simplifier.StrengthenClause | examples/solvers/minisat/simp/SimpSolver.cc:190-213 | exactly one literal goes from one clause, which is queued, or becomes an assignment if it had two; given that the literal may go, the models stay the same or there are none; occurrence lists stay exact |
| Simplifiers.Simplifier.UseOn | examples/solvers/minisat/simp/SimpSolver.cc:366-383 | exactly a subsumed clause goes and exactly a strengthenable one loses its literal, with the same models |
| Simplifiers.Simplifier.BackwardSubsumptionCheck | examples/solvers/minisat/simp/SimpSolver.cc:326-390 | ends with an empty queue; unless interrupted, no clause that was queued or has changed and no new level-0 literal subsumes or strengthens another clause within the size limit; same models, or none when it fails; no literal is new |
| Simplifiers.Simplifier.EliminateVar | examples/solvers/minisat/simp/SimpSolver.cc:470-528 | the variable is eliminated if and only if that is not too costly by this measure of the clauses before; then one elimination followed by rewriting, after which there are at most so many clauses more as the growth allows and no new one over the length limit, the occurrence list is empty and, unless interrupted, nothing new subsumes or strengthens any more; on failure there is no model; the flat stack grows by the entries of the smaller side |
| Simplifiers.Simplifier.TooCostly | examples/solvers/minisat/simp/SimpSolver.cc:486-495 | yes if and only if the pairs that do not clash are some and exceed occurrences and growth, or one of their resolvents is longer than the limit |
| Simplifiers.ViaContinuesRun | examples/solvers/minisat/simp/SimpSolver.cc:470-528 | what the method does continues any elimination run |
| Simplifiers.ProducedContradiction | examples/solvers/minisat/simp/SimpSolver.cc:517-521 | if the resolvents contradict the rest the clauses did before |
| Sorting.Sort | examples/solvers/minisat/mtl/Sort.h:57-80 | for every strict weak order: an ordered permutation of the range, nothing else touched; ends |
| Sorting.Partition | examples/solvers/minisat/mtl/Sort.h:63-75 | both parts non-empty, the pivot between them, scans in bounds without bound checks |
| Sorting.SelectionSort | examples/solvers/minisat/mtl/Sort.h:39-52 | an ordered permutation |
| Sorting.OrderedJoin | examples/solvers/minisat/mtl/Sort.h:77-78 | two ordered parts around a pivot are ordered together |
| Heaps.RootLeast | examples/solvers/minisat/mtl/Heap.h:110-120 | no element of a heap is less than the root |
| Heaps.Heap.PercolateUp | examples/solvers/minisat/mtl/Heap.h:44-57 | heap order restored upwards, tables inverse, contents kept |
| Heaps.Heap.PercolateDown | examples/solvers/minisat/mtl/Heap.h:60-72 | heap order restored downwards, tables inverse, contents kept |
| Heaps.Heap.Insert | examples/solvers/minisat/mtl/Heap.h:99-107 | exactly one element more, the index table grown just as far as needed |
| Heaps.Heap.Decrease | examples/solvers/minisat/mtl/Heap.h:84 | a heap again after an element became smaller |
| Heaps.Heap.Increase | examples/solvers/minisat/mtl/Heap.h:85 | a heap again after an element became greater |
| Heaps.Heap.Update | examples/solvers/minisat/mtl/Heap.h:89-96 | a heap again however the place of one element changed |
| Heaps.Heap.RemoveMin | examples/solvers/minisat/mtl/Heap.h:110-120 | takes out an element no other is less than, and only it |
| Heaps.Heap.Build | examples/solvers/minisat/mtl/Heap.h:123-134 | a heap of exactly the given elements |
| Logic.FromIndex | include/cosy/Literal.h:44-60 | the literal of an index; its own index is that number and the index of its negation the neighbouring one |
| FormulaSymmetry.SameWithoutTautologies | src/CNFGraph.cc:27-30 | leaving clauses of the form x or not x aside changes no model, whatever is added to the formula |
| Alignment.DecidedIsDecidable | src/CosyStatus.cc:42-58 | a walk can stop at a pair with both values assigned and different only if, following the inverse back through the variables before it, one does not return to the literal itself, and for no earlier pair returns to the negation |
| Alignment.DecidableIsDecided | src/CosyStatus.cc:72-105 | at every such pair some assignment stops the walk with the verdict REDUCER |
| Alignment.TrustworthyExactly | src/CosyStatus.cc:72-105 | every REDUCER verdict a generator can reach is right about all extensions if and only if at every such pair the element is not later than its inverse: a condition on the generator and the order alone |
| Alignment.InvolutionTrustworthy | src/Order.cc:33-37 | generators of two-cycles meet it |
| Alignment.TrustworthyEquisatisfiable | src/CosyManager.cc:36-61 | for generators that meet it no run changes satisfiability, without any condition on the run |
| Detection.DetectionExactly | src/CosyManager.cc:49-60 | nothing is overlooked in any such run if and only if nothing is at its start |
| Detection.NothingAssignedStartsExact | src/CosyManager.cc:20-39 | which is so when nothing is assigned before the start |
| Watching.AttachedStableExactly | examples/solvers/minisat/core/Solver.cc:162-168 | attaching a clause keeps the watch invariant if and only if each propagated false watch is excused by a true other one |
| SolverHook.InjectedStable | examples/solvers/glucose-3.0/core/Solver.cc:1444-1461 | attaching a false clause and backtracking keeps the two-watch invariant if and only if both watched literals become unassigned; the other clauses keep it in any case |
| SolverHook.EmittedWatched | examples/solvers/glucose-3.0/core/Solver.cc:795-800 | for an emitted clause that depends on the level of the literal in slot 0 alone, because slot 1 becomes unassigned |
| Sessions.FindSymmetries | src/BlissSymmetryFinder.cc:9-37 | exactly the arrays that keep signs and move something are kept, one permutation read off each, in order; the inverting variables are those some kept array sends to their negation |
| Sessions.KeptIsSymmetry | src/Group.cc:14-69 | a permutation kept by the group is a symmetry of the formula with a one-to-one inverse, which is the inverse of its array |
| Sessions.CreateOrder | include/cosy/OrderFactory.h:18-44 | a finished order over all variables: by index, by decreasing occurrence and index, or the greedy order of the kept arrays with its choice of rare variables; AUTO decides by whether four times the inverted variables exceed all |
| Sessions.Enable | include/cosy/SymmetryController.h:123-137 | no controller if and only if no array is kept; otherwise it shows the first state of a run, with one generator for each kept array, all in the order of the mode, all symmetries of the formula, and exactly their units waiting |
| Sessions.Perform | include/cosy/SymmetryController.h:139-174 | an allowed call is exactly the notify, cancel or fetch step of its kind and any other changes nothing; what is handed out is the clause that waits last for the literal, and nothing if none waits |
| Sessions.Drive | include/cosy/SymmetryController.h:139-174 | any sequence of calls after any other: the states in between are those of the calls, one after the other, and what is received is what they hand out, in order |
| Sessions.EmittedKeep | src/CosyManager.cc:36-61 | adding any emitted clauses to the formula keeps its satisfiability, for generators that can be trusted |
| Sessions.BreakSymmetries | include/cosy/SymmetryController.h:106-187 | from the graph of a formula to the clauses the solver receives: exactly the units and what the calls hand out; the formula with all of them is satisfiable if and only if the formula is, if the generators built for the kept arrays can be trusted in the chosen order, and without that condition if every kept array is its own inverse |
| Soundness.FalsifiedCompares | src/CosyStatus.cc:107-140 | a total assignment that the clause forbids comes after its image if the element is not later than its inverse, and before it otherwise |
| Alignment.TrustworthyEmits | src/CosyManager.cc:49-60 | whatever a trustworthy generator emits, in any state of any group, forbids only assignments that come after their image |
| Alignment.UntrustworthyEmits | src/CosyStatus.cc:83-140 | an untrustworthy generator on its own has a run, with every clause answered, that emits a clause forbidding only assignments that come before their image |
| Alignment.TrustworthyByRuns | src/CosyStatus.cc:83-140 | a generator is trustworthy if and only if no clause it emits on its own in such a run forbids an assignment that does not come after its image |
| SolverHook.LearntFromEmitted | examples/solvers/minisat/core/Solver.cc:266-358 | a clause learnt from an emitted one with a single literal of the current level asserts slot 1, and the backtrack level is not below that of any literal minimisation cannot drop |
| SolverHook.EmittedAsserted | examples/solvers/glucose-3.0/core/Solver.cc:795-800 | with slot 1 asserted after backtracking the watch invariant holds if and only if the literal in slot 0 is not below the level returned to |
| SolverHook.EmittedLost | src/CosyStatus.cc:135-136 | exact loss, by a condition on the clause before the analysis: a single literal of the current level and a slot 0 that minimisation cannot drop lose the invariant on backtracking, and asserting restores it if and only if slot 0 is of the very level returned to |
| LostWatch.InvariantLost | src/CosyStatus.cc:135-136 | an input where it stays lost: one involution, a run from the start, a trail of four decisions, and an emitted clause whose slot 0 is below the backtrack level whatever the analysis returns |
| KeptArrays.FilterExactly | src/Group.cc:53-69 | the filter lets a permutation through if and only if its array sends negations to negations |
| KeptArrays.SomethingMoved | src/Group.cc:17-21 | it has a cycle if and only if its array moves a variable |
| KeptArrays.InvertedAt | src/Group.cc:31-37 | a variable counts as inverted if and only if the array sends it to its negation |
| KeptArrays.CoversFirst | include/cosy/Order.h:122-190 | the greedy order of the permutations with its choice of rare variables, in terms of the arrays |
| KeptArrays.InvolutiveInverse | src/Group.cc:14-69 | an array that is its own inverse gives a generator of two-cycles |
| SymmetryControl.SymmetryController.UnitToInject | include/cosy/SymmetryController.h:176-187 | the latest waiting unit is taken, and the state of the state machine stays |
| Sessions.TakeUnits | examples/solvers/minisat/core/Solver.cc:774-781 | the loop takes exactly the units of the inverting first pairs, the latest first |
| Sessions.BuiltTrustworthy | src/Order.cc:33-37 | generators built for arrays that are their own inverses are trustworthy, whatever the order |
| Solving.AddAll | examples/solvers/minisat/core/Solver.cc:774-781 | adding clauses one by one: the solver then stands for the formula with all of them, and a refusal means that is unsatisfiable |
| Solving.RunBelow | src/CosyStatus.cc:107-140 | in every run all emitted clauses mention variables of the order only |
| Solving.Solve | examples/solvers/minisat/core/Solver.cc:762-819 | rounds of search over the formula, the units and the clauses received: a model is total and one of all of them, a refutation is one of all of them, and of the formula if the generators are trustworthy; no answer only after all rounds, with everything received added |
| Solving.SolveFormula | examples/solvers/minisat/core/Solver.cc:762-819 | from the graph and the arrays to that answer; a refutation is right without a condition on the generators if every kept array is its own inverse |
| Words.BitCountIs | include/cosy/Bitset.h:58-68 | the parallel count with masks, shifts and one multiplication gives the number of set bits of every word |
| Words.LeastIs | include/cosy/Bitset.h:113-146 | the binary search finds the lowest set bit of every word that is not 0 |
| Words.MostIs | include/cosy/Bitset.h:225-252 | and this one the highest |
| Words.OneRangeIs | include/cosy/Bitset.h:308-313 | the mask has exactly the bits from s to e |
| Words.IntervalUpIs | include/cosy/Bitset.h:323-326 | exactly the bits from s on |
| Words.IntervalDownIs | include/cosy/Bitset.h:334-337 | exactly the bits up to s |
| Words.DropsLeast | include/cosy/Bitset.h:641-643 | and-ing a word with the word below it clears its lowest set bit and no other |
| Bitsets.BitCountRange | src/Bitset.cc:28-58 | for every row and range: the number of set positions counted one by one, in the short and in the word-wise form |
| Bitsets.IsEmptyRange | src/Bitset.cc:64-88 | true exactly when no position of the range is set |
| Bitsets.LeastSignificantBitPositionRange | src/Bitset.cc:96-138 | the first set position of the range, -1 exactly when there is none |
| Bitsets.MostSignificantBitPositionRange | src/Bitset.cc:146-189 | the last set position of the range, -1 exactly when there is none |
| Bitsets.UnsafeLeastSignificantBitPosition | src/Bitset.cc:197-220 | when the last position is set, not masking the last word is harmless: the first set position, never -1 |
| Bitsets.UnsafeMostSignificantBitPosition | src/Bitset.cc:228-251 | when the first position is set: the last set position, never -1 |
| Bitsets.Iterator.constructor | include/cosy/Bitset.h:603-612 | starts at the first set position, or at the end |
| Bitsets.Iterator.Next | include/cosy/Bitset.h:623-644 | moves to the next set position, or to the end |
| Bitsets.Positions | include/cosy/Bitset.h:671-676 | a loop over the iterator meets exactly the set positions, in increasing order |
| Bitsets.BitQueue.Set | include/cosy/Bitset.h:744-749 | one position more, and the top stays the highest set position |
| Bitsets.BitQueue.ClearTop | include/cosy/Bitset.h:756-777 | exactly the top goes, and the new top is the highest position left, -1 if none |
| Soundness.WouldReduceExactly | src/CosyStatus.cc:97-103 | for a pair with one variable assigned: some value of the other makes it decided and REDUCER if and only if the element, minimal or maximal, is on the side the branch tests |
| Soundness.ForcedExactly | src/CosyStatus.cc:72-105 | FORCE_LEX_LEADER if and only if exactly one variable of the pair is assigned and some value of the other one makes every total extension exceed its image; ACTIVE if and only if the walk is over or no value of an open variable does |
| Sessions.DrivenIsRun | include/cosy/SymmetryController.h:139-174 | the allowed calls are the events of a run of the state machine, and what was received was emitted in it |
| Sessions.ObtainedKeeps | src/CosyManager.cc:36-61 | adding the units and what the calls hand out keeps satisfiability, for trustworthy generators |
| Reaching.MarksDoNotMatter | examples/solvers/minisat/core/Solver.cc:363-389 | what earlier answers have marked changes no later answer: the condition for dropping a literal is the same before and after |
| Counting.LearnsOne | examples/solvers/minisat/core/Solver.cc:642-654 | learning leaves one clause or one level-0 fact more, never both |
| Solvers.Solver.Descend | examples/solvers/minisat/core/Solver.cc:682-713 | one step down: an open variable is decided, or every variable below the bound is assigned and every extension is a model, or an assumption is false |
| EliminationRuns.StoredIsSmaller | examples/solvers/minisat/simp/SimpSolver.cc:502-510 | whichever side has fewer clauses is stored in full, the eliminated literal of each first, with the literal on top that makes the other side true |
| Simplifiers.Simplifier.CheckWith | examples/solvers/minisat/simp/SimpSolver.cc:358-385 | afterwards the clause subsumes and strengthens no other stored clause within the size limit, clauses have only gone or lost literals and are back on the queue, same models |
| CNFGraphs.AutomorphismsExactly | src/CNFGraph.cc:19-58 | among node permutations that respect negation, exactly those are automorphisms of the coloured graph that fix the variables without occurrence, map the literals of every clause node onto those of another and binary clauses onto binary clauses: no symmetry of the formula is missed and none invented |
| Picking.ScanPicks | include/cosy/Order.h:151-169 | whatever the order of the orbits, the scan picks a variable such that no orbit as large as its own has a rarer one |
| Picking.EligiblePicked | include/cosy/Order.h:151-169 | and every such variable is picked in some order of the orbits |
| Picking.LargestExactly | include/cosy/Order.h:151-169 | the comment there promises a variable of the largest orbit: the scan keeps this in every order of the orbits if and only if the rarest variable of all is in a largest orbit |
| Rarity.ScanFindsRarest | include/cosy/Order.h:140-174 | with counts and orbits computed from the remaining generators the pick is one of the rarest moved variables, and there is one |
| Orders.ScanOrbits | include/cosy/Order.h:151-169 | the two loops carry out the scan |
| Orders.CountMovers | include/cosy/Order.h:140-147 | every variable is counted once for each remaining generator that moves it |
| Orders.NextVariable | include/cosy/Order.h:140-174 | counting, orbits and scan together pick one of the rarest moved variables |
| GarbageCollection.LockedExactly | examples/solvers/minisat/core/Solver.h:324 | locked clauses are exactly the reasons of assigned variables |
| LevelFilter.FilterLosesNothing | examples/solvers/minisat/core/Solver.cc:374-386 | giving up at levels that do not occur in the clause changes no answer: a literal with a reason is removable if and only if no decision outside what is seen is reached from it |
| LevelFilter.DroppedExactly | examples/solvers/minisat/core/Solver.cc:309-318 | so recursive minimisation drops exactly the literals with a reason that no decision outside the clause is reached from |
| Sessions.RunIsDriven | include/cosy/SymmetryController.h:139-174 | every run of the state machine over the variables of the order is one of calls the interface allows |

## Left out

- `generateForceLexLeaderESBP`: switched off by a constant in src/CosyManager.cc:8.
- The state field of a status between a cancel and the next notify: the source does not recompute it there, and nothing is claimed about it.
- Orders.Order.BreakID: the orbits come out of a hash map in the source and in any order here, so which of the rarest variables is listed next is not stated; Picking.EligiblePicked shows that each of them can be.
- Orders.Order.AddMoved: the same; counts are natural numbers.
- CosyStatuses.CosyStatus.CollectESBP: with a single literal the source exchanges two slots of which one does not exist (src/CosyStatus.cc:135-136 only checks this in debug builds); the model leaves the clause as it is, and Runs.UnitsPreventShortClauses shows when this case cannot occur.
- `std::sort` in the occurrence order, which is modelled as insertion.
- Sessions.CreateOrder: occurrence counts are an input; counting them over the clauses is not part of this model.
- Assignments.Assignment.AssignFromTrueLiteral: the pair of bits of a variable is a pair of booleans here; that words hold bits faithfully is the subject of Words.dfy and Bitset.dfy, and the two are not joined.
- The 32-bit copies of the bitset functions, the De Bruijn and compiler-builtin variants of the bit scans, resizing, intersection, union, sparse bitsets.
- Bitsets.BitCountRange: positions and counts are natural numbers; 64-bit wrap-around of a position or a count is not modelled, because no row of words is that long.
- bliss and saucy, which compute automorphisms: Automorphism.OnAutomorphism takes any bijection that keeps literal nodes apart from clause nodes, Sessions.FindSymmetries any automorphisms of the graph.
- CNFGraphs.CNFGraph.Assign: clauses come without repeated literals and not empty, as src/CNFModel.cc:18-40 stores them; removing duplicate clauses by string tags is not part of this model.
- Numbering of nodes, literals and clauses by pointers or raw integers: indices, literals and references here.
- The literal adapters between cosy and a solver, readers, printers, statistics, options, time and memory limits.
- MiniSat with a symmetry controller attached: it does not fit the controller's interface (examples/solvers/minisat/core/Solver.cc:439 passes three arguments), so the kernel is modelled without one.
- SolverHook.EmittedStartsAnalysis: says that an emitted clause is a proper conflict for the analysis; the rest of Glucose's propagation around it is not modelled.
- SolverHook.EmittedWatched: where the condition fails the clause is watched by a literal that is false already, so a unit may be found late; a search that attaches such clauses in the middle of propagation is not modelled.
- Solving.Solve: clauses received are added between the rounds of search, at level 0, where the source attaches them during propagation; which calls come with a round is an input and not tied to the trail of the solver. Units are added as clauses, where the source puts their literals on the trail.
- Removing clauses from a running solver (`removeClause`, `reduceDB`, `simplify`, lazy detaching of watchers) and satisfied-clause removal: no new invariant beyond those of attaching and collecting.
- Activities, phase saving, decision heuristics, the lengths of restarts and the termination of the outer solve loop, which ends after a given number of rounds here.
- Solvers.Solver.Search: is given a number of conflicts, where the source also knows a negative number for no limit, and an answer to each question whether the budget is used up; leaves out the calls that simplify the clause base at level 0 and delete learnt clauses.
- Solvers.Solver.LitRedundant: the word that abstracts a set of levels is the set of its bits, that is of levels modulo 32.
- Growing the arrays for new variables: maps from variables here.
- The layout of clauses inside memory regions, wasted space, growth of regions: GarbageCollection.GarbageCollect works on a map from references to clauses.
- BinaryMinimisation.BinaryMinimiser.ComputeLBD: does not model the wrap-around of the marking counter after 2^32 calls, nor the incremental mode with selectors.
- BinaryMinimisation.BinaryMinimiser.Minimise: the clause is false under the trail, as after analysis, so the test that the other literal of a binary clause is true follows.
- Simplifiers.Simplifier.AddClause: keeps the literals in the order given, where the source sorts them; propagation at level 0 after a new unit is what Solvers.Solver.Propagate does and is not repeated here; units are kept beside the clauses.
- Simplifiers.Simplifier.StrengthenClause: does not propagate after a clause has become a unit (examples/solvers/minisat/simp/SimpSolver.cc:212), for the same reason; the unit joins the others.
- Simplifiers.Simplifier.EliminateVar: what each look at the interruption flag finds is a parameter; a removed clause leaves the store at once, where the source marks it and frees it later; occurrence lists are cleaned on lookup in both.
- Simplifiers.Simplifier.BackwardSubsumptionCheck: the same; the queue is filled by adding and strengthening clauses, gathering touched clauses into it is left out.
- The elimination heap, frozen variables, occurrence counters, asymmetric branching, substitution and the implied-clause check.
- Resolution.Merge: each clause mentions a variable once, as stored clauses do.
- Sorting.Sort: arrays of any type, but one instantiation of the template per order.
- Logging, allocation failure and integer overflow of sizes.
