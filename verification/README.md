# APAC verification model

APAC turns a sequential C++ function into one that runs in parallel under OpenMP. Its central pass,
TaskGraph, finds out which variables and array elements each statement reads and writes, builds a dependency
graph of the statements, reduces and fuses that graph, and prints every node as an OpenMP task with
`depend` clauses. Other passes prepare the source for it. This project models the decisions those passes
take and proves what they are for.

* **TaskGraph** (`Paths`, `Schedules`, `Dependences`, `GraphViews`, `Fusion`, `FusionMeaning`, `FusionPass`,
  `Clauses`, `Rounds`, `RoundBreaks`, `TaskGraph`, `StmtOrders`, `Pipeline`, `Race`, `RaceRounds`). An instruction
  is a map from alias-table elements to read and write flags, together with an unknown store transformer that
  respects them. The graph is a class over node numbers with mutually linked `next` and `prev` maps. The results:
  the pass with last-writer and reader tables builds exactly a pairwise specification; every topological order computes what program
  order computes; in-place reduction gives the least graph with the same paths; fusion is a contraction that
  keeps all of this and reaches a fixpoint in one pass; statement groups are printed in topological order;
  and for scalar programs the clauses enforce all dependences, under section 15.9.5 of OpenMP 5.2, if and
  only if the two ends of every edge share a cell that the source writes and names in a clause, or that the
  target writes and a predecessor of the source touches. The body of a loop makes its tasks round after round,
  all siblings; the clauses enforce the dependences of every number of rounds if and only if, besides, every two
  nodes that share a written cell are joined by one conflict of clauses between a follower of the one and a
  predecessor of the other. `Containers` holds `Option`, relations and the choice of a set element.
* **Alias table** (`AliasTries`, `AliasTables`, `Footprints`, `References`, `Accesses`, `PointerStores`). The trie
  against a flat map, the array footprint search against the table's entries, reference closure as an equivalence
  and what it means for recorded accesses, and points-to sets against a running program's pointers.
* **Array programs** (`ArrayCells`, `ArrayOrders`, `ArrayLabels`, `ArrayFusion`, `ArrayClauses`, `ArrayExamples`). What
  the footprint search means for the task graph of a program with array elements of known and unknown indexes: when
  accesses share a cell, when all topological orders compute what program order computes, which element labels a
  link, which nodes are fused, and which elements get clauses.
* **Parameter analysis** (`ParamWrites`, `ParamPaths`, `ParamRuns`, `ParamExact`, `ParamExamples`). One pass over the
  function definitions against the least fixpoint of its rule, and runs of the analysed functions. A run goes some
  way through the body: statements one after the other, either branch of a choice, any number of rounds of a loop,
  out at a break, continue or return. Each pointer and reference denotes an object; assigning a pointer rebinds it,
  and only a dereferenced place or a reference writes an object. Whether some run writes the object of a parameter
  is characterised by the ways through the text, and reports are right exactly when the rule finds that.
* **Constify** (`Constify`), **Unstack** (`Unstack`, `UnstackOutput`, `UnstackCalls`, `UnstackRepeats`,
  `UnstackRewrite`), **Heapify** (`Heapify`, `HeapifyRuns`, `HeapifyPass`). The propagation worklist, the flattening of
  nested calls, and the placement of heap allocations and deletes.

`dafny verify dfyconfig.toml` checks everything.

## What the proofs found

Each of these is stated by a lemma in the table below, with the exact condition where the property fails.

* A write that follows a read of a cell nobody wrote before can be given no clause in common with the reader:
  for `y = x; z = x; x = 1;` an allowed interleaving writes `x` before it is read (`Race.WriteOvertakesRead`,
  `Clauses.ClausesExact`). The comment at `transforms/TaskGraph/src/OutputHandler.cpp:350-355` expects one
  dependency per edge to be enough.
* A round of a loop can overtake the one before, although each round alone keeps all its dependences: a statement
  that only reads a cell names it in no clause unless a predecessor touches it, so for the body
  `x = a = d = 1; b = a; e = d; c = x + b + e;` the next round may write `x` before this round reads it
  (`RaceRounds.RoundOvertakesRound`, `RoundBreaks.RoundsExact`).
* `moveInstruction` on two statements of one group erases that group (`StmtOrders.MoveConsistentExactly`).
* Adding an element at a trie position that exists only on the way to deeper elements dereferences a null
  pointer, for instance the row `a[1]` after `a[1][2]` (`AliasTables.RowAfterCellFails`).
* `getArrayElementParents` returns the element itself, once per shorter entry, so an access to a whole array and an
  access to one of its elements share no cell. Since naming an element is recorded as a read of the array as well, a
  call that writes the array is still ordered, but one that only reads it is not: for `y = f(a); a[1] = 0;` some
  topological order leaves another store (`ArrayCells.WholeWriteConflicts`, `ArrayCells.WholeReadsExactly`,
  `ArrayOrders.WholeThenElementBreaks`).
* `a[1][d]` and `a[e][2]` match but share no cell, and two writes to them may be swapped
  (`ArrayCells.CrossedUnknownsMissed`, `ArrayOrders.CrossedWritesBreak`). For all array programs, every topological
  order computes what program order computes if and only if all matching accesses of instructions that write
  something, one of the accesses a write, are joined by a path (`ArrayOrders.OrdersExact`).
* The parameter analysis reports a parameter read-only whose object is written through another pointer:
  `p = q; *p = x;` (`ParamExamples.RebindMissed`), `int *l = p; *l = x;` (`ParamExamples.LocalCopyMissed`),
  `*(p + x) = x;` (`ParamExamples.OffsetMissed`), and a self-call that swaps two pointers
  (`ParamExamples.SwapMissed`). It reports `p++` as a write of the object (`ParamExamples.MoveOverreported`).
  The exact conditions are `ParamExact.ReadOnlyIsSound` and `ParamExact.ReadOnlyIsExact`; on code without such
  forms and without dead code only the self-calls matter (`ParamExact.DirectExactly`).
* Unstack makes a call twice when it stands in parentheses, a cast or a subscript inside an argument of another
  nested call: for `f(g((h(1))))` it emits a temporary for `h(1)` and prints `g((h(1)))` for the next one
  (`UnstackRepeats.ParenthesesRepeat`). All calls are made once if and only if there is no such argument
  (`UnstackRewrite.UnstackInstruction`).
* The start value true of `hasCommonArrayElement` never survives: each label matches something its own source
  accesses, so the test asks whether a label is itself an element the node accesses
  (`ArrayFusion.CommonExactly`), and on scalars it always succeeds (`ArrayFusion.ScalarFusion`).
* The sub-scope test of `computeNeededHeapScope` starts from false and is a conjunction, so it has no effect.

## Model

| member | source | states |
|---|---|---|
| Pipeline.Parallelise | transforms/TaskGraph/src/Graph.cpp:293-336 | building, optimising, ordering and emitting a flat function: if every edge of the fused graph is enforced, any interleaving the clauses allow ends in the sequential store; the clauses order all conflicts exactly when every edge is enforced; for a loop body, the same over every number of rounds, exactly when every clash is carried as well; on the elements of any alias table nodes are joined across shared labels and no others, and the accesses behind every label get their clauses |
| Dependences.ConflictReaches | transforms/TaskGraph/src/Graph.cpp:80-172 | two instructions with a common cell, one of them writing it, are joined by a path of the dependence graph |
| Dependences.Determinacy | transforms/TaskGraph/src/Graph.cpp:54-60 | any topological order of a graph with the paths of the dependence graph leaves the store program order leaves, for every semantics that respects the read and write cells |
| Dependences.EdgeIsLink | transforms/TaskGraph/src/Graph.cpp:93-171 | the pairwise edges are exactly the pairs with some labelled link |
| Schedules.SameResult | transforms/TaskGraph/src/Graph.cpp:54-60 | two orders of the same instructions that agree on all non-commuting pairs give the same store |
| Schedules.OrderedOverlapsSameResult | transforms/TaskGraph/src/Graph.cpp:54-60 | an order that keeps overlapping instructions in program order computes what program order computes |
| Schedules.DisjointCommute | transforms/TaskGraph/src/Graph.cpp:54-60 | instructions whose footprints do not overlap commute |
| GraphViews.StepLinksAreSpec | transforms/TaskGraph/src/Graph.cpp:93-171 | what one instruction links, given the last-writer and reader tables before it, is the pairwise specification for that instruction: last writer to reader; readers since the last write, the writer included if it reads, to the next writer; writer to writer only without such readers |
| GraphViews.StepMeetsSpec | transforms/TaskGraph/src/Graph.cpp:93-171 | the same, link by link and label by label |
| GraphViews.BuiltEdges | transforms/TaskGraph/src/Graph.cpp:54-79 | a built graph is well formed, with exactly the specified edges and instructions |
| TaskGraph.TablesAdvance | transforms/TaskGraph/src/Graph.cpp:93-171 | the buffered reads, writes and erasures turn the tables before an instruction into the tables after it |
| TaskGraph.Graph.AddLink | transforms/TaskGraph/src/Node.cpp:21-35 | the labels of one edge gain the given flags, `prev` stays the mirror of `next`, and the links gained are exactly those |
| TaskGraph.Graph.LinkCell | transforms/TaskGraph/src/Graph.cpp:121-163 | the links made for one child cell, as StepCell pairs them; `ArrayLabels.LabelsExactly` says that their label is the accessed element |
| TaskGraph.Graph.HandleParents | transforms/TaskGraph/src/Graph.cpp:101-119 | the links made for the parents of one dependency |
| TaskGraph.Graph.HandleChildren | transforms/TaskGraph/src/Graph.cpp:120-163 | the links made for the children of one dependency, in any order of the hash set |
| TaskGraph.Graph.HandleInstructionDeps | transforms/TaskGraph/src/Graph.cpp:80-172 | all links of one instruction and the updated tables, whatever the order of its dependencies |
| TaskGraph.Graph.UpdateTables | transforms/TaskGraph/src/Graph.cpp:166-171 | erase, then insert readers, then set writers |
| TaskGraph.Graph.LinkNodes | transforms/TaskGraph/src/Graph.cpp:54-60 | after all instructions the links are exactly the specified ones |
| TaskGraph.Graph.CollectRoots | transforms/TaskGraph/src/Graph.cpp:75-77 | the roots are the nodes without predecessor |
| TaskGraph.Graph.InstructionToGraph | transforms/TaskGraph/src/Graph.cpp:15-79 | the constructor builds the specified graph, with its roots |
| Paths.ReductionKeepsReach | transforms/TaskGraph/src/Graph.cpp:198-226 | dropping every edge with a detour from an acyclic graph keeps the reachability relation |
| Paths.ReductionIsLeast | transforms/TaskGraph/src/Graph.cpp:198-226 | every graph with the same reachability contains the reduction, which is therefore unique |
| Paths.ReduceOneNode | transforms/TaskGraph/src/Graph.cpp:199-225 | reducing the nodes one after the other in place never changes which edges of a later node are redundant |
| TaskGraph.Graph.FindDetours | transforms/TaskGraph/src/Graph.cpp:200-216 | the search with one visited set for all successors finds exactly the nodes reachable in two or more steps, and terminates |
| TaskGraph.Graph.ReduceNode | transforms/TaskGraph/src/Graph.cpp:199-225 | a node loses exactly its redundant edges, `next` and `prev` staying mirrors |
| TaskGraph.Graph.TransitiveReduction | transforms/TaskGraph/src/Graph.cpp:198-226 | the edges become the reduction of the edges before; remaining labels are untouched |
| Fusion.FusedWellFormed | transforms/TaskGraph/include/Graph.hpp:38-57 | joining a node with its only successor keeps `next` and `prev` inverse and the node list increasing |
| Fusion.FusedBlock | transforms/TaskGraph/include/Graph.hpp:38-57 | the joined node's instructions are a chain of the reduced graph and its access flags are the union of its parts |
| Fusion.FusedContracts | transforms/TaskGraph/include/Graph.hpp:38-57 | fusion keeps the fused graph a contraction of the reduced one: every instruction in one node, in order, edges leaving a node's last instruction for a later node's first |
| Fusion.OnlyPredecessor | transforms/TaskGraph/src/Graph.cpp:244-244 | when a node's only successor has it as only predecessor, the node's last instruction is the only predecessor of the successor's first in the reduced graph |
| Fusion.EdgeLeavesLast | transforms/TaskGraph/include/Graph.hpp:38-57 | an edge of the reduced graph into the first instruction of a node leaves the last instruction of another node, and is an edge between the two nodes |
| FusionMeaning.FusedForward | transforms/TaskGraph/include/Graph.hpp:38-57 | every edge of a fused graph leads from a node's last instruction to a strictly later one, so the graph stays acyclic |
| FusionMeaning.WalkUp | transforms/TaskGraph/src/Graph.cpp:228-260 | a path between instructions becomes a path between their nodes, or stays inside one |
| FusionMeaning.WalkDown | transforms/TaskGraph/src/Graph.cpp:228-260 | a path between nodes gives a path from the last instruction of one to the first of the other |
| FusionMeaning.StaysReduced | transforms/TaskGraph/src/Graph.cpp:228-260 | fusion of a reduced graph creates no redundant edge |
| FusionMeaning.FlattenLists | transforms/TaskGraph/src/Graph.cpp:228-260 | replacing each node by its instructions lists every instruction once |
| FusionMeaning.FlattenTopological | transforms/TaskGraph/src/Graph.cpp:228-260 | replacing each node by its instructions turns any topological order of the fused graph into one of the original graph |
| FusionPass.JoinsOnlyEdge | transforms/TaskGraph/src/Graph.cpp:242-252 | the test before a fusion finds a successor whose only link is from the node |
| FusionPass.FusedSameEligible | transforms/TaskGraph/src/Graph.cpp:230-257 | a fusion does not change whether any other node can be fused, so nodes passed over stay passed over |
| FusionPass.FusedJoined | transforms/TaskGraph/src/Graph.cpp:252-252 | a fusion keeps it true that each join of a node crossed a link with a label accessed before it, or with labels that match nothing in front of it |
| FusionPass.FusedPlain | transforms/TaskGraph/src/Graph.cpp:247-251 | a fusion keeps it true that no instruction but the first of a node is complex or noFusion |
| TaskGraph.Graph.HasCommonArrayElement | transforms/TaskGraph/src/Graph.cpp:261-285 | the loops compute: no label matches an index list of the node's accesses, or some label is itself one of them; `ArrayFusion.CommonExactly` says which of the two decides |
| TaskGraph.Graph.RedirectPredecessors | transforms/TaskGraph/include/Graph.hpp:40-43 | the successors of the absorbed node have the kept node as predecessor instead |
| TaskGraph.Graph.MergeDependencies | transforms/TaskGraph/include/Graph.hpp:44-50 | the joined node's flags are the union of both parts' flags |
| TaskGraph.Graph.FindJoin | transforms/TaskGraph/src/Graph.cpp:232-252 | finds the successor a node can be joined with, and fails only when there is none |
| TaskGraph.Graph.FuseNodes | transforms/TaskGraph/include/Graph.hpp:38-57 | edge contraction, with only the absorbed node leaving the list, behind the kept one |
| TaskGraph.Graph.FuseAt | transforms/TaskGraph/src/Graph.cpp:231-257 | after the loop at one index the node there is not eligible and nothing before it became so |
| TaskGraph.Graph.NodesFusion | transforms/TaskGraph/src/Graph.cpp:228-260 | one left-to-right pass over the shrinking vector reaches a fixpoint, each join justified by the labels it crossed; a graph at the fixpoint is not changed |
| TaskGraph.RootsKept | transforms/TaskGraph/src/Graph.cpp:75-77 | the recorded roots are still the nodes without predecessor after reduction and fusion |
| TaskGraph.Graph.ComputeInOutDep | transforms/TaskGraph/src/Node.cpp:37-79 | the inout set: exactly the written elements that are, or share a covered index list of their length with, a label on a link out of the node or an element a predecessor accesses; all written ones in a loop |
| TaskGraph.Graph.ComputeInDep | transforms/TaskGraph/src/Node.cpp:80-100 | the in set: exactly the other elements that are, or share a covered index list of their length with, an element a predecessor accesses |
| TaskGraph.Graph.NodesComputeInOut | transforms/TaskGraph/src/Graph.cpp:286-292 | every node gets both sets |
| TaskGraph.Graph.OptimizeGraph | transforms/TaskGraph/src/Graph.cpp:293-297 | reduction, fusion and clauses together: a contraction of the reduced graph, nothing left to fuse, exact roots, all clauses |
| TaskGraph.Graph.Compile | transforms/TaskGraph/src/Graph.cpp:326-336 | the same from the instruction list |
| Clauses.AdjacentWait | transforms/TaskGraph/src/OutputHandler.cpp:345-376 | neighbouring tasks wait for each other exactly when they share a cell that the first writes and names in a clause (in a loop, on a link out of it, or through a predecessor), or that the second writes and a predecessor of the first touches |
| Clauses.WaitIsPath | transforms/TaskGraph/src/OutputHandler.cpp:345-376 | clauses never order two tasks that the graph leaves unordered |
| Clauses.EnforcedIsTopological | transforms/TaskGraph/src/Node.cpp:37-100 | if every edge is enforced, any allowed interleaving is a topological order of the reduced graph |
| Clauses.EndToEnd | transforms/TaskGraph/src/Node.cpp:37-100 | if every edge is enforced, any allowed interleaving ends in the sequential store |
| Clauses.UnenforcedUnordered | transforms/TaskGraph/src/Node.cpp:37-100 | an edge that is not enforced directly is not enforced through other tasks |
| Clauses.UnenforcedBreaks | transforms/TaskGraph/src/Node.cpp:37-100 | for any such edge there is an allowed interleaving that runs two conflicting instructions in the wrong order |
| Clauses.ClausesExact | transforms/TaskGraph/src/Node.cpp:37-100 | the clauses order all conflicts in all allowed interleavings if and only if every edge is enforced |
| Rounds.WaitsExactly | transforms/TaskGraph/src/Node.cpp:37-100 | in a loop two tasks wait for each other exactly when they share a cell that one of them writes, and each of them writes it or has a predecessor that touches it |
| Rounds.CarriedOver | transforms/TaskGraph/src/Node.cpp:37-79 | a conflict of clauses between a follower of one node and a predecessor of another orders the two nodes between any two rounds of a loop |
| Rounds.NamedIsCarried | transforms/TaskGraph/src/Node.cpp:37-100 | if every node that only reads a cell some node writes has a predecessor touching the cell, all nodes that share a written cell are ordered between rounds |
| Rounds.LoopEndToEnd | transforms/TaskGraph/src/Node.cpp:37-100 | if every edge is enforced and every clash carried, any allowed interleaving of any number of rounds ends in the store of the sequential loop |
| RoundBreaks.WaitsAcross | transforms/TaskGraph/src/Node.cpp:37-100 | a chain of waits from one round into the next is a path of the graph, one conflict of clauses and another path |
| RoundBreaks.NotCarriedBreaks | transforms/TaskGraph/src/Node.cpp:37-100 | for any clash that is not carried, an allowed interleaving of two rounds runs two conflicting instructions in the wrong order |
| RoundBreaks.RoundsExact | transforms/TaskGraph/src/Node.cpp:37-100 | the clauses order all conflicts within and across any number of rounds if and only if every edge is enforced and every clash carried |
| Race.WriteOvertakesRead | transforms/TaskGraph/src/Node.cpp:37-100 | for `y = x; z = x; x = 1` the condition fails and an allowed interleaving runs the write before a read |
| RaceRounds.RoundOvertakesRound | transforms/TaskGraph/src/Node.cpp:37-100 | for the loop body `x = a = d = 1; b = a; e = d; c = x + b + e;` every edge is enforced, and an allowed interleaving of two rounds writes `x` before the round before has read it |
| StmtOrders.StmtOrder.AddInstructionToManager | transforms/TaskGraph/include/InstructionsOrderManager.hpp:41-60 | the statement is put into a group under the next number; a new statement is linked to it, one registered before keeps its link, and then groups and links disagree |
| StmtOrders.StmtOrder.MoveInstruction | transforms/TaskGraph/src/InstructionsOrderManager.cpp:3-40 | the group of the earlier statement joins that of the later one; groups keep partitioning the statements unless both are in one group, which is then erased |
| StmtOrders.MoveConsistentExactly | transforms/TaskGraph/src/InstructionsOrderManager.cpp:31-39 | groups and links agree after a move if and only if the two groups differ |
| StmtOrders.StmtOrder.FuseInstructions | transforms/TaskGraph/src/InstructionsOrderManager.cpp:41-60 | statements alone in their groups, listed in any order, all end in the group of the furthest one |
| StmtOrders.StmtOrder.Furthest | transforms/TaskGraph/src/InstructionsOrderManager.cpp:45-53 | the maximum of the begin locations, for a list in any order |
| StmtOrders.StmtOrder.AddNodeToGroup | transforms/TaskGraph/include/InstructionsOrderManager.hpp:61-73 | a group keeps the first node registered for it |
| StmtOrders.StmtOrder.UpdateInstructionOrderNode | transforms/TaskGraph/src/Graph.cpp:299-317 | one node's statements move to the group of the furthest one, which becomes the node's group |
| StmtOrders.StmtOrder.UpdateInstructionOrderFromGraph | transforms/TaskGraph/src/Graph.cpp:299-324 | every node's statements end up together under the number of the furthest, and the groups still partition the statements |
| StmtOrders.FindsOwnNode | transforms/TaskGraph/include/InstructionsOrderManager.hpp:94-99 | looking up any statement's group gives the node the statement belongs to |
| StmtOrders.StmtOrder.GetNode | transforms/TaskGraph/include/InstructionsOrderManager.hpp:94-99 | the node of a statement's group, or null without a group or a node; after the nodes are placed, the node that holds the statement |
| StmtOrders.GroupNumbers | transforms/TaskGraph/src/Graph.cpp:299-324 | a group's number is the position of its node's last statement, and only the nodes have groups |
| StmtOrders.StmtOrder.EmissionOrder | transforms/TaskGraph/include/OutputHandler.hpp:23-28 | printing the groups by number lists every node once, in a topological order of the fused graph |
| StmtOrders.EmissionIsTopological | transforms/TaskGraph/include/OutputHandler.hpp:23-28 | an order of the nodes by their last statements respects every edge of the fused graph |
| AliasTries.AtIsArgs | transforms/TaskGraph/src/AliasTableIndexMap.cpp:3-61 | `at` finds exactly what walking the index list finds, and `count` says whether it does |
| AliasTries.InsertFails | transforms/TaskGraph/src/AliasTableIndexMap.cpp:97-100 | insertion dereferences null exactly at a sub-array that stands for no element itself |
| AliasTries.InsertArgs | transforms/TaskGraph/src/AliasTableIndexMap.cpp:63-102 | insertion changes what is kept at its own position only, so turning a leaf into a sub-array loses nothing |
| AliasTries.InteriorExactly | transforms/TaskGraph/src/AliasTableIndexMap.cpp:78-88 | the failing positions are those that keep nothing while something is kept below |
| AliasTries.EntriesAreArgs | transforms/TaskGraph/src/AliasTableIndexMap.cpp:38-49 | the entries of a trie are exactly the positions and texts found by walking |
| AliasTries.NbElements | transforms/TaskGraph/src/AliasTableIndexMap.cpp:38-49 | the count is the number of entries |
| AliasTables.InsertAtFlat | transforms/TaskGraph/src/AliasTableAliasMap.cpp:75-108 | on the flat view insertion gives a new key the new element; an old key keeps its element |
| AliasTables.InteriorIsOnTheWay | transforms/TaskGraph/src/AliasTableIndexMap.cpp:78-100 | insertion fails exactly when nothing is registered at the index list and something is registered below it |
| AliasTables.RowAfterCellFails | transforms/TaskGraph/src/AliasTableIndexMap.cpp:97-100 | after `a[1][2]`, adding `a[1]` fails |
| AliasTables.AliasTable.GetAliasArg | transforms/TaskGraph/src/AliasTable.cpp:187-262 | the lookup agrees with the flat map of variable, index list and index text |
| AliasTables.AliasTable.AddElement | transforms/TaskGraph/include/AliasTable.hpp:169-179 | succeeds exactly off interior positions, and then registers exactly one key if it was new |
| AliasTables.AliasTable.AddIfMissing | transforms/TaskGraph/include/AliasTable.hpp:84-90 | registers the key unless its lookup finds something; fails exactly at an interior position |
| AliasTables.AliasTable.GetOrAddAliasArg | transforms/TaskGraph/include/AliasTable.hpp:78-92 | returns the element of the key, registering only the variable and the key; earlier elements keep their identity |
| AliasTables.AliasTable.CountElements | transforms/TaskGraph/src/AliasTableAliasMap.cpp:52-61 | the count of the whole table is the size of the flat map |
| Footprints.FootprintExactly | transforms/TaskGraph/src/AliasTable.cpp:468-526 | what the level-by-level walk collects is exactly what is kept at positions that the index list covers |
| Footprints.Search | transforms/TaskGraph/src/AliasTable.cpp:489-523 | the search with a stack per level collects exactly that |
| Footprints.GetDirectChildren | transforms/TaskGraph/src/AliasTable.cpp:527-545 | all children for an unknown index, else the child at the index |
| Footprints.GetArrayElementDependencies | transforms/TaskGraph/src/AliasTable.cpp:468-526 | the footprint is exactly the registered elements of the variable at covered index lists |
| Footprints.GetArrayElementChildren | transforms/TaskGraph/src/AliasTable.cpp:378-417 | the cells of an access are exactly the covered elements with as many indexes |
| Footprints.GetArrayElementParents | transforms/TaskGraph/src/AliasTable.cpp:419-467 | the parents are the element itself, once for every shorter entry of its footprint |
| ArrayCells.SharedMatches | transforms/TaskGraph/include/AliasArg.hpp:71-79 | a shared cell implies matching indexes |
| ArrayCells.SharedExactly | transforms/TaskGraph/src/AliasTable.cpp:378-395 | two accesses share a cell exactly when their indexes match and an element under the known indexes of both is registered |
| ArrayCells.MatchingShared | transforms/TaskGraph/include/AliasArg.hpp:71-79 | matching accesses share a cell when the unknown positions of one include the other's |
| ArrayCells.MatchingPairExactly | transforms/TaskGraph/include/AliasArg.hpp:71-79 | when the table knows no third element of that depth, this condition is also necessary |
| ArrayCells.OneIndexShared | transforms/TaskGraph/include/AliasArg.hpp:71-79 | with at most one index, matching accesses always share a cell |
| ArrayCells.CrossedUnknownsMissed | transforms/TaskGraph/src/AliasTable.cpp:468-526 | `a[1][d]` and `a[e][2]` may be one location and share no cell |
| ArrayCells.ConflictExactly | transforms/TaskGraph/src/Graph.cpp:94-163 | two instructions conflict in a cell if and only if some pair of their accesses, one of them a write, shares a cell |
| ArrayCells.DepthsNeverConflict | transforms/TaskGraph/src/AliasTable.cpp:423-427 | instructions whose accesses differ in their index counts never conflict |
| ArrayCells.ArraysCovered | transforms/TaskGraph/src/Graph.cpp:94-99 | an access names an element and everything inside it; instructions that overlap in memory always conflict in the table if and only if every matching pair of accesses of two instructions, one of them a write, comes with a pair that shares a cell |
| ArrayCells.OneIndexResolved | transforms/TaskGraph/src/Graph.cpp:94-99 | for scalars and one-index arrays, unknown indexes included, that condition can fail only at accesses of different depth, to a whole array and to an element of it |
| ArrayCells.OneDepthResolved | transforms/TaskGraph/src/Graph.cpp:94-99 | so it holds when each variable is accessed at one depth |
| ArrayCells.WholeWriteConflicts | transforms/TaskGraph/src/ASTTaskGraphVisitor.cpp:3-53 | as naming an element records a read of the whole array, an instruction that writes the whole array conflicts with every instruction that accesses one of its elements |
| ArrayCells.WholeReadsExactly | transforms/TaskGraph/src/ASTTaskGraphVisitor.cpp:3-53 | for scalars and one-index arrays every overlap is then covered if and only if a whole array that is only read and a written element of it come with another pair that shares a cell |
| ArrayCells.WholeThenElement | transforms/TaskGraph/src/AliasTable.cpp:423-427 | for `y = f(a); a[1] = 0;`, f only reading, the accesses match, the instructions share no cell, the program is not covered, and a topological order runs the call last |
| ArrayCells.CrossedWrites | transforms/TaskGraph/src/AliasTable.cpp:468-526 | for `a[1][d] = 0; a[e][2] = 1;` the writes match, the instructions share no cell, the program is not covered, and a topological order swaps them |
| ArrayOrders.ArrayDeterminacy | transforms/TaskGraph/src/Graph.cpp:54-172 | for arrays of any number of indexes, known or unknown: if matching accesses are joined by paths, any topological order of the graph leaves the store program order leaves, wherever the elements are placed and whatever the instructions compute |
| ArrayOrders.ResolvedJoined | transforms/TaskGraph/src/Graph.cpp:80-172 | matching accesses whose instructions share a cell are joined by a path |
| ArrayOrders.OrdersExact | transforms/TaskGraph/src/Graph.cpp:54-172 | all topological orders compute what program order computes, for all placements and semantics, if and only if matching accesses of instructions that write something are joined by paths |
| ArrayOrders.WholeThenElementBreaks | transforms/TaskGraph/src/AliasTable.cpp:419-428 | for `y = f(a); a[1] = 0;`, f only reading, some topological order leaves another store |
| ArrayOrders.CrossedWritesBreak | transforms/TaskGraph/src/AliasTable.cpp:468-526 | for `a[1][d] = 0; a[e][2] = 1;` some topological order leaves another store |
| ArrayLabels.TableTexts | transforms/TaskGraph/include/AliasArg.hpp:62-67 | in every valid alias table exactly the positions with an unknown index tell their elements apart by index text |
| ArrayLabels.LabelsExactly | transforms/TaskGraph/src/Graph.cpp:101-163 | a built graph has exactly the links whose label is an element the later instruction accesses, through any registered element this access may name that the earlier instruction is the one to wait for |
| ArrayLabels.LabelRecorded | transforms/TaskGraph/src/Graph.cpp:128-131 | each label on an edge is a recorded dependency of the edge's later instruction |
| ArrayLabels.LabelSource | transforms/TaskGraph/src/Graph.cpp:120-163 | for each label the earlier instruction has an access that shares a cell with it, and one of the two writes |
| ArrayFusion.LabelMatches | transforms/TaskGraph/src/Graph.cpp:272-277 | a label always matches something that the instruction in front of its link accesses |
| ArrayFusion.CommonExactly | transforms/TaskGraph/src/Graph.cpp:261-285 | for a node with one successor the test succeeds if and only if a label of that link is accessed by an instruction of the node |
| ArrayFusion.FusionExactly | transforms/TaskGraph/src/Graph.cpp:228-260 | after fusion every join crosses a link with a label that an instruction before it in the node accesses, and two nodes that graph shape and marks would let join share no label |
| ArrayFusion.ScalarFusion | transforms/TaskGraph/src/Graph.cpp:228-260 | on scalars a node can be fused exactly when graph shape and marks allow it |
| ArrayExamples.PairLabels | transforms/TaskGraph/src/Graph.cpp:93-171 | for two instructions the labels are exactly the accesses of the second that clash with one of the first in a shared cell |
| ArrayExamples.PairFusion | transforms/TaskGraph/src/Graph.cpp:228-260 | two plain instructions end in one node if and only if an access of the second clashes with one of the first and the first makes that same access |
| ArrayExamples.OtherElementApart | transforms/TaskGraph/include/Graph.hpp:100-101 | `a[d] = b; a[e] = c;` are linked and stay two nodes |
| ArrayExamples.SameElementFused | transforms/TaskGraph/include/Graph.hpp:100-102 | `a[d] = b; a[d] = c;` become one node |
| ArrayExamples.CopiedElementFused | transforms/TaskGraph/include/Graph.hpp:100-103 | `a[d] = b; a[e] = a[d];` become one node |
| ArrayClauses.MentionsExactly | transforms/TaskGraph/src/Node.cpp:48-59 | a lookup by identity and indexes finds an element exactly when a key is that element or, for array elements, both cover a common index list of their length |
| ArrayClauses.InOutsRight | transforms/TaskGraph/src/Node.cpp:37-79 | the inout set through covered index lists |
| ArrayClauses.InsRight | transforms/TaskGraph/src/Node.cpp:80-100 | the in set through covered index lists |
| ArrayClauses.WriteAndAccess | transforms/TaskGraph/src/Node.cpp:37-100 | a written element of a node and a matching access that labels one of its links get clauses on both nodes |
| ArrayClauses.EdgeClauses | transforms/TaskGraph/src/Node.cpp:37-100 | for each label of each edge of the optimised graph: the later node has a clause for it, inout if it writes; the earlier node accesses an element that may name the same place, one of the two accesses writes, and has an inout clause for it if it writes |
| ArrayExamples.KnownThenUnknownClauses | transforms/TaskGraph/src/Node.cpp:37-100 | `a[1] = x; y = a[d];` become two tasks with `inout: a[1]` and `in: a, a[d]`, `a` because both also read the array's own entry, and no other clause |
| References.ReferenceTable.AddAliasReference | transforms/TaskGraph/src/AliasTable.cpp:38-64 | the two relations stay exactly the links made |
| References.ReferenceTable.Pass | transforms/TaskGraph/src/AliasTable.cpp:173-182 | one pass, whichever newly inserted names it visits, adds only linked names and all names one step away |
| References.ReferenceTable.GetAliases | transforms/TaskGraph/src/AliasTable.cpp:165-185 | the loop ends with exactly the names linked to the variable |
| References.AliasSetIsLeast | transforms/TaskGraph/src/AliasTable.cpp:165-185 | that is the least set closed under references and under what references refer to |
| References.SameSetExactly | transforms/TaskGraph/src/AliasTable.cpp:165-185 | when second arguments are references, two names get the same alias set exactly when references link them, and otherwise disjoint sets |
| References.LinkedTransitive | transforms/TaskGraph/src/AliasTable.cpp:165-185 | being linked is transitive |
| Accesses.AddDependencyRead | transforms/TaskGraph/include/ASTTaskGraphVisitor.hpp:106-114 | every name linked to the accessed one, and no other, gains the read flag; every recorded dependency stays a read or a write |
| Accesses.AddDependencyWrite | transforms/TaskGraph/include/ASTTaskGraphVisitor.hpp:115-123 | the same with the write flag |
| Accesses.AddedRecords | transforms/TaskGraph/include/ASTTaskGraphVisitor.hpp:106-123 | the access is recorded for all linked names, and earlier records stay |
| Accesses.LinkedNamesConflict | transforms/TaskGraph/include/ASTTaskGraphVisitor.hpp:106-123 | accesses through two names that references link, one of them a write, conflict, so a path of the graph joins their instructions |
| PointerStores.StepIsDeref | transforms/TaskGraph/src/AliasTable.cpp:313-329 | one round over exact points-to sets is one dereference |
| PointerStores.PointerTable.GetModifiedVariables | transforms/TaskGraph/src/AliasTable.cpp:307-333 | the result is the variable that the dereferences denote, or nothing if a pointer on the way is uninitialised |
| PointerStores.PointerTable.GetPointerAccessedVariables | transforms/TaskGraph/src/AliasTable.cpp:279-305 | the result is every variable met on the way |
| PointerStores.PointerTable.RemoveDependencyPtr | transforms/TaskGraph/src/AliasTable.cpp:156-164 | a pointer and its targets forget each other |
| PointerStores.PointerTable.AddAliasPtr | transforms/TaskGraph/src/AliasTable.cpp:65-71 | a pointer and a target learn of each other |
| PointerStores.PointerTable.ReplaceAliasedToElement | transforms/TaskGraph/src/AliasTable.cpp:72-82 | a pointer takes over another's targets, unless they are the same |
| PointerStores.PointerTable.CopyFrom | transforms/TaskGraph/src/ASTTaskGraphVisitor.cpp:400-403 | copying a pointer, also an uninitialised one or itself, keeps the tables exact |
| PointerStores.PointerTable.PointTo | transforms/TaskGraph/src/ASTTaskGraphVisitor.cpp:393-399 | assigning an address keeps the tables exact |
| PointerStores.PointerTable.HandleAssignment | transforms/TaskGraph/src/ASTTaskGraphVisitor.cpp:268-405 | an assignment keeps the points-to sets equal to the pointers of the running program and `pointers` their inverse |
| PointerStores.PointerTable.AnalyseProgram | transforms/TaskGraph/src/ASTTaskGraphVisitor.cpp:316-405 | the same over any straight-line sequence of assignments |
| PointerStores.ExecuteTyped | transforms/TaskGraph/src/AliasTable.cpp:320-327 | pointers keep pointing one level down, so the pointer-type test never hides a target |
| ParamWrites.ContainsWriteTo | transforms/TaskGraph/src/ParamWriteAnalyzer.cpp:56-117 | true exactly when some node of the body writes the parameter or hands it to a pointer parameter not known read-only, self-calls and helpers apart |
| ParamWrites.PassesToWriter | transforms/TaskGraph/src/ParamWriteAnalyzer.cpp:92-105 | the loop over a call's arguments |
| ParamWrites.ParamWriteAnalyzer.AnalyzeFunction | transforms/TaskGraph/src/ParamWriteAnalyzer.cpp:34-54 | one function's written parameters, given the results so far; its own half-made result plays no part |
| ParamWrites.ParamWriteAnalyzer.AnalyzeTranslationUnit | transforms/TaskGraph/src/ParamWriteAnalyzer.cpp:3-19 | every definition once, in source order |
| ParamWrites.PassClosed | transforms/TaskGraph/src/ParamWriteAnalyzer.cpp:92-105 | a parameter handed to one that is not read-only in the final result is itself marked written, whatever the order of the definitions |
| ParamWrites.LeastIsApart | transforms/TaskGraph/src/ParamWriteAnalyzer.cpp:80-84 | leaving out the calls a function makes to itself keeps the least fixpoint if and only if each self-call hands a parameter to a position found without self-calls only from a parameter found without them |
| ParamWrites.ContainsApart | transforms/TaskGraph/src/ParamWriteAnalyzer.cpp:34-54 | in any order of the definitions, the pass marks all that the least fixpoint without self-calls holds |
| ParamWrites.WithinApart | transforms/TaskGraph/src/ParamWriteAnalyzer.cpp:34-54 | with callees defined first it marks nothing else |
| ParamWrites.OnePassIsApart | transforms/TaskGraph/src/ParamWriteAnalyzer.cpp:34-54 | with callees defined first the result of the one pass is that fixpoint |
| ParamWrites.OnePassIsLeast | transforms/TaskGraph/src/ParamWriteAnalyzer.cpp:80-84 | with callees defined first the result is the full least fixpoint if and only if the self-calls pass the test on the program text |
| ParamRuns.RunsWithinReach | transforms/TaskGraph/src/ParamWriteAnalyzer.cpp:56-147 | a run, at any call depth, writes only objects of parameters that some way through the text brings to a write: by copies, places and calls |
| ParamRuns.ReachHasRun | transforms/TaskGraph/src/ParamWriteAnalyzer.cpp:56-147 | every parameter that some way brings to a write has a run, in the order of the text, that writes its object |
| ParamRuns.RunsAreReach | transforms/TaskGraph/src/ParamWriteAnalyzer.cpp:56-147 | some run writes an object if and only if some way through the text brings a parameter that denotes it to a write |
| ParamExact.SoundWhenFound | transforms/TaskGraph/src/ParamWriteAnalyzer.cpp:21-54 | in any order of the definitions, no run writes an object that only read-only parameters denote, if the rule without self-calls finds all that ways bring to a write |
| ParamExact.ReadOnlyIsSound | transforms/TaskGraph/src/ParamWriteAnalyzer.cpp:21-32 | with callees defined first that condition is also necessary |
| ParamExact.ReadOnlyIsExact | transforms/TaskGraph/src/ParamWriteAnalyzer.cpp:21-32 | with callees defined first a parameter is reported read-only exactly when no run writes its object, for all parameters, if and only if the rule finds what ways bring to a write and nothing else |
| ParamExact.PathRoots | transforms/TaskGraph/src/ParamWriteAnalyzer.cpp:119-147 | an expression refers to a parameter exactly when it is an access path rooted there |
| ParamExact.DirectIsLeast | transforms/TaskGraph/src/ParamWriteAnalyzer.cpp:56-147 | without moved or copied pointers, casts and pointer arithmetic, ways bring to a write only what is in the least fixpoint of the rule, and exactly that without dead code |
| ParamExact.DirectExactly | transforms/TaskGraph/src/ParamWriteAnalyzer.cpp:21-54 | on such code without dead code, with callees defined first, reports are sound, and exact, if and only if the self-calls pass the test on the text |
| ParamExact.DirectSound | transforms/TaskGraph/src/ParamWriteAnalyzer.cpp:21-54 | on such code, in any order of the definitions, reports are sound if self-calls keep shared parameters in their positions |
| ParamExamples.RebindMissed | transforms/TaskGraph/src/ParamWriteAnalyzer.cpp:60-66 | `p = q; *p = x;`: q is reported read-only and a run writes its object |
| ParamExamples.LocalCopyMissed | transforms/TaskGraph/src/ParamWriteAnalyzer.cpp:60-66 | `int *l = p; *l = x;`: p is reported read-only and a run writes its object |
| ParamExamples.OverwrittenIsRight | transforms/TaskGraph/src/ParamWriteAnalyzer.cpp:60-66 | `int *l = p; l = a; *l = x;`: p is reported read-only and no run writes its object |
| ParamExamples.OffsetMissed | transforms/TaskGraph/src/ParamWriteAnalyzer.cpp:119-147 | `*(p + x) = x;`: p is reported read-only and a run writes its object |
| ParamExamples.OffsetByValueIsRight | transforms/TaskGraph/src/ParamWriteAnalyzer.cpp:119-147 | `*(a + *p) = x;`: p is reported read-only and no run writes its object |
| ParamExamples.SwapMissed | transforms/TaskGraph/src/ParamWriteAnalyzer.cpp:80-84 | `*p = x; f(q, p);`: q is reported read-only and a run writes its object |
| ParamExamples.MoveOverreported | transforms/TaskGraph/src/ParamWriteAnalyzer.cpp:68-74 | `p++;`: p is reported written and no run writes its object |
| Constify.UnconstifyByPropagation | transforms/Constify/src/ASTConstifyVisitor.cpp:152-171 | exactly the declarations reached from the seed through const ones lose their mark; it ends on cyclic graphs, and a null seed does nothing |
| Constify.ConstDependencies | transforms/Constify/src/ASTConstifyVisitor.cpp:161-167 | pushes exactly the dependencies that are still const |
| Constify.PopStep | transforms/Constify/src/ASTConstifyVisitor.cpp:156-168 | a popped entry that was already marked pushes nothing, although a node may be on the stack several times |
| Constify.SettledReach | transforms/Constify/src/ASTConstifyVisitor.cpp:163-167 | from a settled state, stopping at non-const nodes marks all that the seed depends on |
| Constify.StaysSettled | transforms/Constify/src/ASTConstifyVisitor.cpp:152-171 | a propagation restores the settled state |
| Constify.UnconstifyAll | transforms/Constify/src/ASTConstifyVisitor.cpp:152-171 | after any list of seeds, exactly what some seed depends on is non-const, so their order does not matter |
| Constify.UnsettledStops | transforms/Constify/src/ASTConstifyVisitor.cpp:163-167 | without the settled start a dependency can be missed |
| Unstack.FindTopCallsInExpr | transforms/Unstack/src/helperFunctions.cpp:3-22 | the stack loop appends the outermost calls, last one first |
| Unstack.BuildSubTree | transforms/Unstack/src/createUnstackString.cpp:15-28 | the tree of a call with its numbers |
| Unstack.NumberSound | transforms/Unstack/src/createUnstackString.cpp:15-28 | every number in the tree is different and lies between the counter before and after, and the children are the outermost calls of the arguments |
| UnstackOutput.ArgTextIsPlain | transforms/Unstack/src/createUnstackString.cpp:70-116 | the child counter never runs out, so each call outside other expressions is printed as its own temporary |
| UnstackOutput.PlainValue | transforms/Unstack/src/createUnstackString.cpp:70-116 | a printed argument has the value of the argument |
| UnstackOutput.CreateTempVars | transforms/Unstack/src/createUnstackString.cpp:57-68 | emits a tree's temporaries, children first, in whatever order the hash map gives |
| UnstackOutput.RunTree | transforms/Unstack/src/createUnstackString.cpp:57-68 | running what a tree emits leaves the call's value in its temporary and touches only the tree's own |
| UnstackOutput.BuildRoots | transforms/Unstack/src/createUnstackString.cpp:6-14 | the root calls of an instruction get trees with disjoint numbers |
| UnstackOutput.EmitTempVars | transforms/Unstack/src/createUnstackString.cpp:31-36 | the temporaries of all roots, one root after the other |
| UnstackRewrite.CollectNodes | transforms/Unstack/src/createUnstackString.cpp:37-47 | one child of the root for each outermost call of its arguments, in the order the calls are found |
| UnstackRewrite.RewriteRoot | transforms/Unstack/src/createUnstackString.cpp:48-54 | replacing the collected calls one after the other by their temporaries gives the root with all its nested calls hoisted |
| UnstackRewrite.RewriteRoots | transforms/Unstack/src/createUnstackString.cpp:37-54 | the same for all roots of an instruction |
| UnstackOutput.UnstackedValue | transforms/Unstack/src/createUnstackString.cpp:30-68 | for every iteration order, running the temporaries and then a rewritten root gives the root's original value |
| UnstackOutput.UnstackedOrder | transforms/Unstack/src/createUnstackString.cpp:30-68 | temporaries are all different and each is defined before it is used |
| UnstackCalls.FlatRoots | transforms/Unstack/src/createUnstackString.cpp:70-146 | an emitted call has no call in its arguments outside parentheses, casts and the like, which stay as written |
| UnstackCalls.HoistArgsCallFree | transforms/Unstack/src/createUnstackString.cpp:37-54 | a rewritten root has no call at any depth of its arguments |
| UnstackCalls.RootsPerform | transforms/Unstack/src/createUnstackString.cpp:30-68 | in any order of the hash maps the temporaries perform exactly the calls nested in the roots, each once and with the values its arguments had |
| UnstackRepeats.RepeatedExactly | transforms/Unstack/src/createUnstackString.cpp:111-116 | the temporaries make no further call exactly when no call is left in their arguments |
| UnstackRepeats.RootsCallFree | transforms/Unstack/src/createUnstackString.cpp:70-116 | no call is left there if and only if no nested call of the roots has a call in parentheses, a cast or the like among its arguments |
| UnstackRepeats.ParenthesesRepeat | transforms/Unstack/src/createUnstackString.cpp:111-116 | for `f(g((h(1))))` this fails |
| UnstackRewrite.UnstackInstruction | transforms/Unstack/src/createUnstackString.cpp:6-68 | numbering, temporaries and replacement together: each rewritten root keeps its function, has no call in its arguments and the root's value; there is one temporary for each nested call, calling that function with the same argument values; temporaries are different, defined before use and numbered from the counter; no call is made a second time exactly under the condition of RootsCallFree |
| Heapify.Visitor.GetVariablesToDelete | transforms/Heapify/include/core.hpp:42-52 | the variables of the scope and of all scopes around it, innermost first |
| Heapify.Visitor.VisitStmt | transforms/Heapify/src/ASTHeapifyVisitor.cpp:15-45 | visiting one more statement, a declaration, a return or a nested scope, leaves the record of the longer prefix on top of the same stack |
| Heapify.Visitor.VisitReturn | transforms/Heapify/include/ASTHeapifyVisitor.hpp:22-29 | only the first return of a scope takes the snapshot |
| Heapify.Visitor.TraverseCompoundStmt | transforms/Heapify/src/ASTHeapifyVisitor.cpp:15-29 | the record of a scope and of all scopes inside it; the stack is otherwise as before |
| Heapify.ComputeNeededHeapScope | transforms/Heapify/src/utilitaryFunctions.cpp:68-82 | exactly the scopes with a return of their own stay on the stack, at every depth |
| Heapify.HeapVariables | transforms/Heapify/src/utilitaryFunctions.cpp:95-104 | the variables of a scope get consecutive numbers and are entered in the map, nothing else is |
| Heapify.ComputeScopeVariables | transforms/Heapify/src/utilitaryFunctions.cpp:91-115 | own variables are numbered from the counter, sub-scopes continue after them, and a return deletes exactly the live blocks of the scopes around it |
| Heapify.DeletesAreLive | transforms/Heapify/src/utilitaryFunctions.cpp:109-114 | the snapshot of a return, looked up after the sub-scopes, is the list of live blocks |
| HeapifyRuns.DeclBecomes | transforms/Heapify/src/fileModification.cpp:8-16 | a declaration becomes the allocation of its own block, or stays, with its scope |
| HeapifyRuns.OnlyFirstReturnDeletes | transforms/Heapify/src/fileModification.cpp:22-26 | a return is preceded by deletes exactly when it is the first of its scope |
| HeapifyRuns.BodyBalanced | transforms/Heapify/src/fileModification.cpp:3-28 | a scope entered with every block either deleted once or live is left in such a state, or has returned with every block deleted once |
| HeapifyRuns.ChainNamesDistinct | transforms/Heapify/include/fileModification.hpp:24-28 | no two blocks of a scope and the scopes around it share a pointer name |
| HeapifyRuns.HeapBalance | transforms/Heapify/src/fileModification.cpp:3-28 | every run of the rewritten function deletes each allocated block exactly once, each delete finding its pointer in scope |
| HeapifyPass.BodyKept | transforms/Heapify/src/fileModification.cpp:3-28 | without its deletes, and with each allocation read as the declaration of its variable, the rewritten scope is the scope it was, at every depth; allocations stand in scopes without a return of their own only, kept declarations in the others only, and nothing follows a delete but its return or the closing brace |
| HeapifyPass.HeapifyFunction | transforms/Heapify/src/stackheap.cpp:30-37 | visitor, passes and rewriting together: the same statements in their order at every depth, exactly the declarations of scopes without a return of their own become allocations of their variable, and every run deletes each block exactly once |

## Left out

- Nested task graphs: instruction lists are flat; sub-graphs of if and for statements, sub-orders and dependency summaries of loops are not modelled.
- Pipeline.Parallelise: judges the clauses for scalar tables (each element its own only cell), and takes every printed group as a task; loops are rounds of one flat body, without the loop's own condition and step.
- Clauses.AdjacentWait: is stated for scalar tables, as are WaitIsPath, EnforcedIsTopological, EndToEnd, UnenforcedUnordered, UnenforcedBreaks and ClausesExact; how OpenMP compares array sections, `taskwait`, `firstprivate` and the recursion-depth control are not modelled.
- Clauses.EndToEnd: see Clauses.AdjacentWait.
- Clauses.WaitIsPath: see Clauses.AdjacentWait.
- Clauses.EnforcedIsTopological: see Clauses.AdjacentWait.
- Clauses.UnenforcedUnordered: see Clauses.AdjacentWait.
- Clauses.UnenforcedBreaks: see Clauses.AdjacentWait.
- ArrayClauses.EdgeClauses: says which clauses array elements get, not whether OpenMP makes two tasks with overlapping array items wait.
- Rounds.LoopEndToEnd: scalar tables, as in Clauses.AdjacentWait; so are all results about rounds.
- TaskGraph.Graph.InstructionToGraph: flat graphs; tables inherited from an enclosing graph are not modelled.
- TaskGraph.Graph.NodesFusion: flat graphs; the graphs of complex nodes are not optimised on the way. The same holds for OptimizeGraph and Compile.
- TaskGraph.Graph.OptimizeGraph: see TaskGraph.Graph.NodesFusion.
- TaskGraph.Graph.Compile: see TaskGraph.Graph.NodesFusion.
- StmtOrders.StmtOrder.UpdateInstructionOrderFromGraph: sub-orders of complex instructions are not modelled.
- Accesses.LinkedNamesConflict: scalar tables.
- Clauses.ClausesExact: scalar tables; takes it as given that every recorded dependency is a read or a write, which `Accesses.AddDependencyRead` and `Accesses.AddDependencyWrite` keep true.
- Declarations, deletes and other statements that are printed without a task are not distinguished from tasks in the emission order.
- Node and graph objects: nodes are numbers in one graph, so the graph-identity test of fusion is always true and a null `arg` of `addLink` does not occur; read and write buffers are sets, since every entry names the same node.
- The visitor that records accesses is not modelled; the example programs carry the accesses it records: every variable an expression names is read, array bases, indexes and left-hand sides included.
- Statements are numbered by position, standing for distinct begin locations.
- AliasTries.InsertArgs: insertion descends recursively over trie values instead of moving a pointer into the trie.
- AliasTries.NbElements: trie nodes are values, so sharing of table nodes between shared pointers is not captured; the same holds for the scope records of Heapify and the call trees of Unstack.
- Footprints.GetArrayElementChildren: the fields of element objects are given by a map from element number.
- References.ReferenceTable.Pass: undefined behaviour of inserting into a hash set while walking over it is modelled as any choice of which inserted names are visited.
- References between variables in `getModifiedVariables` at depth 0, pointers with several possible targets, pointers to array elements, and calls that return pointers.
- PointerStores.PointerTable.GetModifiedVariables: starts from one variable, as does GetPointerAccessedVariables.
- PointerStores.PointerTable.GetPointerAccessedVariables: see PointerStores.PointerTable.GetModifiedVariables.
- PointerStores.PointerTable.RemoveDependencyPtr: a target is found by itself, not by looking its variable up again.
- PointerStores.PointerTable.AnalyseProgram: straight-line assignments of the forms of HandleAssignment.
- PointerStores.PointerTable.HandleAssignment: each side denotes one variable, so the loops over the two sets are one step; the element lookup of `removeDependencyPtr` by variable alone is the identity here.
- ParamWrites.ContainsWriteTo: calls through function pointers are ordinary nodes, as in the analysis.
- ParamRuns.RunsAreReach: conditions are not evaluated, so either branch may be taken and a loop may go any number of rounds; a run may stop after any action, so a call may return there; arguments are evaluated from left to right. Goto and exceptions are not modelled. Pointers live in variables: programs that keep pointers in objects, take the address of a pointer variable, bind references to pointer variables, assign pointers inside other actions, or use the result of a call as a pointer or a place have no runs in the model (the predicate `Contained` on the text).
- ParamRuns.ReachHasRun: see ParamRuns.RunsAreReach.
- ParamExact.ReadOnlyIsSound: the same programs as ParamRuns.RunsAreReach, with every definition analysed; a function without a body is reported as a writer of all its parameters.
- ParamExact.ReadOnlyIsExact: the same programs as ParamExact.ReadOnlyIsSound.
- Constify: how seeds and dependencies are collected from the syntax tree, and printing.
- UnstackOutput.ArgTextIsPlain: without unary operators, as is PlainValue.
- UnstackOutput.PlainValue: see UnstackOutput.ArgTextIsPlain.
- UnstackOutput.UnstackedValue: functions are pure and total; unary operators, which the argument printer always prints as `++` or `--`, are not modelled.
- Heapify.Visitor.VisitReturn: goto statements, which the same handler records, are not modelled.
- HeapifyPass.HeapifyFunction: see HeapifyRuns.HeapBalance.
- HeapifyRuns.HeapBalance: branches and loop bodies are braced; break, continue, goto, declarations in for headers and the use of a heap variable in a return expression are not modelled. A run may enter a braced body any number of times, which covers if, else and loops.
- Clang syntax trees, source rewriting, option parsing, text and dot output, and the passes that only insert text (main, duplicate functions, declaration and condition splitting, goto removal).
