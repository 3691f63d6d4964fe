# Slither analyses: a verified model

This project models the graph algorithms, fixpoints, rewrites and allocators at
the heart of the Slither static analyser, and proves what they compute. Where
the analyser mutates state (search tables, shared expression nodes, dependency
sets, parser flags, instruction fields, lists), so does the model: methods with
loops and classes, each proved against a specification that is independent of
the loop. `dafny verify dfyconfig.toml` checks everything.

| file | models |
|---|---|
| `Graphs.dfy`, `Selections.dfy`, `Options.dfy` | reachability, order-preserving selections, optional values |
| `Kosaraju.dfy` | strongly connected components by two depth-first passes |
| `WrittenVariables.dfy` | "is this variable written on every path?", a memoised search over (node, written set) |
| `TernaryTrees.dfy`, `TernarySplit.dfy` | splitting an expression at a ternary: its meaning, and the rewrite on shared mutable nodes |
| `DataDependency.dfy` | closing, merging and erasing data dependency tables |
| `InheritanceScheduler.dfy` | the rotating work list that analyses contracts after their ancestors |
| `ArrayLowering.dfy` | lowering of `push` and `pop`, executed on storage arrays |
| `CallSplice.dfy`, `NamedArguments.dfy` | turning temporary calls into calls while deleting and inserting in place; named arguments |
| `ValueGasFolding.dfy` | folding `.value(..)` and `.gas(..)` into their call, to a fixpoint |
| `StorageLayout.dfy` | slots and offsets of state variables |
| `LockstepCompare.dfy` | comparing two versions of a function |
| `IgnoreRanges.dfy` | `slither-disable-start` / `slither-disable-end` ranges |
| `SourceMapLines.dfy` | source map decompression and the line table |

## Where code and intention part

Each of these is a theorem: an input on which the code misses its purpose, and
the exact condition under which it does not.

- A second ternary directly ahead overwrites the condition kept from the first
  (`slither/utils/expression_manipulations.py:85`):
  `SecondTernaryOverwritesCondition`. Which ternaries are intercepted is read
  off the expression (`Intercepted`), and the meaning is kept exactly when they
  agree on the branch that the last condition selects: `PreservedIffAllAgree`.
- The union at `slither/analyses/data_dependency/data_dependency.py:387` is
  computed and discarded, so a key shared by two functions keeps its first set:
  `SharedKeyLosesDependency`. Nothing is lost exactly when the first table that
  has a key, with the first tables of what it reaches, already implies every
  later entry: `ContractTableExact`. IR variables are keys by identity, since
  neither `StateIRVariable` nor its bases define `__eq__`. Functions can still
  share one: each starts from the instances of state variables that the
  functions before it left (`slither/core/declarations/contract.py:1570-1571`,
  `slither/slithir/utils/ssa.py:439-442`), and a reference may point to such an
  instance, to a contract or to an enum.
- The lockstep walk stops with the shorter queue and never queues a son that is
  visited already, so appended code and back edges can go unreported although
  the docstring promises "True if the functions differ": `AppendedCodeIsMissed`,
  `BackEdgeIsMissed`. For functions whose nodes are all reachable the answer is
  right exactly when it is True, or the two walks run out at the same pop and
  the pairing of popped nodes is one to one and carries whole lists of sons to
  each other: `UnreportedExact`.
- A node is taken to write whatever an Index, Member or Length operation refers
  into (`slither/analyses/write/are_variables_written.py:67-86`), so reading
  a[i] passes for writing a, although the analysis is documented to "detect if
  all the given variables are written": `ReadingCountsAsWriting`,
  `ReadOnlyFunctionPasses`. A node's set is right exactly when everything
  referred into is also assigned to: `GenExact`.
- `a.push(a.length)` is lowered so that the argument is read after the length
  has been incremented: `PushOwnLengthStoresOneMore`, `PushedValueExact`.
- A fixed-size array is given element size times length in bytes
  (`slither/core/solidity_types/array_type.py:66`), which is too little when
  elements do not fill slots evenly, as for three addresses:
  `AddressArrayIsShort`. It is right for an array exactly when those bytes reach
  into the slot of the last element: `ArraySlotsExact`.
- An override that names the same parameters in another order decides the order
  of named arguments, the known issue of `slither/slithir/convert.py:440`:
  `SwappedOverrideMisorders`, `IntendedOrderExact`.
- Folding value and gas guarantees after each pass that no survivor names a
  setter removed by that pass. A later pass can bring back the name of one
  removed earlier: `RemovedNameReturns`; it does exactly when it folds a setter
  that refers back to such a name: `NameReturnsIffReferred`.

## Model

| member | source | states |
|---|---|---|
| `Kosaraju.ComputeStronglyConnectedComponents` | slither/utils/code_complexity.py:23-61 | for every finite graph with inverse `sons`/`fathers`: the components partition the nodes, none is empty or repeats a node, members are exactly the mutually reachable nodes, and no path leads from a later component to an earlier one |
| `Kosaraju.SccSearch.Visit` | slither/utils/code_complexity.py:38-43 | keeps the finish-order invariant: a finished node that reaches a later position has a mate at that position or later, or one still on the stack; the set of open nodes is restored |
| `Kosaraju.SccSearch.Assign` | slither/utils/code_complexity.py:48-53 | adds to the component exactly the nodes newly assigned; all of them reach the root and their predecessors are assigned too |
| `Kosaraju.SccSearch.VisitAll` | slither/utils/code_complexity.py:45-46 | the first loop leaves every node in the list once, in finish order |
| `Kosaraju.Discover` | slither/utils/code_complexity.py:39-40 | discovering a node keeps the invariant: finished nodes reach it only through the stack |
| `Kosaraju.Finish` | slither/utils/code_complexity.py:43 | appending a node whose sons are all visited keeps the invariant |
| `Kosaraju.FirstPassDone` | slither/utils/code_complexity.py:45-46 | when no node is open the list is a finish order of all nodes |
| `Kosaraju.CollectedIsComponent` | slither/utils/code_complexity.py:55-57 | what one `assign` adds is exactly the component of its root |
| `Kosaraju.ComponentDone` | slither/utils/code_complexity.py:55-59 | one turn of the second pass extends the partition in topological order, and changes nothing when the node was assigned already |
| `Kosaraju.SameComponentIffMutual` | slither/utils/code_complexity.py:55-61 | two nodes share a returned component if and only if each reaches the other |
| `Kosaraju.ComponentsAreUnique` | slither/utils/code_complexity.py:55-61 | the graph alone determines the components: any two valid results hold the same ones |
| `WrittenVariables.FollowReferences` | slither/analyses/write/are_variables_written.py:75-86 | adds exactly the variables that the chain of references from the left value passes through |
| `WrittenVariables.TableHoldsLastBase` | slither/analyses/write/are_variables_written.py:67-70 | the reference table holds for each reference the base of the last Index, Member or Length operation that binds it, and no other |
| `WrittenVariables.BaseIsWritten` | slither/analyses/write/are_variables_written.py:67-86 | if one operation gives a reference the base v and a later one assigns to the reference, with no rebinding in between, v is written |
| `WrittenVariables.GenMeans` | slither/analyses/write/are_variables_written.py:56-86 | a node writes v if and only if some operation assigns to v itself, or to a reference from which the last bases lead to v; stated on the operations alone |
| `WrittenVariables.ReadingCountsAsWriting` | slither/analyses/write/are_variables_written.py:67-86 | an Index, Member or Length operation alone, such as in reading a[i], makes its base written |
| `WrittenVariables.GenExact` | slither/analyses/write/are_variables_written.py:56-86 | a node's set is what its operations really assign to if and only if every base that a reference is bound into is also assigned to |
| `WrittenVariables.ReadOnlyFunctionPasses` | slither/analyses/write/are_variables_written.py:104-114 | a function that only reads a[i] passes for one that writes a on every path |
| `WrittenVariables.Transfer` | slither/analyses/write/are_variables_written.py:56-86 | a node that does not revert adds a fixed set to whatever was written before; None exactly when it reverts |
| `WrittenVariables.State.Visit` | slither/analyses/write/are_variables_written.py:36-101 | every variable returned has a witness path, every configuration newly recorded is fully expanded; ends because unrecorded configurations run out |
| `WrittenVariables.ClosedRecordFollows` | slither/analyses/write/are_variables_written.py:96-100 | in a fully expanded record every path that never writes v is followed to its exit, where v is reported |
| `WrittenVariables.AreVariablesWritten` | slither/analyses/write/are_variables_written.py:104-114 | returns v if and only if v was asked for and some revert-free path from the entry to a son-less node that does not throw never writes v, loops included |
| `TernaryTrees.SplitSelects` | slither/utils/expression_manipulations.py:55-228 | in every compositional semantics, taking one half everywhere gives the value of the expression if every intercepted ternary agrees, and (semantics injective) only then |
| `TernaryTrees.SplitFinds` | slither/utils/expression_manipulations.py:55-228 | the split intercepts exactly the ternaries that `Intercepted` reads off the expression without splitting it: searched left to right at full depth until one is found, then only those directly ahead, no further than a ternary in gas or value; it succeeds exactly when no unsupported node is met before the first one, and raises "Nested ternary operator not handled" never |
| `TernaryTrees.AheadStands` | slither/utils/expression_manipulations.py:74-82 | what is taken to be ahead is a ternary, bare or as the only component of one tuple, and nothing else |
| `TernaryTrees.GasEndsTheSplit` | slither/utils/expression_manipulations.py:192-202 | a ternary as gas, bare or in parentheses, is the last one intercepted; value and arguments are left whole in both halves |
| `TernaryTrees.ValueEndsTheSplit` | slither/utils/expression_manipulations.py:204-216 | so is one as value when gas has not ended the walk; the arguments are left whole |
| `TernaryTrees.InterceptedCount` | slither/utils/expression_manipulations.py:67-163 | at most as many are intercepted as the expression holds, and one if it holds any |
| `TernaryTrees.PreservedIffAllAgree` | slither/utils/expression_manipulations.py:82-86 | for every expression with a ternary: "if condition then true_expression else false_expression" means the expression if (and, for injective semantics, only if) every ternary in `Intercepted` agrees with the branch that the last condition selects |
| `TernaryTrees.OneConditionPreserves` | slither/utils/expression_manipulations.py:55-228 | if the ternaries in `Intercepted` have one condition the meaning is kept in every semantics |
| `TernaryTrees.OneTernaryPreserves` | slither/utils/expression_manipulations.py:55-228 | an expression that holds one ternary, at any depth, keeps its meaning, through binary, tuple, index, unary, member, conversion and call positions |
| `TernaryTrees.CopyKeepsLast` | slither/utils/expression_manipulations.py:82-86 | the condition held at the end is that of the last intercepted ternary, and there is none exactly when nothing was intercepted |
| `TernaryTrees.SecondTernaryOverwritesCondition` | slither/utils/expression_manipulations.py:85 | (1 ? 2 : 3) + (0 ? 4 : 5) changes its value |
| `TernaryTrees.RecordsAreInjective` | slither/utils/expression_manipulations.py:55-65 | the hypotheses of the exactness theorem can be met |
| `TernaryTrees.NoTernaryCopies` | slither/utils/expression_manipulations.py:92-163 | without a ternary both halves equal the expression and there is no condition |
| `TernaryTrees.ConditionIffTernary` | slither/utils/expression_manipulations.py:64-163 | no ternary is overlooked: there is no condition at the end if and only if the expression holds no ternary at any depth |
| `TernaryTrees.SupportedIsHandled` | slither/utils/expression_manipulations.py:92-139 | without an unsupported node no exception is raised |
| `TernarySplit.SplitTernaryExpression.Init` | slither/utils/expression_manipulations.py:55-65 | on shared heap nodes: both results are fresh and denote the two halves, and the original still denotes the original expression |
| `TernarySplit.SplitTernaryExpression.ConditionalNotAhead` | slither/utils/expression_manipulations.py:67-90 | takes a ternary apart when it is directly ahead, possibly in parentheses, and otherwise copies twice; only the condition changes besides fresh nodes |
| `TernarySplit.SplitTernaryExpression.CopyExpression` | slither/utils/expression_manipulations.py:92-139 | rebuilds two shallow copies so that they denote the two halves, writing no node but the copies and fresh ones |
| `TernarySplit.SplitTernaryExpression.ConvertItems` | slither/utils/expression_manipulations.py:147-163 | the two lists end up with the halves of all components, absent ones included |
| `TernarySplit.SplitTernaryExpression.ConvertCallExpression` | slither/utils/expression_manipulations.py:178-228 | callee, gas, value and arguments in that order, with the early return after a ternary in gas or value |
| `TernarySplit.SplitTernaryExpression.ConvertOption` | slither/utils/expression_manipulations.py:192-216 | gas or value of both copies is replaced, arguments stay shared, and the caller learns whether to return early |
| `TernarySplit.SplitTernaryExpression.ConvertArguments` | slither/utils/expression_manipulations.py:218-228 | both copies receive argument lists of their own |
| `TernarySplit.CopyDenotes` | slither/utils/expression_manipulations.py:88-89 | a shallow copy denotes the same tree as its original |
| `DataDependency.Context.TransitiveCloseDependencies` | slither/analyses/data_dependency/data_dependency.py:390-408 | ends; every key holds its own entries plus every other variable it reaches through table keys; the table without versions is the projection of that |
| `DataDependency.Context.CollectAdditions` | slither/analyses/data_dependency/data_dependency.py:398-401 | one pass proposes exactly the variables one step further than the table knows, never the key itself |
| `DataDependency.Context.ApplyAdditions` | slither/analyses/data_dependency/data_dependency.py:402-407 | the sets grow in place by what was collected; `changed` exactly when something was |
| `DataDependency.StableIsClosure` | slither/analyses/data_dependency/data_dependency.py:396-407 | a table between the original and its closure that a pass leaves alone is the closure |
| `DataDependency.PassStaysBetween` | slither/analyses/data_dependency/data_dependency.py:399-407 | no pass adds anything outside the closure |
| `DataDependency.PassShrinksMissing` | slither/analyses/data_dependency/data_dependency.py:396-407 | a pass that changes anything strictly lowers what is missing, so the loop ends |
| `DataDependency.Context.ConvertToNonSsa` | slither/analyses/data_dependency/data_dependency.py:491-502 | the loop builds the projection: entries of all versions of a variable are united |
| `DataDependency.Context.PropagateFunction` | slither/analyses/data_dependency/data_dependency.py:377-387 | the function's own table is closed; the contract gains copies of its new keys, shares no set with it and keeps its old keys unchanged |
| `DataDependency.ComputeDependencyContract` | slither/analyses/data_dependency/data_dependency.py:353-374 | every function ends with the closure of its own raw table, untouched by the contract's closure; the contract with the closure of the merged table |
| `DataDependency.MergedValue` | slither/analyses/data_dependency/data_dependency.py:383-387 | a merged key holds the closure from the first function that has it |
| `DataDependency.MergedBelowUnion` | slither/analyses/data_dependency/data_dependency.py:383-387 | the contract table never holds more than the closure of all functions together |
| `DataDependency.ClosureKeepsUnion` | slither/analyses/data_dependency/data_dependency.py:362-387 | a step: the contract table is the closure of the union of all raw tables if and only if closing what was kept recovers whatever line 387 discards |
| `DataDependency.InClosedMerge` | slither/analyses/data_dependency/data_dependency.py:373-387 | what the contract table ends with for k, in terms of the raw tables: a self-dependency of the first table that has k, and everything reached by hops, each within the first table that has its start |
| `DataDependency.ContractTableExact` | slither/analyses/data_dependency/data_dependency.py:362-387 | the contract table is the closure of the union of all raw tables if and only if every table that comes later for a key adds nothing to it in that sense; a condition on the raw tables alone |
| `DataDependency.DisjointKeysLoseNothing` | slither/analyses/data_dependency/data_dependency.py:383-387 | with disjoint keys nothing is lost |
| `DataDependency.FunctionOrderIrrelevant` | slither/analyses/data_dependency/data_dependency.py:362-374 | with disjoint keys the order of the functions does not matter |
| `DataDependency.SharedKeyLosesDependency` | slither/analyses/data_dependency/data_dependency.py:386-387 | two functions sharing a key lose a dependency |
| `DataDependency.ErasedRelates` | slither/analyses/data_dependency/data_dependency.py:491-502 | a corollary of what `ConvertToNonSsa` computes: the table without versions relates u to w exactly when some versions of them are related |
| `DataDependency.ErasedByName` | slither/analyses/data_dependency/data_dependency.py:461-502 | the same by names: it relates variables without version, x to y exactly when something called x depends on something called y |
| `DataDependency.CloseThenProjectIsFiner` | slither/analyses/data_dependency/data_dependency.py:390-408 | every pair it relates is connected in the graph with versions erased first |
| `DataDependency.CloseThenProjectIsStrictlyFiner` | slither/analyses/data_dependency/data_dependency.py:390-408 | the converse fails |
| `InheritanceScheduler.HaltsIffSchedulable` | slither/solc_parsing/slither_compilation_unit_solc.py:625-639 | the rotation ends if and only if no group of queued contracts waits for itself or for something absent, and then within n(n+1)/2 pops |
| `InheritanceScheduler.StuckForever` | slither/solc_parsing/slither_compilation_unit_solc.py:625-639 | a group without entry is queued for ever |
| `InheritanceScheduler.StepLowersBound` | slither/solc_parsing/slither_compilation_unit_solc.py:625-639 | every pop lowers a bound on the pops to come |
| `InheritanceScheduler.AncestorListsAreSchedulable` | slither/solc_parsing/slither_compilation_unit_solc.py:630-635 | acyclic ancestor lists closed over the queue meet that condition |
| `InheritanceScheduler.RunPhase` | slither/solc_parsing/slither_compilation_unit_solc.py:599-612 | each queued contract is analysed exactly once, after everything it inherits from, within n(n+1)/2 pops; the caller's list object is unchanged |
| `InheritanceScheduler.PopFront` | slither/solc_parsing/slither_compilation_unit_solc.py:601-612 | one turn on parser objects is one step of the machine, on a fresh list |
| `InheritanceScheduler.RunPhaseWithLibraries` | slither/solc_parsing/slither_compilation_unit_solc.py:614-639 | with flags reset and libraries marked first, a phase orders its contracts after their ancestors |
| `InheritanceScheduler.ResetFlags` | slither/solc_parsing/slither_compilation_unit_solc.py:562 | no parser is marked afterwards |
| `InheritanceScheduler.OfKindSelects` | slither/solc_parsing/slither_compilation_unit_solc.py:564-569 | filtering by kind keeps exactly the contracts of that kind, each occurrence once and in place |
| `InheritanceScheduler.RunAllPhases` | slither/solc_parsing/slither_compilation_unit_solc.py:557-586 | all five phases complete; enums visit every contract; each of the others visits every contract that is no library as often as the list has it and no library, after its ancestors, the last phase without help from marked libraries |
| `ArrayLowering.Converter.ConvertToPush` | slither/slithir/convert.py:1442-1461 | emits the push sequence over new variables, with or without an argument or an array literal |
| `ArrayLowering.Converter.ConvertToPop` | slither/slithir/convert.py:1464-1526 | emits the six operations of a pop |
| `ArrayLowering.PushAppends` | slither/slithir/convert.py:1359-1461 | executing them appends exactly the value of the argument (zero for `push()`) and touches no other array; a full array panics |
| `ArrayLowering.PopDrops` | slither/slithir/convert.py:1464-1526 | executing them clears and drops the last element and touches no other array; an empty array panics |
| `ArrayLowering.ArraysStayValid` | slither/slithir/convert.py:1359-1526 | both keep "slots beyond the length are zero"; the appended slot holds the value, the others are as before; dropping undoes appending |
| `ArrayLowering.PushThenPopRestores` | slither/slithir/convert.py:1359-1526 | a push followed by a pop leaves all arrays as they were |
| `ArrayLowering.PushedValueExact` | slither/slithir/convert.py:1368-1433 | running the lowered code appends the value the argument had before the call if and only if there is room and the argument does not refer to the array's own length |
| `ArrayLowering.PushOwnLengthStoresOneMore` | slither/slithir/convert.py:1368-1433 | run on an array of n zeros, a.push(a.length) stores n + 1 |
| `NamedArguments.ReorderArguments` | slither/slithir/convert.py:414-458 | the nested loops compute the specification `Reordered` |
| `NamedArguments.FirstCompatibleDecides` | slither/slithir/convert.py:438-453 | the first declaration that knows every name fixes the order; with none the result is empty; other declarations may have unnamed parameters |
| `NamedArguments.EachTakesItsName` | slither/slithir/convert.py:438-458 | every parameter of the first declaration that fits receives the argument given under its name |
| `NamedArguments.ReorderKeepsArguments` | slither/slithir/convert.py:431-458 | no argument is lost or repeated if and only if some declaration is compatible or there is nothing to reorder |
| `NamedArguments.IntendedOrderExact` | slither/slithir/convert.py:438-453 | arguments come in the order of the declaration the call was written against if and only if the first compatible declaration lists the names as that one does |
| `NamedArguments.SwappedOverrideMisorders` | slither/slithir/convert.py:440-453 | an override with the parameters swapped exchanges the arguments |
| `CallSplice.PropagateTypeAndConvertCall` | slither/slithir/convert.py:461-551 | deleting and inserting in place equals a one-pass flat map of the original list; the distance to the end falls by one per turn; fails exactly where an assertion on a call with named arguments does: the class of the call, or the numbers of names |
| `CallSplice.Step` | slither/slithir/convert.py:472-550 | one turn replaces one instruction by what it emits and moves past it, so inserted instructions are never looked at again |
| `CallSplice.InsertAll` | slither/slithir/convert.py:544-545 | repeated insertion splices the whole list in order |
| `CallSplice.Receive` | slither/slithir/convert.py:490-532 | conversion, argument and call update what is pending; a call receives its stored arguments followed by the queue |
| `CallSplice.CollectMeans` | slither/slithir/convert.py:490-532 | what is pending after each kind of instruction; a conversion takes out the first occurrence of its variable |
| `CallSplice.AcceptableMeans` | slither/slithir/convert.py:510-525 | when a call with named arguments is refused: for its class, or because queue, names and declarations differ in length |
| `CallSplice.BlockMeans` | slither/slithir/convert.py:475-550 | position by position: arguments and temporary creations disappear, everything else, completed if it is a call, becomes what type propagation returns or stays |
| `CallSplice.QueueSincePreviousCall` | slither/slithir/convert.py:490-532 | a call finds exactly the CALL arguments since the previous call less those consumed by conversions, in the order in which they came |
| `CallSplice.ArgumentsConserved` | slither/slithir/convert.py:461-551 | over the whole list every CALL argument is taken by one call, consumed by one conversion, or still queued |
| `CallSplice.CallReceives` | slither/slithir/convert.py:504-532 | a call receives the arguments it had, then exactly the CALL arguments since the previous call less those consumed, in order; high-level, library and dynamic calls receive the last value and gas given for their call id, contract creations the last value, no other call either, and nothing else of the call changes |
| `CallSplice.NamedCallReceives` | slither/slithir/convert.py:510-525 | a call with named arguments receives a permutation of the queue if and only if some declaration fits its names or the queue is empty, and every parameter of the first that fits receives the argument given under its name |
| `CallSplice.LastOptionWins` | slither/slithir/convert.py:493-499 | what is pending for a call id is the last value (or gas) given for it, and nothing if none was |
| `ValueGasFolding.FindOrigins` | slither/slithir/convert.py:301-309 | each call by variable gets as origin the last instruction, up to and including itself, that defines its callee; without one its origin stays, and no other field of any instruction changes |
| `ValueGasFolding.AssignedIsLatest` | slither/slithir/convert.py:301-305 | a name stands for the latest instruction so far that defines it |
| `ValueGasFolding.CollectSetters` | slither/slithir/convert.py:311-336 | marks exactly the setters directly after an argument, tags that argument, and records one replacement each |
| `ValueGasFolding.RemoveSetters` | slither/slithir/convert.py:338-339 | an in-order subsequence that lacks exactly the marked calls |
| `ValueGasFolding.RedirectOne` | slither/slithir/convert.py:342-353 | the inner loops follow replacement chains to their end |
| `ValueGasFolding.Pass` | slither/slithir/convert.py:297-353 | what one pass makes of every surviving instruction; it reports a change if and only if some setter directly followed an argument |
| `ValueGasFolding.SurvivorsNameNoSetter` | slither/slithir/convert.py:341-353 | after a pass no `called` and no `call_id` names a setter that the pass removed |
| `ValueGasFolding.OthersUntouched` | slither/slithir/convert.py:321-353 | an instruction that neither precedes a removed setter nor names one keeps all its fields in a pass |
| `ValueGasFolding.NameReturnsIffReferred` | slither/slithir/convert.py:315-353 | a pass makes a survivor name a setter removed by an earlier pass if and only if it folds a setter that is a member of such a name |
| `ValueGasFolding.RemovedNameReturns` | slither/slithir/convert.py:315-353 | eight instructions, every name defined before its use, on which the second pass does |
| `ValueGasFolding.ArgumentMeetsItsCall` | slither/slithir/convert.py:321-353 | the argument of a setter and a call of the setter's result end with the same call id, the call's new callee, and the right kind |
| `ValueGasFolding.ReplacementsDescend` | slither/slithir/convert.py:328-336 | replacements lead from later-defined to earlier-defined names, so chains end |
| `ValueGasFolding.Turn` | slither/slithir/convert.py:297-353 | a pass that changes anything removes an instruction; one that does not leaves the list and its fields stable |
| `ValueGasFolding.IntegrateValueGas` | slither/slithir/convert.py:289-362 | ends; the result is the original list in order, lacking nothing but calls of `value` and `gas` members; in it no call directly after an argument has a callee last defined as such a member; its call ids, callees, kinds and origins are those that the repeated passes give |
| `ValueGasFolding.OptionCallFolds` | slither/slithir/convert.py:289-362 | f.value(A)(B) and f.gas(A)(B) end as a call of f with A as its value or gas and B as its argument, and the call of the member is gone |
| `StorageLayout.AssignPositions` | slither/core/compilation_unit.py:314-342 | every variable takes the first place after its predecessor where the rules of the Solidity documentation allow it |
| `StorageLayout.PlaceNext` | slither/core/compilation_unit.py:320-342 | one turn of the loop finds the first fit |
| `StorageLayout.CompilationUnit.ComputeStorageLayout` | slither/core/compilation_unit.py:306-342 | writes that layout into the table asked for and leaves the other table and all other contracts alone |
| `StorageLayout.RulesDetermineLayout` | slither/core/compilation_unit.py:314-342 | the rules admit one layout only |
| `StorageLayout.RangesAreDisjoint` | slither/core/compilation_unit.py:316-342 | byte ranges are in order and do not overlap |
| `StorageLayout.NewSlotSharesNothing` | slither/core/compilation_unit.py:320-326 | a new-slot variable starts at offset 0 and shares none of its slots; no packed variable straddles a slot |
| `StorageLayout.AppendingMovesNothing` | slither/core/compilation_unit.py:314-342 | appending variables never moves earlier ones |
| `StorageLayout.AddressArrayIsShort` | slither/core/solidity_types/array_type.py:63-67 | three addresses are given two slots, the documentation says three |
| `StorageLayout.ArraySlotsExact` | slither/core/solidity_types/array_type.py:63-67 | for a given array the byte count is right if and only if the bytes, laid end to end, reach into the slot of the last element; it is never too large |
| `StorageLayout.DivisorsAreExact` | slither/core/solidity_types/array_type.py:63-67 | it is right for every length if and only if the element size divides the slot size |
| `LockstepCompare.IsFunctionModified` | slither/utils/upgradeability.py:318-352 | True if and only if the content hashes differ and the two walks, each defined on its own function, pop at some time nodes with different encoded operations |
| `LockstepCompare.StepDecreases` | slither/utils/upgradeability.py:339-344 | despite duplicate queue entries every pop visits a new node or brings the first unvisited entry forward |
| `LockstepCompare.AgreeSteps` | slither/utils/upgradeability.py:340-344 | the shared `visited` list does not mix up the two walks |
| `LockstepCompare.UnseenSelects` | slither/utils/upgradeability.py:343-344 | exactly the unvisited sons are queued, in order and as often as they are listed |
| `LockstepCompare.InvAlways` | slither/utils/upgradeability.py:336-344 | at every time sons of visited nodes are visited or queued |
| `LockstepCompare.DifferenceIsSymmetric` | slither/utils/upgradeability.py:339-352 | a corollary of the contract of `IsFunctionModified`: the answer is symmetric in the two functions |
| `LockstepCompare.RenamedIsUnmodified` | slither/utils/upgradeability.py:334-352 | functions that differ by a renaming of nodes, with the same order of sons and encoded operations, are never reported |
| `LockstepCompare.ReachableIsPopped` | slither/utils/upgradeability.py:336-344 | a walk on its own pops every node that can be reached from the entry |
| `LockstepCompare.IsomorphicIffPaired` | slither/utils/upgradeability.py:336-352 | two functions whose nodes are all reachable are the same up to the names of their nodes if and only if no popped pair differs, the walks run out at the same pop, and the pairing of popped nodes is one to one and carries the whole list of sons of each node to that of its partner |
| `LockstepCompare.UnreportedExact` | slither/utils/upgradeability.py:318-352 | the walk answers "the functions differ" correctly if and only if it reports a difference, or the walks run out together and the pairing respects the graphs |
| `LockstepCompare.AppendedCodeIsMissed` | slither/utils/upgradeability.py:339-352 | code appended after the last common node goes unreported |
| `LockstepCompare.BackEdgeIsMissed` | slither/utils/upgradeability.py:343-344 | so does a loop, whose back edge leads to a visited node |
| `IgnoreRanges.SlitherCore.ParseIgnoreComments` | slither/core/slither_core.py:374-414 | succeeds exactly on well-formed files and then records exactly the ranges of every check |
| `IgnoreRanges.SlitherCore.OpenRanges` | slither/core/slither_core.py:388-400 | a start comment opens one range per check, and fails if one is open already |
| `IgnoreRanges.SlitherCore.CloseRanges` | slither/core/slither_core.py:402-412 | an end comment closes the open range of each check, and fails if there is none |
| `IgnoreRanges.RangesMatchReplay` | slither/core/slither_core.py:376-414 | ranges are sorted, disjoint and open at most at the end, and cover exactly the lines at which a line-by-line replay has the check disabled |
| `IgnoreRanges.ContainedIffCoveredThroughout` | slither/core/slither_core.py:438-442 | strict containment in one range is coverage of every line from the one before the result to its last |
| `IgnoreRanges.ContainedIffDisabledThroughout` | slither/core/slither_core.py:438-442 | a range strictly contains lines a..b if and only if the check is disabled at every line from a-1 to b |
| `IgnoreRanges.SlitherCore.InIgnoredRange` | slither/core/slither_core.py:437-442 | true if and only if a range of the check or of "all" strictly contains the lines |
| `SourceMapLines.ExpandEntry` | slither/analyses/evm/convert.py:181-186 | undoes the compression rules against the preceding element; None exactly when no element fits |
| `SourceMapLines.DecompressionIsUnique` | slither/analyses/evm/convert.py:175-189 | a source map stands for one sequence of elements |
| `SourceMapLines.CompressRoundTrip` | slither/analyses/evm/convert.py:178-186 | leaving out all that the rules allow and expanding gives the element back |
| `SourceMapLines.GenerateMapping` | slither/analyses/evm/convert.py:163-203 | elements are decompressed against their predecessor even across skipped ones; each line holds its instructions in order and no line is empty; None exactly at the first entry that cannot be used |
| `SourceMapLines.ReadableMapsDoNotBreak` | slither/analyses/evm/convert.py:175-201 | a map that can be read to its end breaks nowhere, so the two outcomes exclude each other |
| `SourceMapLines.LineCountsNewlines` | slither/analyses/evm/convert.py:196 | a line number is one plus the number of positions before the offset that hold a newline |
| `SourceMapLines.PcsAreSelected` | slither/analyses/evm/convert.py:191-201 | the list of a line holds the instructions filed under it, each once and in instruction order |
| `SourceMapLines.FiledOnce` | slither/analyses/evm/convert.py:191-201 | an instruction that is not skipped is filed exactly once, under one plus the number of newlines before its offset |

## Left out

- WrittenVariables.FollowReferences: requires that chains of references end; on a cyclic chain the inner loop of the source does not.
- WrittenVariables.AreVariablesWritten: revert with a custom error is an ordinary operation, as in the source; variables are identified by number.
- TernaryTrees.PreservedIffAllAgree: whether a ternary agrees is a matter of values, so the condition speaks of the semantics; evaluation is a function of the components; side effects and the order of evaluation are not modelled.
- TernarySplit.SplitTernaryExpression.ConditionalNotAhead: the setter passed as `f` is inlined at its callers, which attach the copy after descending into it; the objects attached are the same. The unused `convert_index_access` is not modelled.
- DataDependency.ComputeDependencyContract: starts from the raw tables that `add_dependency` builds; the second pair of keys for unprotected functions repeats the same code, and contexts that were computed earlier are returned early.
- DataDependency.Context.ConvertToNonSsa: the assertion on the class of variables without versions is not modelled.
- InheritanceScheduler.RunAllPhases: what analysing one contract does is not modelled; contracts with missing inheritance enter with their flag already set.
- ArrayLowering.PushAppends: the semantics of the instructions (references are pointers, checked 256-bit arithmetic, bounds checks) is this model's; types, expressions and `points_to` are left out.
- CallSplice.PropagateTypeAndConvertCall: `extract_tmp_call` and `propagate_types` are parameters, assumed to depend on the instruction alone; `set_node` is left out.
- ValueGasFolding.IntegrateValueGas: requires that every temporary call has a result and that names are defined from names of lower rank; a cycle of replacements would keep an inner loop of the source running. The list `calls`, which the source fills and drops, is left out.
- StorageLayout.AssignPositions: requires distinct names and packed sizes from 1 to 32; sizes themselves are given, except for fixed-size arrays.
- LockstepCompare.IsomorphicIffPaired: about functions whose nodes are all reachable from their entry.
- StorageLayout.ArraySlotsExact: concerns elements of 1 to 32 bytes, not arrays of arrays or of structures.
- LockstepCompare.IsFunctionModified: hashes and the encoding of operations are parameters; both functions have an entry point and no node in common.
- IgnoreRanges.SlitherCore.ParseIgnoreComments: one file; lines are already classified, and check names are numbers. What the table holds after an error is not described.
- IgnoreRanges.SlitherCore.InIgnoredRange: results with several elements and the comment for the next line are left out.
- SourceMapLines.GenerateMapping: fields are already split at the colons and numbers parsed; the source text is a string of bytes.
- Recursion depth limits and the iteration order of dictionaries and sets.
- The detectors, printers, parsers, SSA construction, code metrics and the command line.
