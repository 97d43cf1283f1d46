# SudokuAI backtracking solver, modelled in Dafny

This project models `BTSolver`, the search engine of SudokuAI. The solver works on a constraint network. Each variable (one per Sudoku cell) has a domain of candidate values and possibly a committed value. Each constraint (one per row, column and box) requires that its assigned members hold different values. The solver runs a recursive backtracking search with pluggable strategies:

- three consistency checks: assignments only, forward checking, and Norvig-style propagation with naked-single inference;
- three variable selectors: first unassigned, minimum remaining values (MRV), and MRV with a degree tie-break;
- two value orderings: ascending, and least constraining value (LCV);
- a tournament slot for each kind of strategy.

The search records every change on a trail (an undo log split by markers), so each failed attempt can be rolled back.

Files:

- `domains.dfy` (module `Domains`): removing a value from a domain, and the insertion sort the value orderings use.
- `network.dfy` (module `ConstraintNetworks`): the part of the network the solver calls:
  - variable states;
  - neighbours, modelled as variables that share a constraint;
  - constraint consistency;
  - the modified-constraint frontier;
  - the propagation predicates: `Narrows`, `Justified` and `Settled`.
- `trail.dfy` (module `Trails`): the trail, its `Replay` semantics and the undo round-trip.
- `solver.dfy` (module `Search`): the class `BTSolver`, with every consistency check, selector, ordering, dispatcher and `solve`.

Modelling choices:

- Variables are the ids `0 .. size-1` in the network's enumeration order. A constraint is a sequence of ids.
- A `VarState` pairs the domain, kept as a sequence in its stored order, with an optional committed value.
- Loops that change the network are methods with loop invariants. `solve` is a recursive method whose termination measure is the number of unassigned variables.
- Each check is proved against state predicates:
  - every change lies around the marked variables: within any set of variables that holds the marks on entry and every member of each constraint it touches (`Around`);
  - every change is undoable from the trail (`Undoable`);
  - domains only shrink and values are never taken back (`Narrows`);
  - every pruned value is held by a neighbour (`Justified`);
  - an assigned variable whose value has left the domain of every neighbour is `Settled`; when a propagating check finishes, every member of a constraint that holds a variable marked modified on entry is settled, and so is every member of a constraint that holds a variable the check changed (for Norvig propagation, except where the change is still marked, and every variable still marked was unassigned on entry and is assigned on return);
  - the reported result is exactly the emptiness or consistency test.
- The two do-while fixpoint loops terminate because the total domain size shrinks on every pass that resets the counter.

## Model

| member | source | states |
|---|---|---|
| Domains.Remove | src/BTSolver.cpp:66 | removing a value from a domain: every copy of that value leaves it, every other value stays, the domain gets strictly smaller when the value was there, and a domain without the value is returned unchanged |
| Domains.RemoveMultiset | src/BTSolver.cpp:66 | removal keeps multiplicities: every other value keeps its number of copies and no copy of the removed value is left |
| Domains.RemoveConcat | src/BTSolver.cpp:66 | removal keeps the order of the values that stay: removing from a concatenation is removing from each part |
| Domains.SortByKey | src/BTSolver.cpp:342 | the sort used by both orderings: afterwards the values are a permutation of the input, each still carries its own key, and the keys are ascending |
| Domains.InsertDown | src/BTSolver.cpp:297 | one insertion step of that sort: an ascending prefix grows by one element, the values stay a permutation and keep their keys |
| Domains.SortedPermutationUnique | src/BTSolver.cpp:294-299 | two ascending permutations of the same values are equal, so the ascending ordering of a domain is fully determined |
| ConstraintNetworks.NeighborsFrom | src/BTSolver.cpp:60 | the neighbours of a variable are exactly the other variables that share a constraint with it, each listed once, in ascending id order |
| ConstraintNetworks.TotalSizeUpdate | src/BTSolver.cpp:65-67 | replacing one variable's state changes the total domain size by the change in that domain's size (the fixpoint's termination measure) |
| ConstraintNetworks.UnassignedMonotone | src/BTSolver.cpp:411 | a step that never un-assigns a variable never increases the number of unassigned variables |
| ConstraintNetworks.UnassignedDecreases | src/BTSolver.cpp:405-412 | assigning a previously unassigned variable while keeping every other assignment strictly decreases the number of unassigned variables (solve's recursion measure) |
| ConstraintNetworks.ShrinksTransitive | src/BTSolver.cpp:48-73 | narrowing one variable's state twice is a narrowing |
| ConstraintNetworks.NarrowsTransitive | src/BTSolver.cpp:401-412 | narrowing the network twice is a narrowing |
| ConstraintNetworks.PropagationComposes | src/BTSolver.cpp:48-73 | consecutive propagation steps compose: narrowing and the justification of every pruned value carry over to the whole run |
| ConstraintNetworks.SettledStable | src/BTSolver.cpp:55-70 | once an assigned variable's value has left every neighbour's domain, further narrowing that keeps its value keeps it so |
| ConstraintNetworks.SettledSetKept | src/BTSolver.cpp:53-72 | a step that changes at most one variable's value keeps every other variable already visited in the pass settled |
| ConstraintNetworks.RemovedFromStep | src/BTSolver.cpp:60-68 | removing the value from one more neighbour turns the elimination loop's expected state for the neighbours seen so far into the one for those plus that neighbour; a neighbour met twice loses nothing more |
| ConstraintNetworks.RemovedFromChanged | src/BTSolver.cpp:60-68 | after removing the value from the listed neighbours, exactly those that held it differ from before, so the variables the loop marks are exactly the ones it changed |
| ConstraintNetworks.PrunedFromMember | src/BTSolver.cpp:63-67 | a variable is among those the elimination loop marks exactly when it is listed and its domain held the value |
| ConstraintNetworks.PrunedFromStep | src/BTSolver.cpp:63-67 | checking one more neighbour adds it to the marks exactly when its domain still held the value; a neighbour met twice is not marked again for nothing |
| ConstraintNetworks.EliminationSound | src/BTSolver.cpp:58-70 | the state after the assigned value has left the domain of every variable sharing a constraint with it, and nothing else changed, narrows the network, keeps every value, has every removal justified by that assignment, and leaves the variable settled |
| ConstraintNetworks.MarkedByAssignmentTrans | src/BTSolver.cpp:115-160 | over consecutive narrowing steps, marks made only by assignments compose: each new mark is a variable unassigned at the start and assigned at the end |
| ConstraintNetworks.SettledConsistent | src/BTSolver.cpp:55-70 | at a propagation fixpoint (every variable settled, every assigned variable still holding its own value in its domain) every constraint is consistent |
| ConstraintNetworks.MarkedSettledCovers | src/BTSolver.cpp:53-70 | a variable marked modified is itself settled once every member of every constraint holding a marked variable is |
| ConstraintNetworks.PinnedKept | src/BTSolver.cpp:65-66 | narrowing that empties no domain keeps every assigned variable's domain exactly its value, as assignValue (line 408) leaves it |
| ConstraintNetworks.PruningSound | src/BTSolver.cpp:63-66 | a value pruned from an unassigned variable's domain by justified steps cannot be assigned there without making some constraint inconsistent |
| ConstraintNetworks.CompletionConsistent | src/BTSolver.cpp:24-31 | a state that some solution extends (every variable given a value of its domain, assigned variables keeping theirs, every constraint consistent) is itself consistent, so the assignments-only check accepts it |
| ConstraintNetworks.CompletionListed | src/BTSolver.cpp:399-400 | whatever solution extends the state, the value it gives a variable appears in any permutation of that variable's domain, so the value loop meets it |
| ConstraintNetworks.CompletionAssign | src/BTSolver.cpp:404-408 | assigning a variable the value a solution gives it keeps the state extended by that solution |
| ConstraintNetworks.AroundMonotone | src/BTSolver.cpp:53-72 | the variables around a set grow with the set |
| ConstraintNetworks.NeighbourAround | src/BTSolver.cpp:60 | every neighbour of a variable lies around it |
| ConstraintNetworks.FrontierAround | src/BTSolver.cpp:53-55 | the members of the constraints in a frontier taken from a set of marks lie around those marks |
| ConstraintNetworks.MembersListed | src/BTSolver.cpp:53-55 | the members of one constraint of the frontier are among the members of the frontier |
| ConstraintNetworks.MarksAroundStep | src/BTSolver.cpp:53-72 | marks added by consecutive steps stay around a set when each step's marks lie around a part of it |
| ConstraintNetworks.ConstraintNetwork.constructor | src/BTSolver.cpp:10 | the network built from the board: the given constraints, initial states and modified marks |
| ConstraintNetworks.ConstraintNetwork.RemoveValueFromDomain | src/BTSolver.cpp:66 | only the given variable's domain changes, losing exactly that value; the variable is marked modified |
| ConstraintNetworks.ConstraintNetwork.AssignValue | src/BTSolver.cpp:408 | the variable gets the value and its domain collapses to that value; nothing else changes; the variable is marked modified |
| ConstraintNetworks.ConstraintNetwork.Restore | src/BTSolver.cpp:419 | an undo puts back one recorded state and changes nothing else |
| ConstraintNetworks.ConstraintNetwork.GetModifiedConstraints | src/BTSolver.cpp:53 | returns exactly the constraints with a member modified since the last call, an empty frontier when no variable is marked, and clears the marks without changing any variable |
| Trails.Replay | src/BTSolver.cpp:419 | restoring a log of snapshots, newest first, keeps the number of variables |
| Trails.ReplayConcat | src/BTSolver.cpp:419 | restoring a concatenated log undoes its later part first, then its earlier part |
| Trails.UndoableRefl | src/BTSolver.cpp:404 | right after a marker nothing needs undoing |
| Trails.UndoableTrans | src/BTSolver.cpp:411 | two undoable segments in a row form one undoable segment |
| Trails.PushThenChange | src/BTSolver.cpp:65-66 | pushing a variable before changing it keeps the segment undoable back to its starting state |
| Trails.LastMarker | src/BTSolver.cpp:419 | the position of the last marker, with only snapshots after it, or -1 when there is none |
| Trails.UndoRestores | src/BTSolver.cpp:404-419 | after a marker and any number of push-then-change steps, undo returns both the log and every variable to their states at the marker |
| Trails.Trail.constructor | src/BTSolver.cpp:9 | the trail starts empty |
| Trails.Trail.PlaceTrailMarker | src/BTSolver.cpp:404 | appends one marker |
| Trails.Trail.Push | src/BTSolver.cpp:405 | appends a snapshot of the variable's current state |
| Trails.Trail.Undo | src/BTSolver.cpp:419 | cuts the log back to before the last marker and restores the popped snapshots, newest first |
| Search.MRVUnique | src/BTSolver.cpp:206-235 | the MRV choice as written (smallest domain, last among equals) is unique |
| Search.MRVDegreeUnique | src/BTSolver.cpp:237-276 | the degree tie-break choice is unique and has a smallest domain among the unassigned variables |
| Search.TieBreakerIgnoresDegree | src/BTSolver.cpp:262-269 | a concrete network where the as-written tie-breaker picks a variable in fewer constraints than an equally small one |
| Search.BTSolver.constructor | src/BTSolver.cpp:9-17 | stores the network, the trail and the three strategies; no solution yet |
| Search.BTSolver.GetFirstUnassignedVariable | src/BTSolver.cpp:191-199 | the first unassigned variable in enumeration order, or none exactly when all are assigned |
| Search.BTSolver.GetMRV | src/BTSolver.cpp:206-235 | an unassigned variable with a smallest domain, the last such in enumeration order, or none exactly when all are assigned; no other choice meets that description |
| Search.BTSolver.MRVWithTieBreakerAsWritten | src/BTSolver.cpp:244-276 | as written, the tie-breaker returns exactly getMRV's choice |
| Search.BTSolver.MRVWithTieBreakerSelect | src/BTSolver.cpp:237-276 | the corrected tie-breaker: smallest domain, then most constraints, then first in enumeration order; no other choice meets that order, and the choice has a smallest domain among the unassigned variables |
| Search.BTSolver.SelectNextVariable | src/BTSolver.cpp:437-449 | the configured selector's choice: the first unassigned variable, or, for MRV and for the tie-breaker as written, an unassigned variable with a smallest domain; any chosen variable is unassigned; outside the tournament slot, none is returned exactly when all are assigned; the tournament slot returns none |
| Search.BTSolver.AssignmentsCheck | src/BTSolver.cpp:24-31 | true exactly when every constraint is consistent |
| Search.BTSolver.AllDomainsNonEmpty | src/BTSolver.cpp:82-89 | true exactly when no variable's domain is empty |
| Search.BTSolver.EliminateFromNeighbours | src/BTSolver.cpp:58-70 | the new state is exactly the old one with the assigned value removed from the domain of every variable sharing a constraint with it, and nothing else changed; the variable ends settled; every removal is pushed first, justified and marked, and every new mark is such a neighbour; true exactly when something was removed (the total domain size then shrinks), and network, marks and trail are untouched otherwise |
| Search.BTSolver.PruneNeighbour | src/BTSolver.cpp:63-67 | one neighbour: it loses the assigned value exactly when its domain held it, and nothing else changes; a pruned neighbour is pushed first, so the change is undoable, and is marked modified, and the total domain size shrinks; otherwise network, marks and trail are untouched |
| Search.BTSolver.PruneNeighbours | src/BTSolver.cpp:60-69 | the loop over the listed neighbours: the new state is exactly the old one with the value removed from every listed neighbour; the new marks are exactly the listed neighbours that held the value; the trail can undo it all; a reported removal means the total domain size shrank, and without one network, marks and trail are untouched |
| Search.EliminationProgressStep | src/BTSolver.cpp:60-68 | one more neighbour check, undoable and marking the neighbour exactly when it held the value, extends the elimination loop's progress: the expected state, undoability, the exact marks and whether anything shrank |
| Search.EliminationProgressDone | src/BTSolver.cpp:60-69 | progress over every listed neighbour is the loop's outcome |
| Search.ForwardProgressStep | src/BTSolver.cpp:53-72 | forwardChecking's steps compose: narrowing, kept values, justification, undoability and marking carry over, marks stay around the whole frontier, and a change is reported when either step reported one |
| Search.NorvigProgressStep | src/BTSolver.cpp:115-160 | norvigCheck's steps compose in the same way, and marks made only by assignments stay so when neither step reported a change |
| Search.BTSolver.ForwardMembers | src/BTSolver.cpp:55-71 | forwardChecking's member loop over one constraint: every member joins the visited set, which stays settled; every changed variable is marked and every new mark shares a constraint with a member; it reports a change exactly when something was removed, and changes neither network, marks nor trail otherwise |
| Search.BTSolver.ForwardPass | src/BTSolver.cpp:53-72 | one pass of forwardChecking over the frontier: every member of every listed constraint is visited and settled, every changed variable is marked and every new mark shares a constraint with a frontier member; a pass that removes nothing, as every pass over an empty frontier, changes nothing |
| Search.PassCovers | src/BTSolver.cpp:53-72 | after a pass over the frontier taken from the marks, every member of every constraint holding a marked variable has been visited |
| Search.BTSolver.ForwardChecking | src/BTSolver.cpp:45-90 | reaches a fixpoint with no variable still marked modified, where every member of every constraint holding a variable marked on entry, or a variable the check narrowed, is settled (so is every member of the last frontier); every change lies within any set that holds the marks on entry and is closed under sharing a constraint, so with no marks on entry nothing changes; domains only shrink, values are kept, every pruned value is held by a neighbour, and the trail can undo it all; true exactly when no domain is empty |
| Search.BTSolver.IsAssignable | src/BTSolver.cpp:138-148 | true exactly when no neighbour's domain contains the value |
| Search.BTSolver.AssignIfUnique | src/BTSolver.cpp:136-157 | assigns the first value in the domain's stored order that no neighbour can take; only that variable changes and it is the only new mark; it assigns nothing and changes nothing exactly when every value is still admitted by some neighbour |
| Search.BTSolver.NorvigVisit | src/BTSolver.cpp:117-158 | one member visit of norvigCheck: for an assigned variable the new state is exactly the elimination of its value from its neighbours; for an unassigned one it is the first-unclaimed assignment when some value is unclaimed, and nothing changes otherwise; the visited set stays settled, the changes are undoable and justified, and every new mark is the variable or a neighbour; it reports a change exactly when the variable was assigned and a domain shrank, and a visit reporting none marked only the variable it assigned |
| Search.BTSolver.NorvigMembers | src/BTSolver.cpp:117-159 | norvigCheck's member loop over one constraint: every member joins the visited set, which stays settled, as does every variable it assigned; every changed variable is marked and every new mark shares a constraint with a member; a reported change means the total domain size shrank, and when none is reported every new mark is a variable it took from unassigned to assigned |
| Search.BTSolver.NorvigPass | src/BTSolver.cpp:115-160 | one pass of norvigCheck over the frontier: every member of every listed constraint is visited and settled, every variable assigned is settled, every changed variable is marked and every new mark shares a constraint with a frontier member; a reported change means the total domain size shrank, and when none is reported every new mark is a variable the pass took from unassigned to assigned; a pass over an empty frontier changes nothing |
| Search.BTSolver.NorvigCheck | src/BTSolver.cpp:107-173 | repeats passes until one reports no change, so on return every variable still marked was unassigned on entry and is now assigned; every member of every constraint holding a variable marked on entry is settled, as is every variable whose value changed and every member of the last frontier; the same holds for a constraint holding a variable the check changed unless that variable is still marked; every change lies within any set that holds the marks on entry and is closed under sharing a constraint, so with no marks on entry nothing changes; domains only narrow, every pruning is justified and the trail can undo it all; true exactly when no domain is empty |
| Search.BTSolver.CheckConsistency | src/BTSolver.cpp:423-435 | runs the configured check. Every check narrows undoably. The assignments-only check changes nothing and reports constraint consistency. The propagating checks report non-empty domains, leave settled every member of a constraint holding a variable marked on entry and every variable whose value they changed, and forward checking leaves no mark. The tournament slot reports failure and changes nothing. |
| Search.BTSolver.GetValuesInOrder | src/BTSolver.cpp:294-299 | a permutation of the domain in ascending order, and the only ascending arrangement of the domain |
| Search.BTSolver.CountNeighboursHolding | src/BTSolver.cpp:331-340 | the number of neighbours whose domain holds the value |
| Search.BTSolver.GetValuesLCVOrder | src/BTSolver.cpp:317-358 | a permutation of the domain in which the neighbour counts never decrease |
| Search.BTSolver.GetNextValues | src/BTSolver.cpp:451-460 | the configured ordering's values; the tournament slot returns none |
| Search.BTSolver.TryValue | src/BTSolver.cpp:404-411 | places a marker, pushes and assigns the value, then runs the check; the result is undoable back to the marker, narrows, keeps the new value and strictly reduces the number of unassigned variables. Under the assignments-only check the new state is exactly the old one with the variable assigned, and the result is true exactly when every constraint is consistent. Under the propagating checks the assigned variable ends settled, every variable settled before stays settled, and the result is true exactly when no domain is empty. |
| Search.BTSolver.Finish | src/BTSolver.cpp:383-397 | solve's base case: success exactly when every variable is assigned, "Error" exactly when one is not |
| Search.BTSolver.Backtrack | src/BTSolver.cpp:418-419 | undo after a failed attempt returns the variable states and the trail log to their states before the attempt's marker |
| Search.BTSolver.Attempt | src/BTSolver.cpp:401-420 | one pass of the value loop: on failure the variable states and the trail log are exactly as before; on success every variable is assigned, narrowed from the start, and consistent as for solve; under the assignments-only check with a real selector and ordering, success is recorded whenever some solution extends the state with this value |
| Search.BTSolver.Solve | src/BTSolver.cpp:375-421 | on failure the variable states and the trail log are exactly as before. On success every variable is assigned, narrowed from the start state. A board already complete is recorded solved and left unchanged. Under the assignments-only check with a real selector and ordering, success is recorded whenever some solution extends the start state (the search is complete). Under the assignments-only check the result is consistent; under forward checking or Norvig propagation it is consistent when the search starts from a settled network whose assigned domains are their values. An already-found solution is left alone. "Error" is raised by the tournament selector exactly when a variable is unassigned, and then no solution is recorded. |

## Left out

- The board conversion in the constructor and the solution read-back (`getSolution`, `getNetwork`, `sudokuGrid`) are not modelled. The network, its constraints and its initial modified marks are constructor parameters.
- The `Variable`, `Domain`, `Constraint`, `ConstraintNetwork` and `Trail` classes are not part of this model beyond the operations the solver calls:
  - a variable is assigned when it has a committed value, not when its domain has one element;
  - `assignValue` sets the domain to that single value;
  - undo restores a state without marking the variable modified;
  - the modified flags are kept as a set of variable ids.
- The printing of "Error" is modelled as the flag `errorReported`. The commented-out debugging prints are left out.
- String comparison of strategy names is replaced by enumerations. An unknown name falls back to the default in the source, and that fallback is the default constructor of each enumeration.
- Pointer identity of variables and constraints is replaced by integer ids. The iteration order of `getVariables`, `getNeighborsOfVariable` and `getModifiedConstraints` is taken to be ascending id order. The order of a domain's values is its stored order.
- `std::sort` is not stable. The model sorts by insertion, and the LCV contract allows any order among values with equal counts.
- Machine integers are modelled as unbounded integers. The counts and sizes involved are far below any overflow.
- `MRVWithTieBreakerSelect` keeps the first variable among full ties (equal domain size and equal degree). The as-written behaviour keeps the last variable among equal domain sizes. `SelectNextVariable` dispatches to the as-written tie-breaker, as the source does; the corrected one is proved on its own and not wired into the search.
- Search.BTSolver.Solve: with forward checking or Norvig propagation, consistency of a solution is stated only for a search that starts settled with pinned assigned domains. The checks settle only the constraints around modified variables, so from any other start the result depends on the initial modified marks, which the board conversion (not modelled) sets. A board already complete when solving starts is reported solved without any check, as the source does.
- Search.BTSolver.Solve: that the search finds a solution whenever one exists is stated only under the assignments-only check with a real selector and ordering. Under forward checking and Norvig propagation it is not stated, because that needs every pruning to spare every solution, which `PruningSound` states for one pruned value but `Solve` does not carry. The tournament slots select no variable or try no value, so they find nothing.
- Search.BTSolver.Backtrack: undo restores the variable states and the trail log but not the modified marks. Marks set during a failed branch stay set and widen the frontier of the next check; neither Backtrack nor Solve says anything about the marks after a failure.
- Search.BTSolver.NorvigCheck: an assignment made by the naked-single inference does not reset `numChanges` (lines 151-156), so the last pass's assignments stay marked and their constraints are not revisited before the check returns. The contract states that every variable still marked was unassigned on entry and is assigned on return, without saying which pass assigned it, and excludes those variables from the settled-constraint promise; the variables themselves are settled.
- Search.BTSolver.AssignIfUnique: the inference tests whether any neighbour, in any constraint, admits the value, as the source does. It does not test the per-unit "only one place" rule that the comment at line 150 describes.

## Findings

| source | as written | input that shows it | evidently intended | confidence | as-written member | corrected member |
|---|---|---|---|---|---|---|
| src/BTSolver.cpp:253-269 | `max_constraints` is recomputed on every replacement but never compared, so the tie-breaker returns getMRV's choice: the last variable with the smallest domain | two unassigned variables with domains {1,2}; constraints [[0,1],[0]]; variable 0 is in two constraints, variable 1 in one; the tie-breaker picks variable 1 | among variables with the smallest domain, choose the one in the most constraints (the header comment at lines 237-242) | high; not executed | Search.BTSolver.MRVWithTieBreakerAsWritten, Search.TieBreakerIgnoresDegree | Search.BTSolver.MRVWithTieBreakerSelect |
