# Verified model of the Congress Datalog engine

A Dafny model of the Datalog engine of OpenStack Congress (`congress/datalog`) and of two of its
data source components, with proofs that they compute what their declarative meaning says.
`dafny verify dfyconfig.toml` checks everything.

## What is modelled

**Meaning** (`Syntax`, `Semantics`, `Safety`). Rules of several theories, with negation and builtins, define truth by
recursion on a rank that shows the program nonrecursive. That truth is the only interpretation in which an atom is true
exactly if a rule derives it, so the rank is a proof device and not an input.

**Query evaluation** (`Unify`, `SearchSpec`, `SearchStack`, `SearchState`, `TopDown`, `Query`, `Reorder`). Unifiers are
objects that bind variables in place and refer to each other; together they form a union-find forest over pairs of a
variable and a unifier. The search is a set of mutually recursive methods over contexts whose literal index moves forward
and back, over a caller that collects results, and over these unifiers. Each method states which assignments it
delivers, and that it leaves everything else as it found it. `Query.TopDownEvaluation` states the result in terms of the program's model only.

**Incremental view maintenance** (`Database`, `Views`, `StoredProgram`, `DeltaRules`, `Trigger`, `Propagation`, `SelfJoin`,
`SelfJoinMeaning`, `SortedBodies`, `EliminatedRules`, `Materialized`, `MaterializedMeaning`). Rows carry the proofs
that derive them. The invariant speaks about the future: the stored proofs *once all pending events have been applied in order* are exactly those that the
current rows and rules justify. Each kind of event keeps it; the queue drains because events only give rise to
events of higher rank. Evaluation of delta rules is the top-down search above, over the stored rows. At the end
the database equals evaluation from scratch, also for rules as users write them, before self-joins are rewritten away.
Rules count as equal whatever the order of their bodies: the theory keeps them sorted, by any total order.

The maintained rules are positive, without builtins, nonrecursive, and every view that other rules use has one
rule whose head contains all its variables (`Views.Setting`). Without the last condition the code can be wrong, since
`propagate` runs before and regardless of `is_noop`: `Views.DeleteIsExact` says exactly when a delete is processed
rightly, and `Views.TwoProofs` is an example,
reached from empty tables by a run of user events, where it is not. Deleting a rule also deletes the definitions of new tables
that other rules share with it; `EliminatedRules.RepresentsDelete` says exactly when that does harm.

**Rule analysis** (`Walks`, `Stratify`, `Graph`, `SharedCounts`, `ModalIndexes`, `DependencyChanges`, `DependencyEvents`,
`Dependencies`, `SchemaChanges`, `RuleTheory`, `Recursion`).
Stratification, depth first search, reference-counted dependencies and reference-counted schemas, each against a
declarative specification. `Recursion` ties the dependency graph to evaluation: rules that the check for cycles lets pass
are nonrecursive, so they have exactly one model. Where undoing in forward order does not restore the state there is
a concrete example and the exact condition under which it does. The index of modals holds dictionaries that change records
may hold too, so that undoing can take a dictionary away from itself; `SharedCounts` follows that sharing.

**Collections** (`OrderedSet`, `FactSet`, `RuleLists`, `RuleSet`). The circular linked list with its map refines a sequence without
repetitions; indexes agree with scanning, through any sequence of operations.

**Linear programs** (`Lp`, `LpFlatten`, `LpIndicator`). Flattening with fresh variables, products and sums for
conjunctions and disjunctions, and indicator constraints, each with the side conditions under which it is exact.

**Data sources** (`Translators`, `ConvertedRows`, `DeterminedRows`, `Conversion`, `Closure`). The schema and the rows of a recursive translator agree:
`ConvertedRows` says which rows there are by the names of columns, `DeterminedRows` that this leaves nothing open but their order; the
transitive closure is the least transitive relation that contains its input.

The unifiers, contexts, rows, queues, counters and links that the original updates in place are fields of classes
here. Ghost parameters (`registry`, `chain`, `frames`, `setting`) describe the objects that exist, the stack of contexts and the maintained
rules; they carry no information that the code uses.

## Where code and documentation differ

The model follows the code in each case.

- `has_cycle` (utility.py:239-246) promises a cached answer, but any reachability query leaves an empty cycle set behind (utility.py:169-173), so `HasCycle` states its result for unknown cycles and for recorded ones separately, and `HasCycleAfterSearch` that it is then always no.
- The dependency graph drops the modal of a head (compile.py:1417-1423), so a rule such as `execute[p(x)] :- p(x)` counts as recursive although nothing reads `execute[p]`.
- `create_index` (factset.py:81-96) creates no index while there are no facts.
- A rule without a body whose head is negated is added to the rules (ruleset.py:64-70), but looked up and removed among the facts (ruleset.py:87-95, 120-124): `RuleSet.AddedIsFound`.
- `upper_bound` promises an upper bound (arithmetic_solvers.py:355-361); `WithinBounds` is sufficient for that, and `BoundIsExceeded` shows a value above the bound.
- `undo_changes` promises to reverse changes (compile.py:1349-1372). `DependencyEvents.UndoIsExact` says for which batches it does so for nodes and edges, `DependencyEvents.ModalUndoIsExact` for modals. `+=` on a modal index makes the record's own dictionary that of the index (analysis.py:71-75), and undoing an insert then subtracts that dictionary from itself. The only caller drops deletes of formulas that are not stored (agnostic.py:1217); for its batches nodes and edges come back, and modals may be lost (`Dependencies.ModalIsLost`).
- `arith_to_lt_zero` promises an equivalent expression (arithmetic_solvers.py:316-321); it is one outside the gap below the threshold only.
- `remove_and_or` promises an equivalent expression (arithmetic_solvers.py:233-243); for alternatives that are both true it is not.
- The documentation of VDICT says that a subtranslator's parent key must be the value column (datasource_driver.py:211-213); the code passes the key column (datasource_driver.py:945-946).
- A LIST of nested translators with an id column raises on an empty list, since the id is computed from the last element (datasource_driver.py:886-887): `Conversion.EmptyListRaises`.

## Model

| member | source | states |
|---|---|---|
| Unify.BindKeepsAcyclic | congress/datalog/unify.py:94-98 | binding an unbound node to a constant or to another unbound node keeps the bindings of all unifiers an acyclic forest |
| Unify.RootAfterBind | congress/datalog/unify.py:113-143 | after a binding exactly the variables that used to resolve to that node resolve to its new image |
| Unify.SolutionFactorsThroughRoot | congress/datalog/unify.py:113-143 | every assignment that agrees with the bindings factors through what terms resolve to: the bindings are most general |
| Unify.RootsSatisfy | congress/datalog/unify.py:113-143 | resolving every variable is itself an assignment that agrees with the bindings |
| Unify.BiUnifier.Add | congress/datalog/unify.py:94-98 | adds one binding to one unifier, changes no other, keeps the forest acyclic and returns the undo record |
| Unify.BiUnifier.Delete | congress/datalog/unify.py:100-102 | removes one binding, or nothing if it is not there |
| Unify.BiUnifier.ApplyFull | congress/datalog/unify.py:113-143 | terminates and returns the root of the term: a constant, or an unbound variable and the unifier it lives in |
| Unify.UndoneAppend | congress/datalog/unify.py:187-195 | undoing two logs in the order in which they were made equals undoing the later one first |
| Unify.UndoAll | congress/datalog/unify.py:187-195 | brings all unifiers back to the contents they had before the recorded changes |
| Unify.UnifyTerms | congress/datalog/unify.py:228-268 | one round: fails exactly on two different constants, else leaves exactly the solutions that make the two terms equal |
| Unify.BiUnifyLists | congress/datalog/unify.py:228-268 | succeeds iff some assignment unifies the lists; then the solutions are exactly the unifying ones and the log takes everything back; on failure all unifiers are as before |
| Unify.BiUnifyAtoms | congress/datalog/unify.py:210-225 | the same for atoms, whose tables must agree with the theory as default service |
| Unify.TablesAgree | congress/datalog/unify.py:210-225 | tables agree iff names and modals do, and services once a missing one stands for the theory |
| Unify.NewBiUnifier | congress/datalog/topdown.py:555-557 | a new, empty unifier; the others are unchanged |
| Semantics.HoldsIsAModel | doc/source/user/policy.rst:281-297 | the truth defined by recursion on ranks is a model: an atom is true iff a rule derives it |
| Semantics.ModelIsUnique | doc/source/user/policy.rst:281-297 | a nonrecursive program has exactly one model, whatever ranks witness that it is nonrecursive |
| Semantics.UpdateIsTrue | congress/datalog/topdown.py:327-335 | a table s:t+ or s:t- without a modal is looked up where the literal is: it is true iff a rule kept by that theory, with that head, derives it |
| Semantics.ForeignIsTrue | congress/datalog/topdown.py:327-335 | a table of another theory s whose name ends otherwise is true iff a rule kept by s derives it |
| Semantics.LocalsStay | congress/datalog/topdown.py:327-335 | tables without a theory, and those with a modal, are looked up where the literal is |
| Semantics.TrueAndFalse | congress/datalog/topdown.py:320-326 | the tables true and false mean what they say |
| Semantics.BuiltinIsTrue | congress/datalog/topdown.py:337-417 | a builtin with these inputs and outputs is true iff its code answers those outputs, or answers at all where it has none |
| MaterializedMeaning.SameRulesSameModel | doc/source/user/policy.rst:289-297 | neither the order of rules, nor that of their bodies, nor the choice of ranks matters |
| Recursion.AcyclicIsNonrecursive | congress/policy_engines/agnostic.py:1227-1240 | rules of any number of theories that pass the checks on modals and heads, and whose dependency graph has no cycle, are nonrecursive: the guard before an update establishes what evaluation needs |
| Recursion.AcceptedRulesHaveOneModel | doc/source/user/policy.rst:345-350 | rules that pass the checks have a model, and only one |
| Recursion.GraphOfProgram | congress/datalog/compile.py:1314-1347 | a graph that counts what the rules of all theories contribute has exactly the edges that are searched for cycles |
| Recursion.NonrecursiveIsAcyclic | congress/policy_engines/agnostic.py:1227-1240 | nonrecursive rules have no cycle among tables, modals in heads left aside |
| Recursion.RecursionIsCycleOfTables | congress/datalog/compile.py:1249-1258 | rules are recursive under all ranks iff there is a cycle among tables |
| Recursion.CheckIsExact | congress/datalog/compile.py:1249-1258 | for all rules that pass the other checks, modal heads included: the check passes iff some ranks make the rules with their modals erased nonrecursive |
| Recursion.RejectedWithoutNeed | congress/datalog/compile.py:1395-1435 | what is rejected without need are exactly the rules all of whose cycles go through a modal head |
| Recursion.CheckIsExactForTables | congress/datalog/compile.py:1249-1258 | without modals nothing is rejected without need |
| Recursion.ModalLooksRecursive | congress/datalog/compile.py:1395-1435 | such a rule: execute[p(x)] :- p(x) |
| TopDown.Plug | congress/datalog/topdown.py:337-417 | the literal with all bindings applied as far as they go |
| TopDown.Flatten | congress/datalog/topdown.py:485-523 | the answer recorded: each variable of the caller with what it is bound to |
| TopDown.Backtrack | congress/datalog/topdown.py:451-483 | after undoing, the unifiers, contexts and results are as the specification of the caller demands |
| TopDown.TopDownFinish | congress/datalog/topdown.py:485-523 | delivers exactly the ways to prove what remains of all contexts; restores index and unifiers |
| TopDown.TopDownNext | congress/datalog/topdown.py:485-523 | moves the literal index forward for the rest of the search and back again |
| TopDown.TopDownEval | congress/datalog/topdown.py:266-335 | delivers exactly the solutions of the current literal and of everything after it (all of them, or one if one exists); every unifier, every literal index and all earlier results are as on entry |
| TopDown.TopDownNegation | congress/datalog/topdown.py:266-335 | negation as failure: continues exactly if the complement has no proof |
| TopDown.TopDownComplement | congress/datalog/topdown.py:266-335 | a separate caller finds one proof of the complement iff there is one; nothing is left bound |
| TopDown.TopDownBuiltin | congress/datalog/topdown.py:337-417 | evaluates a builtin on its inputs and delivers exactly the solutions in which it is true |
| TopDown.TopDownOutputs | congress/datalog/topdown.py:337-417 | unifies the outputs of a builtin with the remaining arguments |
| TopDown.TopDownModule | congress/datalog/topdown.py:419-429 | a literal that names another theory is evaluated there; an unknown theory proves nothing |
| TopDown.TopDownTheory | congress/datalog/topdown.py:451-483 | tries the rules of the head index in order and delivers exactly what the table derives |
| TopDown.TopDownRule | congress/datalog/topdown.py:451-483 | one rule: unifies its head in a unifier of its own, proves the body, undoes |
| TopDown.TopDownBody | congress/datalog/topdown.py:451-483 | a fact leads on at once, a rule opens a context for its body |
| SearchState.OmittedProvesNothing | congress/datalog/ruleset.py:128-168 | the facts that an index lookup leaves out cannot prove the literal |
| SearchState.CandidateSolutions | congress/datalog/topdown.py:451-483 | the candidates of the head index have together all the solutions of the literal |
| SearchState.NegationDelivers | congress/datalog/topdown.py:266-335 | what the search for the complement finds decides which assignments solve the negated literal |
| SearchState.BuiltinSolutions | congress/datalog/topdown.py:337-417 | with its inputs bound, a builtin is true exactly if its outputs are those the code computes |
| SearchSpec.RuleApplies | congress/datalog/topdown.py:451-483 | after unifying a head in a fresh unifier the solutions of the body are those of the rule |
| Query.QuerySolutionsAreSatisfied | congress/datalog/topdown.py:217-261 | assignments that solve the initial context are exactly the valuations that make the query true |
| Query.AnswersAreInstances | congress/datalog/topdown.py:217-261 | ground answers are exactly the true instances of the query, or one of them if only one is asked for |
| Query.TopDownEvaluation | congress/datalog/topdown.py:217-261 | soundness and completeness: find-all returns exactly the bindings true in the model of the program, find-first returns one iff there is one; the search terminates |
| Reorder.ReorderForSafety | congress/datalog/compile.py:1518-1576 | for a positive head, answers iff in some permutation every variable of a negated literal, and every variable among the inputs of a builtin, occurs in an earlier literal; the answer is such a permutation, the one that takes the first literal that is ready again and again, and the rule itself if it was one already |
| Safety.SafeIsBoundInTime | congress/datalog/compile.py:1518-1576 | what the evaluator requires of a body, in terms of arguments and positions |
| Reorder.MakeSafePlus | congress/datalog/compile.py:1518-1576 | moving literals whose variables have become safe, until nothing more can be moved |
| Reorder.LeftoversCannotBeMadeSafe | congress/datalog/compile.py:1518-1576 | greedy completeness: if literals are left over, no order of the body is safe |
| Reorder.ReorderingKeepsMeaning | congress/datalog/compile.py:1518-1576 | a body is true in one order iff it is in the other |
| Reorder.ReorderedRuleIsSafe | congress/datalog/compile.py:1612-1632 | a reordered rule with a safe head satisfies what top-down evaluation needs |
| Database.Database.Find | congress/datalog/database.py:234-250 | the position of a row, or none |
| Database.Database.IsNoopEvent | congress/datalog/database.py:234-250 | an insert is a no-op iff all its proofs are stored, a delete iff not all of them are |
| Database.Database.Modify | congress/datalog/database.py:337-353 | the contents become exactly those after the change; answers whether anything changed |
| Database.Database.InsertActual | congress/datalog/database.py:355-375 | adds a row or merges the new proofs into it |
| Database.Database.DeleteActual | congress/datalog/database.py:377-393 | removes proofs, and the row when none is left |
| Database.Database.Merge | congress/datalog/database.py:73-81 | the union of the proofs |
| Database.Database.Remaining | congress/datalog/database.py:62-71 | the difference of the proofs |
| SortedBodies.SameRuleSorted | congress/datalog/compile.py:1008-1013 | two rules are equal, the order of their bodies aside, iff their sorted forms are the same |
| DeltaRules.DeltaRuleTheory.Insert | congress/datalog/materialized.py:115-130 | files the delta rules of a rule unless an equal one is there, its body in whatever order; answers whether it was new |
| DeltaRules.DeltaRuleTheory.Delete | congress/datalog/materialized.py:153-165 | removes exactly the delta rules of the equal rule that is there, if one is |
| DeltaRules.NoSelfJoinReordered | congress/datalog/materialized.py:222-280 | the order of a body does not matter for self-joins |
| DeltaRules.DeltaRuleTheory.InsertDelta | congress/datalog/materialized.py:132-151 | files one delta rule under its trigger, once |
| DeltaRules.DeltaRuleTheory.DeleteDelta | congress/datalog/materialized.py:167-185 | removes one delta rule, and its list when that gets empty |
| DeltaRules.DeltaRuleTheory.RulesWithTrigger | congress/datalog/materialized.py:202-207 | exactly the delta rules of the inserted rules whose trigger is of the table, each once |
| DeltaRules.DeltasOfMembers | congress/datalog/materialized.py:283-304 | one delta rule for each literal of a body |
| DeltaRules.DeltasAreDistinct | congress/datalog/materialized.py:283-304 | a rule without self-joins has as many different delta rules as literals |
| Trigger.MatchTrigger | congress/datalog/materialized.py:528-563 | unification of trigger and row finds the bindings under which the trigger denotes the row, or none if there are none |
| Propagation.Solutions | congress/datalog/materialized.py:528-563 | evaluation over the stored rows finds exactly the bindings that make all literals stored rows |
| Propagation.GroupByFact | congress/datalog/materialized.py:565-591 | one event for each row produced, carrying exactly the proofs that produce it |
| Propagation.DeltaProofIsTriggered | congress/datalog/materialized.py:283-304 | a delta rule gives exactly the proofs in which its literal is the changed row |
| Propagation.DeltaProofsAreDistinct | congress/datalog/materialized.py:515-526 | no proof comes from two delta rules |
| Views.FutureAppend | congress/datalog/materialized.py:487-513 | applying a queue in two parts |
| Views.JustifiedAfterInsert | congress/datalog/materialized.py:515-526 | what an inserted row newly justifies is exactly what it triggers |
| Views.JustifiedAfterDelete | congress/datalog/materialized.py:515-526 | what a deleted row no longer justifies is exactly what it triggers |
| Views.ChangeStep | congress/datalog/materialized.py:487-513 | propagating and then applying one change keeps the invariant: stored proofs with all pending events applied are exactly the justified ones |
| Views.DeleteIsExact | congress/datalog/materialized.py:508-510 | whatever proofs rows have: processing a delete keeps that agreement iff the row is absent, or exactly its stored proofs are deleted, or nothing is derived from it |
| Views.TwoProofs.LoseTooMuch | congress/datalog/materialized.py:508-510 | deleting one of two proofs of p(a) breaks it where a rule uses p |
| Views.TwoProofs.ReachesFilled | congress/datalog/materialized.py:487-513 | inserting the rules and facts of that example and processing all events fills the tables as the rules demand |
| Views.TwoProofs.FilledIsConsistent | congress/datalog/materialized.py:487-513 | there the stored proofs are exactly the justified ones |
| Views.TwoProofs.EndsWithoutView | congress/datalog/materialized.py:487-513 | deleting q(a) from there reaches that state and drains the queue without r(a), though p(a) is stored and justifies it |
| Views.ReachesKeepsInvariant | congress/datalog/materialized.py:487-513 | in a valid setting any number of the same steps keeps the invariant |
| Views.TwoProofs.OnlySingleProofsFail | congress/datalog/materialized.py:508-510 | in that example only the condition on single proofs fails |
| Views.RuleStep | congress/datalog/materialized.py:487-513 | so does inserting or deleting a rule with the events its evaluation gives |
| Views.PropagatedLevels | congress/datalog/materialized.py:515-526 | every event that follows from a change concerns a table of higher rank |
| Views.EnqueueKeepsInvariant | congress/datalog/materialized.py:452-485 | changes of base rows, and rules, may be enqueued at any time |
| Views.DrainedIsJustified | congress/datalog/materialized.py:487-513 | with an empty queue a view row is stored iff it is justified, with exactly its justified proofs |
| StoredProgram.StoredRowHolds | congress/datalog/database.py:281-294 | a row is true over the stored rows iff it is stored |
| StoredProgram.DrainedEqualsFromScratch | congress/datalog/materialized.py:487-513 | with an empty queue the stored rows are exactly what the rules make true over the base rows |
| Materialized.MaterializedViewTheory.PropagateRule | congress/datalog/materialized.py:528-563 | enqueues exactly the proofs that a changed row gives with one delta rule |
| Materialized.MaterializedViewTheory.Propagate | congress/datalog/materialized.py:515-526 | enqueues exactly the proofs that a changed row triggers, none twice |
| Materialized.MaterializedViewTheory.ProcessNewBindings | congress/datalog/materialized.py:565-591 | enqueues one event for each distinct row that the bindings produce |
| Materialized.MaterializedViewTheory.ProcessRule | congress/datalog/materialized.py:487-513 | inserts or deletes a rule, enqueues what it justifies, keeps the invariant |
| Materialized.MaterializedViewTheory.ProcessChange | congress/datalog/materialized.py:487-513 | propagates a change before applying it, keeps the invariant |
| Materialized.MaterializedViewTheory.ProcessQueue | congress/datalog/materialized.py:487-513 | terminates with an empty queue; base rows and rules are those the events make; the stored rows equal evaluation from scratch; replaying the returned history gives the new contents and rules, and each event in it changes something |
| Materialized.MaterializedViewTheory.EnqueueAny | congress/datalog/materialized.py:452-485 | enqueues a change of a base row, or the sorted rules that self-join elimination makes of a rule |
| Materialized.MaterializedViewTheory.Update | congress/datalog/materialized.py:363-373 | enqueues all events and processes them, with the result of ProcessQueue; after a safe batch the rules kept are what the rules that users then have need |
| EliminatedRules.NewTablesUsed | congress/datalog/materialized.py:222-280 | a rewritten body uses exactly the new tables that its repeated tables call for |
| EliminatedRules.RepresentsInsert | congress/datalog/materialized.py:477-480 | the rules made of users' rules one by one are together those made of the whole list |
| EliminatedRules.RepresentsDelete | congress/datalog/materialized.py:477-480 | deleting what was made of one rule leaves what the others need iff they share no new table with it |
| EliminatedRules.SharedTableIsLost | congress/datalog/materialized.py:477-480 | two rules with the same self-join: deleting one takes the new table away from the other |
| Materialized.BatchRepresents | congress/datalog/materialized.py:363-373 | the same for whole batches of inserts and deletes of rules and rows |
| MaterializedMeaning.DrainedMeansUserRules | congress/datalog/materialized.py:452-513 | after draining, a user table holds exactly what the rules as written, self-joins included, make true, whenever the rules kept are what those rules need |
| MaterializedMeaning.UpdateMeansUserRules | congress/datalog/materialized.py:363-373 | end to end: so it does after Update, for the rules that users have inserted and not deleted |
| Names.NewTableNameIsInjective | congress/datalog/materialized.py:230-231 | generated names of different tables, arities or counters differ |
| Names.NewTableNameIs | congress/datalog/materialized.py:230-231 | generated names: three underscores, the table, its arity and the counter in decimal |
| SelfJoin.RenameBody | congress/datalog/materialized.py:246-268 | renames the second and later occurrences in one body and keeps the counters |
| SelfJoin.EliminateSelfJoins | congress/datalog/materialized.py:223-280 | the rewritten rules, followed by exactly one copy rule for each new table that they need |
| SelfJoin.RewrittenHasNoSelfJoin | congress/datalog/materialized.py:246-268 | no table and arity occurs twice in a rewritten body |
| SelfJoin.RenamedIsDefined | congress/datalog/materialized.py:270-280 | every new table that is used is defined |
| SelfJoinMeaning.RewrittenIsNonrecursive | congress/datalog/materialized.py:223-280 | the rewritten program is nonrecursive if the original is |
| SelfJoinMeaning.EliminationKeepsMeaning | congress/datalog/materialized.py:223-280 | the model on user tables is unchanged, and every new table equals the one it copies |
| Walks.LongWalkHasCycle | congress/datalog/utility.py:202-228 | a walk that crosses as many labelled edges as there are nodes closes a cycle through one |
| Walks.StrataForbidCycles | congress/datalog/utility.py:202-228 | a graph with a stratification has no cycle through a labelled edge |
| Stratify.Raise | congress/datalog/utility.py:202-228 | one update; gives up only if a labelled cycle forces it |
| Stratify.Pass | congress/datalog/utility.py:202-228 | one pass over all edges; if nothing changes all constraints hold |
| Stratify.Stratification | congress/datalog/utility.py:202-228 | terminates; None iff some cycle contains a labelled edge; else the pointwise least stratification, with at most as many strata as nodes |
| Graph.Graph.Dfs | congress/datalog/utility.py:181-200 | sees all that the node reaches and was not seen before, with begin and end times; records genuine simple cycles through the target, at least one if an edge leads back to it |
| Graph.Graph.DepthFirstSearch | congress/datalog/utility.py:148-159 | afterwards exactly what the roots reach has been seen; forgets the known cycles |
| Graph.Graph.FindReachableNodes | congress/datalog/utility.py:313-320 | exactly the nodes reachable from the roots; what was known of cycles is lost |
| Graph.Graph.InvertedEdgeGraph | congress/datalog/utility.py:288-299 | a graph with every edge turned round |
| Graph.Graph.FindDependentNodes | congress/datalog/utility.py:301-311 | exactly the nodes with a path to one of the given nodes, and those themselves |
| Graph.Graph.EnumerateCycles | congress/datalog/utility.py:161-167 | every reported cycle is a genuine simple cycle; a node is on some cycle iff it is on a reported one |
| Graph.Graph.HasCycle | congress/datalog/utility.py:239-246 | if the cycles are not known: true iff some node reaches itself; else what is recorded |
| Graph.Graph.HasCycleAfterSearch | congress/datalog/utility.py:169-173 | after a search for reachable nodes the answer is no, so it is right iff the graph has no cycle |
| OrderedSet.InsertBeforeEnd | congress/datalog/utility.py:463-469 | links a new last element into the ring |
| OrderedSet.Unlink | congress/datalog/utility.py:471-477 | takes a link out of the ring |
| OrderedSet.OrderedSet.Add | congress/datalog/utility.py:463-469 | appends the key iff it is absent |
| OrderedSet.OrderedSet.Discard | congress/datalog/utility.py:471-477 | removes the key iff it is present and keeps the order of the rest |
| OrderedSet.OrderedSet.Iterate | congress/datalog/utility.py:479-484 | the keys in insertion order |
| OrderedSet.OrderedSet.IterateReversed | congress/datalog/utility.py:486-491 | the same keys reversed |
| OrderedSet.OrderedSet.Pop | congress/datalog/utility.py:493-498 | removes and returns the last or the first key |
| OrderedSet.OrderedSet.Equals | congress/datalog/utility.py:505-509 | equal iff the same keys in the same order |
| OrderedSet.OrderedSet.Contains | congress/datalog/utility.py:460-461 | the map knows exactly the linked keys |
| FactSet.AddToIndex | congress/datalog/factset.py:157-165 | an index that agrees with the facts agrees with one fact more |
| FactSet.RemoveFromIndex | congress/datalog/factset.py:167-171 | ... and with one fact less, without empty entries |
| FactSet.FitsByKey | congress/datalog/factset.py:153-155 | a fact fits a partial fact iff its key in those columns is the one asked for |
| FactSet.FactSet.Add | congress/datalog/factset.py:46-62 | adds the fact iff it is absent; all indexes still agree with the facts |
| FactSet.FactSet.Remove | congress/datalog/factset.py:64-79 | removes the fact iff it is present; all indexes still agree |
| FactSet.FactSet.CreateIndex | congress/datalog/factset.py:81-96 | adds an index, but none while there are no facts; changes no facts |
| FactSet.FactSet.RemoveIndex | congress/datalog/factset.py:98-108 | removes an index, changes no facts |
| FactSet.FactSet.Find | congress/datalog/factset.py:114-151 | exactly the facts that match, with or without an index |
| RuleSet.MatchingFacts | congress/datalog/ruleset.py:128-168 | the facts that can match a literal, through an index created on demand |
| RuleSet.RuleSet.GetRules | congress/datalog/ruleset.py:128-168 | changes no contents; returns exactly the rules of the table and the facts that agree with the constants of the literal |
| RuleLists.WithoutAt | congress/datalog/compile.py:1008-1013 | of rules that are all different, whatever the order of their bodies, one is taken away |
| RuleSet.RuleSet.AddRule | congress/datalog/ruleset.py:44-70 | stores a fact among the facts and any other rule among the rules unless an equal one is there, its body in whatever order; other tables unchanged |
| RuleSet.RuleSet.DiscardRule | congress/datalog/ruleset.py:72-104 | removes the rule equal to one with a body from the rules, one without a body from the facts, negated or not |
| RuleSet.RuleSet.Contains | congress/datalog/ruleset.py:112-126 | looks where DiscardRule would remove |
| RuleSet.AddedIsFound | congress/datalog/ruleset.py:44-126 | a rule that has been added is found iff it was found before, has a body or has a positive head |
| RuleSet.FactComesBack | congress/datalog/ruleset.py:64-70 | a fact of a plain table that is stored as a row is read as the same rule |
| RuleSet.AddedIsDiscarded | congress/datalog/ruleset.py:44-104 | adding and discarding a rule that was not there leaves everything as it was iff it has a body or a positive head |
| RuleSet.FactsCollide | congress/datalog/ruleset.py:64-70 | facts are told apart by their arguments only, whatever their service or modal |
| RuleSet.MatchingRowFits | congress/datalog/ruleset.py:128-168 | every fact that the literal can denote is among those returned |
| RuleSet.FoundIsHeadIndex | congress/datalog/nonrecursive.py:258-267 | what is found for a literal is what top-down evaluation takes as its head index |
| DependencyChanges.StepCounts | congress/datalog/utility.py:358-401 | a change counts a node, or an edge with its two ends, up or down; a delete that finds too little leaves more than it should |
| DependencyChanges.StepFinds | congress/datalog/utility.py:358-401 | an edge stays found from its source as long as both are counted |
| DependencyChanges.MissIsSeen | congress/datalog/utility.py:345-401 | a delete that misses something shows in the counts at the end |
| DependencyChanges.FoundAtEnd | congress/datalog/utility.py:366-373 | an edge is lost iff its source was not counted at some point and the edge is not inserted after that |
| DependencyChanges.UndoRestoresCounts | congress/datalog/compile.py:1349-1372 | taking changes back in the order in which they were made restores all counts of nodes and edges iff no end of the changes deletes more than was there before |
| DependencyChanges.UndoRestoresEdges | congress/datalog/compile.py:1349-1372 | then it restores the edges too iff no end of the changes takes the source away from an edge it keeps |
| DependencyChanges.SameCountsSameState | congress/datalog/utility.py:345-401 | the counters are determined by the counts |
| ModalIndexes.TableCounts.AddAll | congress/datalog/analysis.py:71-81 | adds the counts of a dictionary, also to that very dictionary |
| ModalIndexes.TableCounts.SubtractAll | congress/datalog/analysis.py:56-69 | subtracts the counts of a dictionary, also from that very dictionary, and drops tables that fall to zero |
| ModalIndexes.ModalIndex.Plus | congress/datalog/analysis.py:71-81 | what the index and every record count afterwards, modal by modal: where the modal is not there the record's dictionary becomes that of the index, where it is the counts are added in place, and so in the record that shares it |
| ModalIndexes.ModalIndex.Minus | congress/datalog/analysis.py:56-69 | the same for subtracting; a modal left without tables is dropped |
| SharedCounts.MadeIsMade | congress/datalog/compile.py:1314-1347 | after a batch each table under a modal counts what it did before and the sum of the events; records of inserts that met the modal uncounted are empty or the index's own dictionary, all other records are as they were |
| SharedCounts.UndoWithoutOpening | congress/datalog/compile.py:1349-1372 | if no insert met the modal uncounted, undoing restores its counts iff no end of the batch deletes more of a table than was counted before |
| SharedCounts.UndoWithOpening | congress/datalog/compile.py:1349-1372 | otherwise iff something stays counted until the last of these inserts is undone, and the ends of the batch after it delete at most what was counted before and one of them all of it |
| SharedCounts.UndoIsExact | congress/datalog/compile.py:1349-1372 | both cases together: the exact condition, on the counts before the batch and on the batch, under which a modal comes back |
| SharedCounts.UndoOfStored | congress/datalog/compile.py:1349-1372 | if deletes take no more than was counted before: the modal comes back iff it was not counted before or no insert meets it uncounted |
| Dependencies.RuleDependencyGraph.AddNode | congress/datalog/utility.py:358-364 | counts a node once more |
| Dependencies.RuleDependencyGraph.DeleteNode | congress/datalog/utility.py:366-373 | counts a node once less and drops it with its edges at zero; a node that is not there is ignored |
| Dependencies.RuleDependencyGraph.AddEdge | congress/datalog/utility.py:375-385 | counts an edge and both its ends once more |
| Dependencies.RuleDependencyGraph.DeleteEdge | congress/datalog/utility.py:387-401 | counts an edge and both its ends once less; an edge that is not there is ignored |
| Dependencies.RuleDependencyGraph.UpdateFormula | congress/datalog/compile.py:1314-1347 | adds or removes everything one formula contributes, and records the changes; the record of its modals is a new index that the graph's index may share dictionaries with |
| Dependencies.RuleDependencyGraph.FormulaUpdate | congress/datalog/compile.py:1314-1347 | conservation: if deletes are of inserted formulas the counts are the sums over the formulas inserted and not deleted, and all edges counted are found; modal by modal the index and the records are what the events lead to, sharing included |
| Dependencies.RuleDependencyGraph.UndoChanges | congress/datalog/compile.py:1349-1372 | makes the opposite of each change, first one first, whatever is there, on the records as the index has left them |
| Dependencies.RuleDependencyGraph.RejectedUpdate | congress/policy_engines/agnostic.py:1227-1240 | an update that is made and taken back: nodes and edges come back iff no end of the batch deletes more than was there before, nor takes the source away from an edge without deleting a formula with that edge; each modal is what SharedCounts says |
| DependencyEvents.EventsConserve | congress/datalog/compile.py:1314-1347 | the recorded changes of any such run conserve the sums |
| DependencyEvents.ModalsConserve | congress/datalog/compile.py:1314-1347 | and so do modals: each table is counted under each modal as often as in the formulas |
| DependencyEvents.UndoIsExact | congress/datalog/compile.py:1349-1372 | undoing any batch restores nodes and edges iff that condition on the batch of events holds |
| DependencyEvents.ModalUndoIsExact | congress/datalog/compile.py:1349-1372 | undoing any batch restores the tables under a modal iff the condition of SharedCounts.UndoIsExact holds |
| DependencyEvents.StoredBatchIsUndone | congress/policy_engines/agnostic.py:1217-1240 | batches that delete different stored formulas, as the caller makes them, and insert whatever: nodes and edges always come back |
| DependencyEvents.StoredModalsComeBack | congress/policy_engines/agnostic.py:1217-1240 | for such batches a modal comes back iff it was not counted before or no insert of the batch meets it uncounted |
| DependencyEvents.BatchOfOneKindIsUndone | congress/datalog/compile.py:1349-1372 | batches of inserts only, or of deletes only, are always restored, modals included |
| DependencyEvents.InsertedAndDeletedReturns | congress/datalog/compile.py:1349-1372 | a new formula inserted and deleted in one batch is there again after undoing; the graph allows such batches, its caller does not make them |
| Dependencies.ModalIsLost | congress/policy_engines/agnostic.py:1217-1240 | a batch as the caller makes it: with execute[p(x)] :- q(x) stored, deleting it and inserting the recursive execute[p(x)] :- p(x) leaves no table under the modal after undoing |
| Dependencies.EdgeIsLost | congress/datalog/compile.py:1349-1372 | with p :- u, v, w stored: inserting p :- u and p :- v and deleting them again, and undoing that, restores all counts and loses the edge to w |
| Dependencies.HeadModalsCount | congress/datalog/compile.py:1395-1435 | each table is counted under a modal once for each selected head |
| Dependencies.FormulaNodesEdges | congress/datalog/compile.py:1395-1435 | the ends of all edges are among the nodes |
| Dependencies.AtomContributes | congress/datalog/compile.py:1395-1435 | an atom contributes exactly its own node, and its modal, if atoms are included, and nothing otherwise |
| Dependencies.OtherDirection | congress/datalog/compile.py:1395-1435 | the direction flag inverts every edge and changes nothing else |
| Dependencies.NamesAre | congress/datalog/compile.py:447-450 | what the nodes are named |
| Dependencies.RuleIsFormula | congress/datalog/compile.py:1395-1435 | for one rule of a theory: an edge from the head to every table of the body, and nothing for an atom |
| Dependencies.RuleArcsAre | congress/datalog/compile.py:1395-1435 | the edges of a rule by name: from the head to each table of the body, negative iff the literal is |
| LpFlatten.ExtendsUniquely | congress/datalog/arithmetic_solvers.py:440-452 | every assignment extends in exactly one way to the fresh variables so that all supporting equations hold |
| LpFlatten.FlatteningPreservesMeaning | congress/datalog/arithmetic_solvers.py:387-421 | there the new expression has the value of the original |
| LpFlatten.LpLang.CreateIntermediate | congress/datalog/arithmetic_solvers.py:440-447 | a fresh variable with its definition |
| LpFlatten.LpLang.Flatten | congress/datalog/arithmetic_solvers.py:387-421 | each fresh variable is defined once, from earlier ones; the value is preserved; without nested equations no operator is nested |
| LpFlatten.LpLang.PureLp | congress/datalog/arithmetic_solvers.py:191-213 | wherever alternatives exclude each other, bounds are kept and no inequality misses by less than the threshold, the linear constraints are satisfied iff the flattened equations are; answers None, where the original raises, iff some flattened equation sets a variable equal to an equality, or to an inequality one of whose sides asks for the bound of a part that has none |
| LpIndicator.RemovedAndOrValue | congress/datalog/arithmetic_solvers.py:253-258 | a product of 0/1 values is their conjunction; a sum is their disjunction iff at most one is 1 |
| LpIndicator.TwoTrueDisjuncts | congress/datalog/arithmetic_solvers.py:253-258 | two indicator variables that are both 1 add up to 2 |
| LpIndicator.RemoveAndOrKeepsValue | congress/datalog/arithmetic_solvers.py:233-251 | replacing conjunctions and disjunctions keeps the value wherever alternatives exclude each other |
| LpIndicator.LtZeroIsEquivalent | congress/datalog/arithmetic_solvers.py:316-353 | the normal form A < 0 is equivalent iff the inequality is strict or does not miss by less than the threshold |
| LpIndicator.IntegersAreOutsideGap | congress/datalog/arithmetic_solvers.py:316-353 | which it never does between integers |
| LpIndicator.ThresholdIsVisible | congress/datalog/arithmetic_solvers.py:316-353 | 0.000005 <= 0 misses by less, and becomes true |
| LpIndicator.UpperBoundIsSound | congress/datalog/arithmetic_solvers.py:355-385 | the bound bounds the value wherever variables keep their bounds and factors and subtrahends are not negative |
| LpIndicator.BoundIsExceeded | congress/datalog/arithmetic_solvers.py:355-385 | 0 - -1 has the bound 0 and the value 1 |
| LpIndicator.DifferenceBoundIsExact | congress/datalog/arithmetic_solvers.py:355-385 | the bound of a variable less an expression without it holds for all assignments within bounds iff the expression is negative for none |
| LpIndicator.IndicatorIsExact | congress/datalog/arithmetic_solvers.py:260-314 | for y in {0,1} and -U <= x < U the two constraints hold iff (y = 1 iff x < 0) |
| LpIndicator.TranslationIsExact | congress/datalog/arithmetic_solvers.py:260-314 | within bounds the constraints stand for the indicator equation iff its inequality does not miss by less than the threshold |
| LpIndicator.ConstraintsSay | congress/datalog/arithmetic_solvers.py:260-314 | the two constraints in numbers: -x <= y * u and x < (1 - y) * u, where u is the bound of the smaller side and 1 more |
| LpIndicator.BoundIsMissing | congress/datalog/arithmetic_solvers.py:355-385 | there is no bound iff some part that is asked for its bound is a variable without one, or no sum, product or difference |
| Closure.MuranoState.TransitiveClosure | congress/datasources/murano_driver.py:362-382 | terminates with exactly the pairs joined by a non-empty path: the least transitive relation that contains the input |
| SchemaChanges.RevertInvertsUpdate | congress/datalog/compile.py:176-200 | taking back one update exactly inverts it |
| SchemaChanges.BackwardsRestores | congress/datalog/compile.py:176-200 | taking back a batch in the opposite order always restores the schema |
| SchemaChanges.ForwardRestoresInserts | congress/datalog/nonrecursive.py:109-119 | taking back inserts in the order in which they were made restores it too |
| SchemaChanges.ForwardRestoresDeletes | congress/datalog/nonrecursive.py:109-119 | for deletes: restores it iff no table that counts twice or more loses all its count in the batch, and raises otherwise |
| SchemaChanges.RepeatedDeleteRaises | congress/datalog/compile.py:176-200 | deleting both occurrences of a table and taking that back raises |
| SchemaChanges.ColumnsAreKept | congress/datalog/compile.py:137-174 | a table has as many columns as arguments, named Col0, Col1 and so on, whatever is inserted and deleted |
| RuleTheory.Schema.Update | congress/datalog/compile.py:137-174 | counts a table once more or less; answers the change made; a new table gets as many columns as arguments, named Col0, Col1 and so on |
| RuleTheory.Schema.Revert | congress/datalog/compile.py:176-200 | takes a change back, or raises |
| RuleTheory.RuleHandler.UpdateRuleSchema | congress/datalog/nonrecursive.py:85-107 | updates the schema for the head and every literal that is no builtin, in order |
| RuleTheory.MentionsOfRule | congress/datalog/nonrecursive.py:85-107 | a rule mentions a table in its head and in every literal of its body that calls no builtin |
| RuleTheory.ItemsAreLiterals | congress/datalog/nonrecursive.py:85-107 | what is counted are the tables of these literals, with the number of their arguments |
| RuleTheory.RuleHandler.RevertSchema | congress/datalog/nonrecursive.py:109-119 | takes the changes back in the order in which they were made |
| RuleTheory.RuleHandler.UpdateRule | congress/datalog/nonrecursive.py:132-145 | one event: the rule stored is the one given with its body reordered for safety, and as written if it was safe; each table counts exactly its occurrences in the stored rules; a change of nothing leaves the schema as it was; raises iff a rule is deleted that is not there, in whatever order of its body, and that takes all that is counted of a table that counts twice or more |
| RuleTheory.RuleHandler.Update | congress/datalog/nonrecursive.py:121-149 | all events in order, each with what UpdateRule stores; all stored bodies are safe; the changes returned are the events that changed something |
| Translators.GetSchema | congress/datasources/datasource_driver.py:500-649 | succeeds iff no table is declared twice or there already and links are known columns; then the schema gains exactly the declared tables with their columns |
| Translators.KnownKeys | congress/datasources/datasource_driver.py:531-539 | which keys of parents are known: the column of the link or the id, or exactly one column of that name |
| ConvertedRows.VdictColumns | congress/datasources/datasource_driver.py:570-595 | the columns of a VDICT are those of the link, the key and, unless the values refer to this row, the value |
| ConvertedRows.ListColumns | congress/datasources/datasource_driver.py:597-620 | the columns of a LIST are those of the link and the value |
| ConvertedRows.HdictColumns | congress/datasources/datasource_driver.py:500-567 | the columns of an HDICT are that of the link and those of its fields, in the order of the fields |
| ConvertedRows.ListedValuesHaveRows | congress/datasources/datasource_driver.py:969-1035 | where a field is a list of values every value has a row, with the value in its column and the link to the object in the link column |
| DeterminedRows.RowsAreDetermined | congress/datasources/datasource_driver.py:1091-1118 | if columns have different names, the object, the translator and the schema determine the id and, up to their order, the rows |
| Translators.FittingRowsMatchSchema | congress/datasources/datasource_driver.py:500-649 | a row that fits the translator has the width of its table in the schema |
| Conversion.Convert | congress/datasources/datasource_driver.py:1091-1118 | exactly the rows of the object and of everything nested in it, no more and no less: for each row, which value is in the column of which name of the schema, and the id computed from which object and which cells; with proper ids it raises iff the data do not have the expected shape or a key is missing |
| Conversion.EmptyListRaises | congress/datasources/datasource_driver.py:886-887 | an empty LIST of nested objects is not of the expected shape if the LIST has an id column, and is without one |
| Conversion.PopulateHdict | congress/datasources/datasource_driver.py:969-1035 | the own row and the rows of every field; rows of nested tables begin with the value that the own row has in the column that links them, by parent key or by id |
| Conversion.PopulateOwnFields | congress/datasources/datasource_driver.py:969-1035 | the fields that have columns: each value, or the id of what it contains and all rows of that |
| Conversion.PopulateChildren | congress/datasources/datasource_driver.py:1012-1035 | all rows of the fields that refer to this row by a parent key |
| Conversion.FormatResults | congress/datasources/datasource_driver.py:1038-1068 | the object's own row comes last, has one cell for each column and holds the extracted values |
| Conversion.ConvertHdict | congress/datasources/datasource_driver.py:1071-1088 | the rows of each element with in-list, otherwise of the one object |
| Conversion.ConvertVdict | congress/datasources/datasource_driver.py:902-966 | a row for each key, with key and value or id in the columns of these names, and all rows of the values; the own rows come last, in order |
| Conversion.ConvertList | congress/datasources/datasource_driver.py:837-899 | a row for each element, with the value or id in the column of that name, and all rows of the elements; the own rows come last, in order |

## Left out

- Parsing, string printing, source locations, logging and tracing: they do not bear on meaning.
- Abduction and `save` (topdown.py:155-187), `explain`, `includes`, `consequences` and `instances`: queries are answered without saved literals, so `support` stays empty.
- `match_atoms`, `match_tuple_atom`, `same_atoms`, `same`, `instance` (unify.py:286-511): one-sided matching and equality up to renaming are not used by the operations modelled.
- TopDown.Plug: a variable that stays unbound keeps the name it has in the unifier it leads to; the renaming by `id(self)` (unify.py:135-137) is left out.
- TopDown.Flatten: as Plug; safe queries have no unbound variables in their answers.
- Constants are one datatype with ordinary equality; builtins are an arbitrary partial function of their inputs.
- Query.TopDownEvaluation: requires safe rules and queries, as the code's safety checks on insertion do; the tables true and false take no variables, and a builtin has at least its inputs as arguments; the order of answers and their repetition are not specified.
- TopDown.TopDownModule: the case in which a theory has no other theories at all behaves like an unknown theory.
- `DBTuple.match` (database.py:136-154): rows are matched as facts by the same unification; `Database.head_index` returns all rows where the model returns those that agree with the constants, which proves the same.
- Materialized views with negation, builtins or recursion: delta bodies are sorted rather than ordered for safety (materialized.py:40-42), so such rules can meet unbound variables, or never drain.
- Materialized.MaterializedViewTheory.ProcessQueue: the counters behind `is_view`, `is_known` and `base_tables` are not modelled, so that changes of view rows are excluded by a precondition instead of an assertion.
- Materialized.MaterializedViewTheory.EnqueueAny: changes of view rows are excluded by a precondition where the original asserts.
- Materialized.MaterializedViewTheory.ProcessRule: the rule evaluated is the sorted form of the one enqueued; the counters of views are not modelled.
- Materialized.MaterializedViewTheory.Update: as ProcessQueue.
- SelfJoin.EliminateSelfJoins: the copy rule of a repeated builtin would not be safe to evaluate; the meaning is preserved all the same. Literals are renamed in new values, not in place.
- Reorder.ReorderForSafety: returns a new rule where the original changes the body in place.
- DeltaRules.DeltaRuleTheory.Insert: keeps lists without repetitions where the original keeps ordered sets, whose linked form is modelled in `OrderedSet`; so do the rules of `RuleSet`. Rules themselves are kept sorted, where the original sorts when it compares them.
- DeltaRules.DeltaRuleTheory.Delete: requires a rule without self-joins, as elimination makes them.
- RuleSet.RuleSet.GetRules: facts of one table have one width, and the constants of the literal are within it, as `FactSet` expects and the original raises otherwise; the order of facts is that of a set.
- Graph.Graph.FindDependentNodes: the inverted graph shares its node table with the original in the code, which resets the search times there.
- Graph edges have names as nodes; `BagGraph.delete_edge` can skip forgetting the known cycles (utility.py:392-401), and known cycles of the dependency graph are not modelled.
- Dependencies.RuleDependencyGraph.RejectedUpdate: the search for cycles between update and undo only reads the graph and is left out.
- DependencyEvents.StoredBatchIsUndone: a batch that deletes the same stored formula twice is not covered; its second delete finds nothing of its own.
- Recursion.NonrecursiveIsAcyclic: requires names as users write them (no colon in a service, no updates of other theories, heads that are not builtins); the exception for cycles within Z3 theories (z3theory.py:62-74) is not modelled.
- RuleTheory.RuleHandler.UpdateRule: facts with a service or a modal are excluded, since the original stores facts by table and arguments only (`RuleSet.FactsCollide`).
- RuleTheory.RuleHandler.Update: one theory, facts without service and modal, an incomplete schema and rules that can be made safe; stored rules are one list without repetitions; column names only, no types.
- RuleTheory.RuleHandler.UpdateRuleSchema: literals of other theories update the schemas of those, which are left out.
- RuleTheory.RuleHandler.RevertSchema: so are the changes to those.
- LpFlatten.LpLang.Flatten: constants are real numbers, without strings and without rounding; the type notes on variables are left out; conjunctions and disjunctions have at least two members, as `makeAnd` and `makeOr` see to.
- PuLP and the solver (arithmetic_solvers.py:458-647): a foreign library.
- Conversion.Convert: extraction functions of values and of ids are arbitrary functions; `objects-extract-fn`, selectors other than lookup by name, data types and descriptions are left out; fields without a parent key are taken in the order given; rows are specified up to their order, since tables are sets, but for the own rows of VDICT and LIST.
- Conversion.PopulateHdict: as Convert.
- Conversion.ConvertHdict: as Convert.
- Conversion.ConvertVdict: as Convert.
- Conversion.ConvertList: as Convert.
- RPC, REST, polling, authentication, storage and all drivers' client calls: input and output.
