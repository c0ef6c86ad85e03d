# Models of the build and gate tooling

This project models the decision-making cores of the scripts under `dsh/scripts` and proves what
each of them is relied on for. Every module follows one script or one part of it.

| module | script | what is modelled |
|---|---|---|
| `Digraph` | | finite directed graphs: walks, reachability, strongly connected components |
| `ComponentSearch` | `package-graph.ts` | Tarjan's component search, with its index, low-link and stack state |
| `SinkCycles` | `package-graph.ts` | the selection of cyclic components no dependency leaves |
| `PackageGraph` | `package-graph.ts` | package maps, the package comparison and what it puts first, sorting |
| `TopoSort` | `package-graph.ts` | the layered ordering loop that breaks cycles one whole component at a time |
| `GateGraph` | `run-gates.ts` | gate validation and the depth-first cycle search |
| `GateScheduler` | `run-gates.ts` | the bounded-concurrency scheduler as a state machine, theorems over all its runs, and its loop |
| `TypeLookup` | `gen-config-catalog.ts` | the three-valued walk of a key path through a type graph |
| `TypePresence` | `gen-config-catalog.ts` | what declarations say about member paths, with a least and a greatest reading |
| `TypeSoundness` | `gen-config-catalog.ts` | when a definite answer of the walk is right under every reading, and where it is wrong |
| `TypeReach`, `TypeGuard` | `gen-config-catalog.ts` | which declarations a node leads to, and what a larger `seen` set does to an answer |
| `TypeTermination` | `gen-config-catalog.ts` | when the walk ends |
| `TypeComplete` | `gen-config-catalog.ts` | when the walk finds and misses all that the declarations decide |
| `SchemaPath` | `gen-config-catalog.ts` | the printer and the parser of key paths |
| `ExactEdits` | `rescope-vendor.ts` | classification of an edit site, `split` and `join`, when one edit converges and is undone |
| `EditSites` | `rescope-vendor.ts` | the copies of a form in a text, and the states of an edit by their number |
| `EditRuns` | `rescope-vendor.ts` | a whole run over a tree of files, forward and in reverse |
| `EditLayouts`, `EditWindows`, `EditTable` | `rescope-vendor.ts` | runs as an exchange of the two forms at laid-out sites, conditions on the text around the sites, an example |
| `ApartEdits` | `rescope-vendor.ts` | edits whose texts neither contain nor overlap one another, on any text |
| `Publication` | `publish-npm-baseline.ts` | the publication protocol against a registry, with runs that are cut short and restarted |
| `ReferenceFaces` | `project-reference-faces.ts` | the worklist over possibly cyclic project references |
| `WorkerPool` | `publint-all.ts` | async workers that share a counter |
| `MarkdownScanner`, `MarkdownGrammar` | `markdown.ts` | the escape-aware scanner for destinations against a grammar of nested text |
| `MarkdownTarget`, `MarkdownDestination` | `markdown.ts` | the destinations of CommonMark, and the scanner's answers on whole nodes |
| `MarkdownComments`, `MarkdownProse` | `markdown.ts` | the comment search and the prose-line filter |
| `Splice` | `project-doc-site.ts` | back-to-front replacement of source ranges |
| `Whitespace`, `Options`, `Sorting` | | the white space of ECMAScript, the option type, the stable sort |

How the models are built. Code that works step by step is a method or a class with the source's own
variables, proved against a specification; what the source promises is then proved about that
specification. `Search` (Tarjan), `CycleSearch`, `RegistryPublication` and `SharedRun` are classes
because their source counterparts mutate shared variables. The two concurrent programs are state
machines: a run is a sequence of states, each step is one the source could take, and the theorems
speak about every run, so about every order in which the awaited promises settle. `RunGates` and
`RunAll` are the source's loops; they return, as a ghost result, the run they went through, and the
theorems about runs apply to it.

Readings that matter:

- Packages and gates are referred to by the short name or id that keys the source's maps. When two
  packages share a short name the last one is kept, as the source's map does.
- `localeCompare` is any total preorder on strings. Canonical output needs it to tell distinct short
  names apart, and this is stated as a premise.
- The library sort is a stable insertion sort. Results are used only through being sorted and being a
  reordering; that ties keep their order is `SortStable`.
- A member name has a written form, with its quotes or brackets, and the name it denotes, if the
  declaration tells it. The walk compares written forms; what a type has is defined by what is denoted.
- A reading says which member paths every type and declaration has. It must agree with everything the
  declarations say and is free where they say nothing: below an opaque node, about a computed name or
  an index signature, about the members of a `keyof` type. An answer is right if every reading agrees.
- As written, a member list says what the walk takes it to say: the written names of its property
  signatures count, its other members do not, and `keyof` stands for its operand. `TypeComplete` says
  that the walk decides exactly what follows as written, `TypeSound` when this is also what is meant.
- A registry can give a package without a `latest` tag that tag when a version is published, whatever
  tag is asked for; `firstLatest` says whether it does.
- Skipping a gate does not wait for its `after` list. It happens only when nothing runs and nothing
  can start.
- Strings are sequences of characters. The source indexes UTF-16 code units; every character the
  scanners test for is a single unit, so only the numbering of offsets differs.

Where the code and what is said about it differ, the model follows the code:

- `lookupPath` says that what it cannot see through is never reported missing
  (`dsh/scripts/gen-config-catalog.ts:309-316`). It compares a member's text as written
  (`dsh/scripts/gen-config-catalog.ts:338`) with a name that has no quotes, so a quoted property is
  reported missing (`QuotedNameMissing`), and so is a method (`MethodMissing`) and, at a `keyof` type,
  every name its operand lacks (`KeyOfMissing`). What is exact: `LiteralRightIff` and `ListRightForAll`
  for a type literal, `InterfaceMissingIff` for an interface, `KeyOfRightIff` for `keyof`; `TypeSound`
  carries this through whole type graphs.
- A larger shared `seen` set does not only turn answers into unknown. In `D & E` with
  `type D = (D & E) | <opaque>` and `interface E { x }` the node `D & E` is met twice on one walk for
  `x`, first unknown and then, with more marked, found; and `E & D` is found where `D & E` is unknown
  (`LargerSeenCanDecide`). The walk reads syntax and takes this alias; a type checker would refuse it
  for naming itself. What is expected holds where no declaration is reached from two branches of a compound or
  a heritage list (`LargerSeenOpens`); at a compound of two parts that share one with each other, but
  not within the first, `PairDecidesIff` and `UnionDecidesIff` say exactly when it fails. Two walks of
  one question never answer found and missing, whatever the types (`NeverContradicts`).
- With a declaration that reaches itself through the target of an indexed access the walk need not end
  (`SelfIndexedNeverEnds`). Without one it does (`TypeTerminates`).
- A run sets the entry package's `latest` in its last tagging command, once every package is in place
  (`dsh/scripts/publish-npm-baseline.ts:651`). With `latest` itself as the release tag, which loading a
  bundle accepts (`dsh/scripts/publish-npm-baseline.ts:380`), or with a registry that sets `latest` on
  a first publication, an earlier command can move it. `LatestGuardedIff` is the exact condition for
  the guarantee, `LatestAsReleaseTag` a run from the empty registry that breaks it.
- An edit's swap does not always undo it, and a pending replacement need not be applied after it was
  written: `BorderedNotUndone` and `ReplacementReforms` are examples. The swap restores the text if and
  only if the pieces between the sites are aligned with the target form (`ApplyUndone`), which a target
  that does not overlap itself and occurs in no piece always is (`UnborderedAligned`) and one that does
  overlap itself can be (`BorderedUndone`). With aligned pieces an edit lands if and only if it is an
  insertion or its source form is not formed anew, for a replacement in some piece with the copies
  beside it (`PendingConverges`).
- Several edits of one file can also disturb one another. `AllLocal` is a condition on the text around
  each site, in both of its forms, under which no run does (`LocalSound`, `RunLands`,
  `TreeRoundTrip`). It lets the texts of the edits overlap, as those of table rows that begin and end
  with the same bar do (`TableLands`).
- The comment ranges are offsets into a node's text, shifted by where the node starts. In a list item
  the parser takes indentation out of a comment's later lines, so its range ends too early and the rest
  of its closing mark counts as prose (`IndentedCommentFallsShort`). Where the text stands in the
  source as it is, the ranges are comments of the source (`CommentsInSource`).
- A deletion edit, whose target is part of its source, does not always land. `DeletionExact` and
  `DeletionConverges` give the exact condition; `DeletionLeavesRemainder` is an example.
- A bare destination, as section 6.3 "Links" of CommonMark 0.31.2 has it, is not always found. A
  backslash that escapes nothing may end it, and white space behind that is read as escaped
  (`DanglingBackslashOverruns`). Only ASCII control characters and the space end it, and the scanner
  stops at every white space of ECMAScript outside parentheses (`NoBreakSpaceStops`). `BareExact` says
  that there is no third case.

## Model

| member | source | states |
|---|---|---|
| ComponentSearch.Search.Visit | dsh/scripts/package-graph.ts:102-133 | one recursive visit keeps the Tarjan invariant: the components emitted so far are whole and disjoint, a stack entry reaches every entry above it and an active entry at or below itself, and the low link of a visited package still on the stack is the index of a stack entry it reaches; the lookups of recorded values never miss |
| ComponentSearch.Search.PopComponent | dsh/scripts/package-graph.ts:119-132 | exactly the entries from the root upward leave the stack, top first; the stack does not run empty before the root is met |
| ComponentSearch.RootComponent | dsh/scripts/package-graph.ts:119-132 | when the low link of a finished visit equals its index, the stack from the package upward is its whole strongly connected component |
| ComponentSearch.Components | dsh/scripts/package-graph.ts:94-137 | the emitted components are exactly the strongly connected components: disjoint, covering, mutually reachable and maximal |
| SinkCycles.SelectedIsSinkCycle | dsh/scripts/package-graph.ts:138-143 | the final filter keeps a component exactly when it contains a cycle and no dependency leaves it for another remaining package; a self-dependency is a cycle |
| SinkCycles.SinkCycles | dsh/scripts/package-graph.ts:94-144 | the result lists every cyclic component without outgoing edges exactly once, each without repetition, and nothing else |
| SinkCycles.SinkCycleExists | dsh/scripts/package-graph.ts:76-81 | a non-empty graph in which every package has a remaining dependency has a cyclic component without outgoing edges |
| SinkCycles.LeastReach | dsh/scripts/package-graph.ts:76-81 | every graph has a package no package it reaches reaches fewer than, which lies in a sink component |
| PackageGraph.ComparePackagesOrders | dsh/scripts/package-graph.ts:152-158 | the comparison is a total preorder, and packages it ties have short names the collation ties |
| PackageGraph.GroupsDecide | dsh/scripts/package-graph.ts:152-158 | a package of a group listed earlier comes first, a listed group before an unlisted one; where the list does not tell, the groups and, where they tie, the short names decide by the collation |
| PackageGraph.SortSorted | dsh/scripts/package-graph.ts:73-75 | sorting yields a list in order for any preorder |
| Sorting.SortStable | dsh/scripts/package-graph.ts:73-75 | elements that tie keep their order |
| PackageGraph.SortedUnique | dsh/scripts/package-graph.ts:152-158 | a set of packages no two of which tie has one sorted listing |
| PackageGraph.ByNameUnique | dsh/scripts/package-graph.ts:61 | with unique short names the map holds every package under its own name |
| PackageGraph.ByNameLast | dsh/scripts/package-graph.ts:61 | the map holds, under each short name, the last package of that name |
| TopoSort.BatchComponents | dsh/scripts/package-graph.ts:73-87 | what one round places are whole strongly connected components of the full graph: single packages in an ordinary round, one cycle in a stalled round |
| TopoSort.RestScc | dsh/scripts/package-graph.ts:77 | among the packages not yet placed, components are those of the whole graph |
| TopoSort.StalledHasSinks | dsh/scripts/package-graph.ts:76-81 | when no package is ready, the component search returns at least one cycle, so the error for a graph that could not be ordered is unreachable |
| TopoSort.CycleBatch | dsh/scripts/package-graph.ts:77-81 | sorting each cycle and then the cycles by their first package selects the sink cycle that holds the least package of them all |
| TopoSort.FirstCycleFirst | dsh/scripts/package-graph.ts:77-81 | of the cycles whose first packages tie, the one found first is taken |
| TopoSort.ReadyBatch | dsh/scripts/package-graph.ts:73-75 | the filtered and sorted list is the round's batch: all and only the ready packages, in order |
| TopoSort.RunDependencyClosed | dsh/scripts/package-graph.ts:72-88 | after every round, the dependencies of every placed package are placed |
| TopoSort.RunDistinct | dsh/scripts/package-graph.ts:83-87 | no package is placed twice |
| TopoSort.DependenciesFirst | dsh/scripts/package-graph.ts:60-90 | a dependency outside the package's own component comes before the package, and so does everything in that dependency's component |
| TopoSort.ComponentsContiguous | dsh/scripts/package-graph.ts:76-87 | whatever stands between two packages of one component belongs to the component |
| TopoSort.TopologicalIffAcyclic | dsh/scripts/package-graph.ts:60-90 | the order of a complete run is topological if and only if the dependency graph has no cycle |
| TopoSort.BatchUnique | dsh/scripts/package-graph.ts:73-82 | what is placed determines the next batch, as a list |
| TopoSort.CanonicalRun | dsh/scripts/package-graph.ts:72-88 | two complete runs over the same packages are the same sequence of batches |
| TopoSort.FindMissingPeer | dsh/scripts/package-graph.ts:62-68 | a missing peer is reported if and only if there is one: the first of the first package that has one, in list order |
| TopoSort.TopoSort | dsh/scripts/package-graph.ts:60-90 | the loop ends, reports the first missing peer exactly when one is missing, and otherwise returns the listing of a complete run |
| TopoSort.OutputEachOnce | dsh/scripts/package-graph.ts:83-89 | every package of the map is output exactly once |
| TopoSort.OutputIsReordering | dsh/scripts/package-graph.ts:83-89 | with unique short names the output is a reordering of the input |
| TopoSort.OutputDependenciesFirst | dsh/scripts/package-graph.ts:60-90 | in the output list, every package comes after its dependencies and their whole components, except inside a dependency cycle |
| TopoSort.OutputContiguous | dsh/scripts/package-graph.ts:76-87 | in the output list, a dependency cycle is kept together |
| TopoSort.OutputGroupOrder | dsh/scripts/package-graph.ts:73-87 | of two packages placed in one round, the one of the group listed earlier is output first; where the list does not tell, the one the collation puts first by group and then by short name |
| TopoSort.CanonicalOutput | dsh/scripts/package-graph.ts:60-90 | every permutation of the input gives the same output |
| TopoSort.CollationSeparates | dsh/scripts/package-graph.ts:152-158 | the comparison tells all packages apart when the collation tells their short names apart |
| GateGraph.FinishedAcyclic | dsh/scripts/run-gates.ts:808-838 | a list in which every gate comes after all its predecessors shows that there is no cycle |
| GateGraph.EdgeMeans | dsh/scripts/run-gates.ts:823 | the edges searched lead from a gate to each of its `needs` and to each gate of its `after` list |
| GateGraph.CycleSearch.Visit | dsh/scripts/run-gates.ts:814-831 | a visit returns a real cycle, or marks the gate complete and leaves the path and the active marks as they were |
| GateGraph.FindDependencyCycle | dsh/scripts/run-gates.ts:808-838 | nothing is returned if and only if the union of `needs` and `after` is acyclic; a returned path has equal ends and each step is a real predecessor edge; identifiers need not be unique nor references known |
| GateGraph.ValidateGateGraph | dsh/scripts/run-gates.ts:783-806 | a gate list is accepted if and only if it is non-empty, its ids are unique, its references known and its graph acyclic; a refusal names the first defect: the first repeated id, else the first unknown reference, else a real cycle |
| GateScheduler.NextInv | dsh/scripts/run-gates.ts:862-901 | every start, settlement and skip keeps the scheduler's invariant and changes no settled state |
| GateScheduler.RunKeeps | dsh/scripts/run-gates.ts:862-901 | in every run, what is settled at one moment is settled the same way at every later one |
| GateScheduler.RunSafe | dsh/scripts/run-gates.ts:848-913 | at every moment of every run, on the state map alone: at most `maxActive` gates run, each gate is executed at most once and observed at most once, of executed gates all `needs` have passed and all of `after` are settled, and a gate is observed exactly when it is settled, with its final state |
| GateScheduler.RunMoves | dsh/scripts/run-gates.ts:862-901 | every two neighbouring moments of every run are one move: the first gate of the list that may start is started, whenever fewer than `maxActive` run; otherwise a running gate settles with its verdict; otherwise, when nothing runs, the first pending gate with a failed or skipped need is skipped |
| GateScheduler.StartedReady | dsh/scripts/run-gates.ts:910-913 | at the moment before a gate is started, it is pending, fewer than `maxActive` gates run, each of its `needs` has passed and each gate of its `after` list is settled |
| GateScheduler.FailedNeedNeverExecutes | dsh/scripts/run-gates.ts:864-892 | a gate one of whose needs fails or is skipped at any time is executed at no time |
| GateScheduler.NextMeasure | dsh/scripts/run-gates.ts:862-901 | each step lowers twice the pending gates plus the running ones |
| GateScheduler.RunBounded | dsh/scripts/run-gates.ts:862-901 | no run takes more than two steps per gate |
| GateScheduler.NoStall | dsh/scripts/run-gates.ts:873-877 | when nothing runs, nothing can start and a gate is pending, some pending gate has a failed or skipped need, so the stall error is unreachable |
| GateScheduler.Progress | dsh/scripts/run-gates.ts:862-901 | every reachable state is finished or has a next step |
| GateScheduler.FinishedOutcome | dsh/scripts/run-gates.ts:876-900 | at the end each gate is skipped if one of its needs did not pass, and otherwise has its verdict |
| GateScheduler.OutcomeUnique | dsh/scripts/run-gates.ts:848-908 | this description of the outcome has one solution on a validated graph |
| GateScheduler.Confluence | dsh/scripts/run-gates.ts:848-908 | with fixed verdicts, all settling orders and all concurrency limits from one upward end with the same results |
| GateScheduler.RunGates | dsh/scripts/run-gates.ts:848-908 | the loop refuses exactly invalid graphs and limits, otherwise ends, and returns one result per gate in list order, those of a complete run; the missing-result error is unreachable |
| TypePresence.ReadingRespects | dsh/scripts/gen-config-catalog.ts:309-317 | every type graph, recursive ones included, has a reading that agrees with all its declarations, and the least and the greatest are two of them |
| TypeSoundness.TypeSound | dsh/scripts/gen-config-catalog.ts:317-403 | under every reading, found means the path is present and missing means it is absent, for any `seen` set, if in the node and in the declarations it leads to the member lists are exact at the names asked for: comparing written names finds the member that denotes the name, or none can denote it |
| TypeSoundness.DeclarationSound | dsh/scripts/gen-config-catalog.ts:322-361 | the same for a walk that starts at a named declaration, heritage included |
| TypeSoundness.PlainExact | dsh/scripts/gen-config-catalog.ts:335-343 | a member list of identifiers and call signatures is exact at every name |
| TypeLookup.Combine | dsh/scripts/gen-config-catalog.ts:329-334 | found if and only if some branch found it, missing if and only if all branches miss it |
| TypeSoundness.AgreeRight | dsh/scripts/gen-config-catalog.ts:370-376 | a union answers found or missing only when that holds of every branch |
| TypeSoundness.NeverContradicts | dsh/scripts/gen-config-catalog.ts:317-403 | no two walks for the same path through the same type, whatever the types, the `seen` sets and the stack, answer found and missing |
| TypeSoundness.LiteralRightIff | dsh/scripts/gen-config-catalog.ts:335-343 | a type literal's answer about a name is right under every reading if and only if a property written like it comes with a member that denotes it, and without one no member can |
| TypeSoundness.ListRightForAll | dsh/scripts/gen-config-catalog.ts:335-343 | a member list is right about every name if and only if it has no index signature and no computed name, each denoted name is the written name of a property, and each written name is denoted |
| TypeSoundness.InterfaceMissingIff | dsh/scripts/gen-config-catalog.ts:344-360 | an interface that answers missing, its bases being right, is right under every reading if and only if none of its own members can declare the name |
| TypeSoundness.KeyOfRightIff | dsh/scripts/gen-config-catalog.ts:380 | a `keyof` type is walked as its operand, and the answer is right under every reading if and only if it is open |
| TypeSoundness.QuotedNameMissing | dsh/scripts/gen-config-catalog.ts:338 | a quoted property is reported missing under the name it denotes, though every reading has it |
| TypeSoundness.MethodMissing | dsh/scripts/gen-config-catalog.ts:338 | a method is reported missing, though every reading has it |
| TypeSoundness.KeyOfMissing | dsh/scripts/gen-config-catalog.ts:380 | the `keyof` of an empty literal reports every name missing, and a reading of it has the name |
| TypeGuard.TypeSeenGrows | dsh/scripts/gen-config-catalog.ts:322-326 | the shared `seen` set only grows along a walk, and only by declarations the node leads to |
| TypeGuard.LargerSeenOpens | dsh/scripts/gen-config-catalog.ts:322-326 | where no declaration is reached from two branches of a compound or of a heritage list, a larger `seen` set leaves the answer as it is or makes it unknown |
| TypeGuard.PairDecidesIff | dsh/scripts/gen-config-catalog.ts:367-369 | a larger `seen` set decides an intersection of two parts, the first of which shares nothing within itself, if and only if the second part was open from what the first had marked, the first did not find the path, and now the second finds it or both miss it |
| TypeGuard.UnionDecidesIff | dsh/scripts/gen-config-catalog.ts:370-376 | it decides a union of two such parts if and only if the second part was open from what the first had marked and now both give the same answer |
| TypeGuard.DecidedByShared | dsh/scripts/gen-config-catalog.ts:322-326 | and then the two parts share a declaration, which the first marks from the smaller set only |
| TypeGuard.LargerSeenCanDecide | dsh/scripts/gen-config-catalog.ts:322-326 | on one walk from the empty set a node is unknown, and met again with more marked it is found; with its parts in the other order it is found at once |
| TypeTermination.TypeTerminates | dsh/scripts/gen-config-catalog.ts:317-403 | if no declaration reaches itself through the target of an indexed access, the walk ends within a bound given by the type graph and the path length, recursive types included |
| TypeTermination.DeclarationTerminates | dsh/scripts/gen-config-catalog.ts:322-361 | the same for a walk that starts at a named declaration |
| TypeTermination.SelfIndexedNeverEnds | dsh/scripts/gen-config-catalog.ts:381-387 | an alias indexed through itself exhausts every call stack |
| TypeTermination.SelfIndexedNotGrounded | dsh/scripts/gen-config-catalog.ts:381-387 | and it reaches itself through the target of its indexed access |
| TypeComplete.TypeComplete | dsh/scripts/gen-config-catalog.ts:317-403 | if nothing the node leads to is shared between branches and no declaration reaches itself through an indexed access, then from an empty `seen` set and with frames enough the answer is found if and only if the path's presence follows from the declarations as written, and missing if and only if its absence follows |
| TypeComplete.DeclarationComplete | dsh/scripts/gen-config-catalog.ts:322-361 | the same for a walk that starts at a named declaration |
| TypeComplete.TypeDecides | dsh/scripts/gen-config-catalog.ts:317-403 | the same for every number of frames on which the walk ends |
| SchemaPath.ParsePath | dsh/scripts/gen-config-catalog.ts:232-245 | the two loops compute the steps of the path |
| SchemaPath.ParseExact | dsh/scripts/gen-config-catalog.ts:232-245 | every path is the printed form of the steps parsed from it, and no name among them has a dot or ends in a pair of brackets |
| SchemaPath.RoundTrip | dsh/scripts/gen-config-catalog.ts:232-245 | parsing a printed path gives the same steps if and only if no name contains a dot or ends in a pair of brackets |
| SchemaPath.CollectPrinted | dsh/scripts/gen-config-catalog.ts:432-451 | the keys collected under an object or array composition are the printed forms of its member paths, in order |
| SchemaPath.CollectedPathsParse | dsh/scripts/gen-config-catalog.ts:432-451 | each collected key parses back to the member path it was built for if and only if the names on it are clean |
| ExactEdits.AppliedIsReversePending | dsh/scripts/rescope-vendor.ts:572-585 | an edit is applied in one direction if and only if it is pending in the other |
| EditSites.StateIff | dsh/scripts/rescope-vendor.ts:572-585 | pending means exactly the expected number of copies of the source form and, unless the edit is a deletion, none of the target form; applied means exactly that number of the target form and, unless it is an insertion, none of the source form |
| EditSites.CountIs | dsh/scripts/rescope-vendor.ts:573-574 | `split` counts the copies of a form: occurrences that do not overlap, with every other occurrence beginning inside one of them; the empty form stands between all characters |
| ExactEdits.JoinSplit | dsh/scripts/rescope-vendor.ts:626-632 | joining what was split restores the text |
| ExactEdits.SplitJoinExact | dsh/scripts/rescope-vendor.ts:626-632 | for every separator, splitting what was joined restores the pieces if and only if they are aligned with it: in each piece followed by the separator the first copy is that separator, and the last piece has none |
| ExactEdits.SplitJoin | dsh/scripts/rescope-vendor.ts:626-632 | splitting what was joined restores the pieces if and only if no piece contains the separator, for a separator that does not overlap itself |
| ExactEdits.UnborderedAligned | dsh/scripts/rescope-vendor.ts:626-632 | pieces that lack a target form which does not overlap itself are aligned with it |
| ExactEdits.ApplyUndone | dsh/scripts/rescope-vendor.ts:626-632 | an edit and then its swap restore the text if and only if the pieces between the sites are aligned with the target form, and exactly then the swap's sites are the inserted copies; for all non-empty forms |
| ExactEdits.PendingConverges | dsh/scripts/rescope-vendor.ts:572-585 | a pending edit whose pieces are aligned with the target form is undone by its swap, and is applied after one application if and only if it is an insertion or the source form does not stand in the result; for an edit that is no deletion that means: in no piece with the copies beside it |
| ExactEdits.LandsIff | dsh/scripts/rescope-vendor.ts:572-585 | every pending edit, aligned or not, lands and can be undone if and only if its pieces are aligned and it is an insertion or the source form is not formed anew |
| ExactEdits.ReformsIff | dsh/scripts/rescope-vendor.ts:626-632 | a text that does not contain the separator stands in a joined text if and only if it stands in some piece with the separators beside it |
| ExactEdits.ReplacementReforms | dsh/scripts/rescope-vendor.ts:572-585 | a pending replacement with aligned pieces that is not applied after it has been written |
| ExactEdits.DeletionExact | dsh/scripts/rescope-vendor.ts:579-582 | a pending deletion whose remainder does not overlap itself is applied afterwards if and only if the remainder stood nowhere else and the source form is not formed anew |
| ExactEdits.ReformsIffClosesUp | dsh/scripts/rescope-vendor.ts:579-582 | for a remainder that overlaps neither itself nor the source form: the source form is formed anew if and only if some two neighbouring pieces end and begin with the deleted parts |
| ExactEdits.DeletionConverges | dsh/scripts/rescope-vendor.ts:579-582 | for such a remainder, the condition for a deletion to land, checked on the text before the edit |
| ExactEdits.DeletionLeavesRemainder | dsh/scripts/rescope-vendor.ts:579-582 | a pending deletion that is not applied after it has been written |
| ExactEdits.BorderedUndone | dsh/scripts/rescope-vendor.ts:626-632 | a target form that overlaps itself can still be undone on every pending text |
| ExactEdits.BorderedNotUndone | dsh/scripts/rescope-vendor.ts:626-632 | a target form that overlaps itself is not undone by the swapped edit |
| EditRuns.RunEdits | dsh/scripts/rescope-vendor.ts:603-632 | one site that is not clean keeps the whole tree as it was, and so does one file with another number of copies than expected of either form; without one, a writing run applies exactly the pending edits; a checking run accepts exactly a tree with every edit applied |
| EditLayouts.StageRight | dsh/scripts/rescope-vendor.ts:572-585 | an edit that fits is classified by whether it is applied, and writing it exchanges the forms at its sites alone, whatever the other edits of the file |
| EditLayouts.RunLands | dsh/scripts/rescope-vendor.ts:603-632 | with edits that fit, from any mixture of applied and pending edits: no site is refused, a check finds exactly what has landed, a forward run leaves all edits applied and a reverse run none, and nothing but the sites changes |
| EditWindows.LocalSound | dsh/scripts/rescope-vendor.ts:626-632 | if around each site, in both its forms, no form of an edit stands in a gap, meets a foreign site, starts before an own one or crosses a gap, then every edit fits at every stage of every run |
| EditWindows.LayoutsPending | dsh/scripts/rescope-vendor.ts:603-632 | cutting each file at the source forms, edit by edit, loses nothing: the layout at which nothing is applied is the tree |
| EditWindows.TreeRoundTrip | dsh/scripts/rescope-vendor.ts:603-632 | a tree with all edits pending and the text around each site as `AllLocal` asks: the forward run is accepted and lands every edit, replacement, insertion or deletion, a second run changes nothing, and the reverse run is accepted and restores the tree |
| EditTable.TableLands | dsh/scripts/rescope-vendor.ts:626-632 | two edits of one file whose texts overlap, one a deletion: the forward run lands both and the reverse run takes both back |
| ApartEdits.ApplyJoined | dsh/scripts/rescope-vendor.ts:626-632 | an edit whose source form keeps apart from a separator acts on each piece alone |
| ApartEdits.CountKept | dsh/scripts/rescope-vendor.ts:626-632 | an edit leaves the number of sites of every text it keeps apart from |
| ApartEdits.ApplyCommutes | dsh/scripts/rescope-vendor.ts:626-632 | two edits of one file that keep apart, the second with a source form that does not overlap itself, can be applied in either order, on any text |
| ApartEdits.ApartLocal | dsh/scripts/rescope-vendor.ts:626-632 | forms that keep apart neither meet each other's sites nor cross a gap beside them |
| Publication.RegistryPublication.NpmPublish | dsh/scripts/publish-npm-baseline.ts:633-638 | adds one version; of the release tag and, where the registry sets it on a first publication, `latest`, either may or may not have moved when it returns |
| Publication.RegistryPublication.EnsureDistTag | dsh/scripts/publish-npm-baseline.ts:755-764 | the tag ends at the release version, nothing else changes, and nothing is written when it is there already |
| Publication.RegistryPublication.VerifyRemote | dsh/scripts/publish-npm-baseline.ts:662-698 | accepts if and only if the registry holds every package with its content and with its dist-tag at the release, and the entry package's `latest` is the release |
| Publication.RegistryPublication.PublishPackage | dsh/scripts/publish-npm-baseline.ts:630-650 | one package is one step of the loop relation, for every manifest, and is cut short only if the process dies at one of its three points |
| Publication.RegistryPublication.Publish | dsh/scripts/publish-npm-baseline.ts:625-654 | a run, for every manifest, is a run of the relation the theorems speak about, cut short only where the process dies; one that is not cut short completes if and only if no package has other content in the registry and the entry package is to be had, and then the release is in place |
| Publication.PackageFacts | dsh/scripts/publish-npm-baseline.ts:630-650 | whatever the release tag, one package never replaces content, completes only in place, fails only on a conflicting integrity, and leaves a package in place untouched |
| Publication.RunFacts | dsh/scripts/publish-npm-baseline.ts:625-654 | whatever the release tag, a run keeps published content and moves only its own tags to the release; completion means verified, without conflict and with the entry package to be had; failure means a conflict or no entry package; a verified registry is left untouched |
| Publication.HistoryGrows | dsh/scripts/publish-npm-baseline.ts:625-654 | over any number of crashed and restarted runs, nothing published is replaced and only target tags move, to the release |
| Publication.HistorySafe | dsh/scripts/publish-npm-baseline.ts:625-654 | and `latest` moves to the release only with every package in place, when no command before the last can move it |
| Publication.HistoryConverges | dsh/scripts/publish-npm-baseline.ts:625-654 | from a registry without conflicting content no run fails, and a run that completes leaves the registry verified |
| Publication.ConflictNeverCompletes | dsh/scripts/publish-npm-baseline.ts:639-644 | with a conflicting integrity no run ever completes, and the conflict stays |
| Publication.VerifiedIsFinal | dsh/scripts/publish-npm-baseline.ts:656-660 | once verified, later runs write nothing |
| Publication.LatestGuardedIff | dsh/scripts/publish-npm-baseline.ts:649-651 | every run from every registry moves `latest` only with every package in place, if and only if the entry package is not in the manifest, or `latest` is the release tag and it comes last, or it is not and the registry sets no `latest` by itself |
| Publication.EarlyLatest | dsh/scripts/publish-npm-baseline.ts:633-638 | in all other cases: a registry with the packages before the entry package in place, and a run from it that dies with `latest` moved and the release incomplete |
| Publication.LatestAsReleaseTag | dsh/scripts/publish-npm-baseline.ts:380 | with `latest` as the release tag, a run from the empty registry that dies after its first package leaves `latest` on an incomplete release |
| ReferenceFaces.FaceIsNearestAnchor | dsh/scripts/project-reference-faces.ts:88-103 | the guarded walk of an `extends` chain finds a face if and only if the unguarded chain meets an anchor, and it is the nearest one; it ends on cyclic chains |
| ReferenceFaces.ContainingSplitRoot | dsh/scripts/project-reference-faces.ts:116-121 | a root is found if and only if one contains the target, and it is the first that does |
| ReferenceFaces.InnermostSplitRoot | dsh/scripts/project-reference-faces.ts:65-71 | with the roots sorted longest first the root found is the innermost: every root that contains the target contains it |
| ReferenceFaces.AnchorIs | dsh/scripts/project-reference-faces.ts:94-97 | a path has a face of its own exactly if it is a file `tsconfig.host.json` or the root's `tsconfig.base.json`, for host, or a file `tsconfig.client.json` or the root's `tsconfig.base.client.json`, for client |
| ReferenceFaces.FaceInherited | dsh/scripts/project-reference-faces.ts:88-103 | the face found is that of the last config of a chain of existing configs, each extending the next, none of which but the last has a face of its own |
| ReferenceFaces.SplitRootsAre | dsh/scripts/project-reference-faces.ts:65-71 | the roots searched are the package directories with both face configs, longest first |
| ReferenceFaces.RootFound | dsh/scripts/project-reference-faces.ts:116-121 | the root found is the innermost split project around the target, if there is one |
| ReferenceFaces.CheckDescribes | dsh/scripts/project-reference-faces.ts:43-56 | a reference is rejected if and only if it is mistaken, and the violation names its config, its split project and the face |
| ReferenceFaces.AcceptedIff | dsh/scripts/project-reference-faces.ts:57 | a reference edge is followed if and only if it is not mistaken |
| ReferenceFaces.CollectViolations | dsh/scripts/project-reference-faces.ts:30-63 | the worklist ends on every finite reference graph and lists, for each config led to from the two aggregates along references that are not mistaken, its mistaken references, each once per reference, with the split project and the face; mistaken means that the target lies in a split project and is not the host or client leaf, by the config's face, of the innermost one |
| WorkerPool.NextInv | dsh/scripts/publint-all.ts:224-232 | every step of every worker keeps the pool's invariant |
| WorkerPool.NeverTwice | dsh/scripts/publint-all.ts:221-232 | under every interleaving there are never more workers than the limit, no target is linted twice, and each stored result is that of its own target |
| WorkerPool.CompleteResults | dsh/scripts/publint-all.ts:234-238 | when all workers have returned every result is present if and only if there was a worker or nothing to lint |
| WorkerPool.NextMeasure | dsh/scripts/publint-all.ts:224-232 | every interleaving ends |
| WorkerPool.Progress | dsh/scripts/publint-all.ts:224-232 | until all workers have returned, one of them can step |
| WorkerPool.SharedRun.Resume | dsh/scripts/publint-all.ts:225-231 | what one worker does between two awaits is one step of the state machine |
| WorkerPool.RunAll | dsh/scripts/publint-all.ts:221-239 | workers resumed in any order yield the result of target i at place i, and the missing-result error needs an empty pool and a target |
| MarkdownComments.CommentRanges | dsh/scripts/markdown.ts:207-217 | the search finds comments in order and apart; each opens with a comment mark and ends with the first closing mark after it or with the node; every opening mark lies in one |
| MarkdownComments.CommentsUnique | dsh/scripts/markdown.ts:207-217 | no other list of ranges meets that description |
| MarkdownComments.CommentsAtUnique | dsh/scripts/markdown.ts:207-217 | nor does any other list of ranges shifted by the node's offset, so the recorded ranges are determined by the node |
| MarkdownComments.CommentsInSource | dsh/scripts/markdown.ts:207-217 | where the node's text stands in the source as it is, each range opens and closes with marks of the source, with no closing mark in between |
| MarkdownComments.StrippedRange | dsh/scripts/markdown.ts:207-217 | where the parser took text out of a node, the characters of a range stand at the recorded offsets if and only if nothing was taken out before the range's end |
| MarkdownComments.IndentedCommentFallsShort | dsh/scripts/markdown.ts:207-217 | a comment continued in an indented line of a list item: the range ends before the comment does, and its line is taken for prose |
| MarkdownProse.LineInSource | dsh/scripts/markdown.ts:220-234 | the running offset finds each line in the source |
| MarkdownProse.LinesExact | dsh/scripts/markdown.ts:256 | the lines are what the newlines of the source separate, and none contains one |
| MarkdownProse.ClipMeets | dsh/scripts/markdown.ts:223-231 | a comment is recorded for a line if and only if it touches the line, an empty one included, and the columns cover the same characters |
| MarkdownProse.LineColumns | dsh/scripts/markdown.ts:221-235 | the recorded columns of a line cover exactly its commented characters |
| MarkdownProse.HasTextOutside | dsh/scripts/markdown.ts:238-248 | the sweep over overlapping ranges answers whether some character that is not white space lies in none of them |
| MarkdownProse.ColumnsAgree | dsh/scripts/markdown.ts:203-248 | the per-line columns decide the absolute-offset question: no comment touches the line, or some visible character of it lies in no comment |
| MarkdownProse.ProseLines | dsh/scripts/markdown.ts:255-271 | the result lists exactly the lines outside code that keep text, in order, verbatim, with their numbers |
| MarkdownScanner.SkipWhitespace | dsh/scripts/markdown.ts:84-88 | the loop stops at the first character that is not white space |
| Whitespace.SpaceCodes | dsh/scripts/markdown.ts:86 | white space is the 25 code points of ECMAScript |
| MarkdownScanner.LabelEnd | dsh/scripts/markdown.ts:90-104 | the loop computes the end of the label |
| MarkdownGrammar.LabelEndExact | dsh/scripts/markdown.ts:90-104 | the label ends at r if and only if a `]` stands there and the text from the first `[` to it is bracket-balanced, escapes aside |
| MarkdownGrammar.BareScanExact | dsh/scripts/markdown.ts:126-139 | a bare destination ends at r if and only if a terminator stands there and the text before it is parenthesis-balanced and free of white space outside parentheses, escapes aside |
| MarkdownGrammar.AngleScanExact | dsh/scripts/markdown.ts:120-125 | a bracketed destination ends at r if and only if the first unescaped `>` stands there |
| MarkdownScanner.DestinationRange | dsh/scripts/markdown.ts:106-140 | the loops compute the range, or the error of the part that is missing |
| MarkdownDestination.BareExact | dsh/scripts/markdown.ts:106-140 | for a link, image or definition with a balanced label and a bare destination of CommonMark, the range is exactly the destination's if and only if it has no white space outside parentheses but behind a backslash and no dangling backslash stands before the white space that ends it |
| MarkdownTarget.DestinationUnique | dsh/scripts/markdown.ts:106-140 | a node's text can be read as a bare destination of CommonMark in one way only, so the range meant is determined |
| MarkdownDestination.DestinationFits | dsh/scripts/markdown.ts:143-152 | a destination the scanner finds exactly may be written over another |
| MarkdownDestination.AngledExact | dsh/scripts/markdown.ts:120-125 | for a bracketed destination the range is exactly the inside of the brackets |
| MarkdownDestination.DanglingBackslashOverruns | dsh/scripts/markdown.ts:128-130 | the link `[a](b\ "c")`: the range takes in the title behind a destination that ends in a backslash |
| MarkdownDestination.TitleIsNoDestination | dsh/scripts/markdown.ts:128-130 | and what the overrun range covers is no destination |
| MarkdownDestination.NoBreakSpaceStops | dsh/scripts/markdown.ts:135-137 | a link whose destination has a no-break space: the range ends before the space |
| MarkdownDestination.RewriteReadsBack | dsh/scripts/markdown.ts:143-152 | whatever the node, a fitting destination written over the range found is the one found next, and putting the old text back restores the node |
| Splice.DisjointPermuted | dsh/scripts/project-doc-site.ts:198 | disjointness of ranges does not depend on their order |
| Splice.SplicedStep | dsh/scripts/project-doc-site.ts:198-200 | one pass of the loop adds the last outstanding replacement and moves nothing before it |
| Splice.SpliceAll | dsh/scripts/project-doc-site.ts:197-201 | for disjoint ranges in any order the loop yields the simultaneous substitution: gaps unchanged and in order, each range replaced by its value |
| Splice.SubstitutionIsCanonical | dsh/scripts/project-doc-site.ts:197-201 | every order of the same replacements gives the same text |

## Left out

- PackageGraph.ComparePackagesOrders: packages that tie are not ordered further, because the collation is abstract; the source leaves their order to the stable sort (`SortStable`).
- PackageGraph.GroupsDecide: with more than 2^53 - 1 groups listed, a listed group may rank behind an unlisted one, as in the source.
- TopoSort.CanonicalOutput: holds for packages no two of which tie; with a collation that ties two distinct names the output can depend on the order of the input.
- GateScheduler.RunGates: the executor always reports a verdict; an executor whose promise is rejected ends the source's run with that error and is not modelled.
- TypeSoundness.TypeSound: one direction for whole graphs; the converse is stated for one member list (`LiteralRightIff`, `ListRightForAll`) and one interface (`InterfaceMissingIff`), because an inexact list may lie where no answer depends on it.
- TypeTermination.TypeTerminates: the call stack is a number of frames; the bound on it is explicit and not tight, and the condition is sufficient: `interface A { x: A['x'] }` does not meet it, and its walk ends on the guard.
- TypeComplete.TypeComplete: not sharing is sufficient; with a shared declaration the guard can leave an answer open that is decided elsewhere (`PairDecidesIff`, `LargerSeenCanDecide`).
- TypeGuard.PairDecidesIff: compounds of more than two parts and heritage lists have the sufficient condition of `LargerSeenOpens` only.
- TypePresence.ReadingRespects: a reading takes `Partial`, `Required`, `Readonly`, `NonNullable`, `Array` and `ReadonlyArray` by name, as the walk does, so a file's own type of such a name is misread by both.
- EditWindows.TreeRoundTrip: `AllLocal` is sufficient; for a single edit the condition is exact (`LandsIff`).
- ExactEdits.DeletionConverges: a remainder that overlaps itself or the source form has the condition of `LandsIff` only.
- ReferenceFaces.CollectViolations: the result is a collection with multiplicities; the final sorting of the messages and their wording are left out.
- Publication.RegistryPublication.NpmPublish: the dist-tags a publication may move are the one asked for and, on a first publication, `latest`.
- MarkdownComments.CommentRanges: states the ranges within the node's text; they are comments of the source where nothing was taken out of it before their end (`StrippedRange`), which the parser decides.
- MarkdownProse.ProseLines: the parser's contribution, comment offsets and fenced line numbers, is given.
- Splice.SpliceAll: ranges have distinct starts, as destinations of different nodes do.
- Identity check, ping and confirmation before a publication, and the wording and exit codes of npm commands.
- Concurrent publishers: one publisher at a time is assumed, and each registry command takes effect at once or not at all.
- Import resolution and re-export chains of the type lookup: what a name resolves to in a file is given as a map, with one declaration per name; type parameters that share a name with a declaration are not told apart.
- Reading package manifests, config files and Markdown from disk; Windows path forms.
- Gate fields that do not steer the scheduler (commands, environment, `allowFailure`), process spawning, output streaming and timing; missing `needs` and `after` lists are empty lists.
- The regular-expression rewriting of rescope-vendor.ts: it is a separate pass, and its side condition is about shared quotes.
- The computation of new link targets in project-doc-site.ts: it picks the value of a replacement and does not affect the splice.
- Fixed tables of gates, services, links and edits: finite data.
- Catalogue, notice and diagram rendering, coverage partitions and manifest policy checks: they add only easy members.
