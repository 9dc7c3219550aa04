# Verified model of the plan engine

A Dafny model of the parts of Master Plan (`mp`) that keep a plan correct: the schema
validator, the crash-recoverable transaction, the planner's ordering, the command-line and
timestamp parsers, the delta merge, the verifier's command cache, the skill deployer and the
milestone lifecycle. `dafny verify dfyconfig.toml` checks all of it.

## How it is laid out

| file | what it models |
|---|---|
| `JsonSchema.dfy` | JSON values, raw schemas, which of them compile, the compiler |
| `RefGraph.dfy` | the two reference walks, the zero-cost graph, the depth-first search for cycles |
| `SchemaValidator.dfy` | the recursion of `validate` with its termination measure, the errors, `Validator::new` |
| `JsonEquality.dfy`, `DefinitionNames.dfy` | equality of JSON values and the names in references, as the standards have them and as the program does |
| `SchemaMeaning.dfy` | the one meaning that JSON Schema 2020-12 gives a raw schema, and how validation relates to it |
| `Digraph.dfy` | walks, cycles and ranking orders of finite graphs |
| `PlanTree.dfy`, `RecoveryTxn.dfy` | the plan directory, the transaction with the process ending between any two steps, whole runs |
| `PlanGraph.dfy`, `TopoSort.dfy`, `PathPrefs.dfy` | the dependency graph of a plan; Kahn's order with a sorted frontier; the sort, the pins and the focus |
| `MilestoneIds.dfy`, `Sorting.dfy`, `Text.dfy` | milestone ids and their order, stable sorting, string operations |
| `Argv.dfy` | `parse_argv` and the quoting it undoes |
| `Calendar.dfy`, `Rfc3339.dfy` | civil dates and timestamps |
| `DeltaEdits.dfy`, `DeltaMerge.dfy`, `DeltaRuns.dfy` | what a delta does to requirements, versioned merges and rebases, and runs of them |
| `CommandCache.dfy` | criteria and step tests through one shared cache |
| `SkillDeploy.dfy` | mirroring, deploying and drift detection |
| `Lifecycle.dfy` | the lifecycle machine and its persisted form |

Code that changes state is modelled by classes and loops, each proved against a function or
predicate whose own properties are then proved. Where the program iterates over a hash map or
hash set the model takes the elements in an arbitrary order, so the results hold for every order.
Errors are kept as outcomes; their wording is not.

## Where the code falls short of what one would expect

* A line feed or carriage return is in the list of shell operators, but outside quotes
  `parse_argv` sees it as whitespace first, so it separates words instead of being refused
  (`Argv.LineFeedSeparates`). All other operators are inert, and operators are quoted or escaped
  throughout exactly when no bare line break occurs (`Argv.OperatorsQuotedIff`).
* If an operation fails after turning a baseline file into a directory, `rollback` fails, and
  dropping the handle then removes the before-image although restoring has failed again: the
  stable files are lost. This happens exactly under that condition
  (`RecoveryTxn.RecoveryTxn.Rollback`, with an input in `RecoveryTxn.ObstructionExists`).
* If the process ends inside `begin` before the manifest is written, or `begin` returns an error
  after it has made its directory (too many files, a failing copy), every later recovery
  returns an error; the plan is untouched (`RecoveryTxn.Begin`,
  `RecoveryTxn.PlanDisk.RecoverPending`).
* Setting the focus to a milestone that is not ready makes the program forget all ready
  milestones (`PathPrefs.SortedPermutes` gives the exact condition).
* Two deltas on one base of a domain can both merge, without a rebase in between. They never do,
  over all deltas and runs, exactly if none of them can merge at all, or the base is below the
  largest version number, the spec file of the domain holds its own id, and no other loadable
  file that holds this id has a version from 1 to below the base
  (`DeltaRuns.MergesOnceIffGuarded`). For loading never compares the name of a file with the id
  in it, and writing goes to the file of the id. Inputs: `DeltaRuns.SaturatedVersionMergesTwice`,
  `DeltaMerge.MisnamedSpecMergesTwice`, `DeltaRuns.ForeignSpecSetsBack`. Below the largest
  number the same delta merges again at once exactly if the file of its domain holds another
  id (`DeltaMerge.MergesAgainIffMisnamed`).
* A generated requirement id can be taken only if the number 4294967295 is in use and so is
  "REQ-00" (`DeltaEdits.NextReqIdIsFresh`, release arithmetic).
* Deploying a skill fails exactly if there is no source directory or a regular file stands at
  the destination, which then survives, although the destination is meant to be wiped
  (`SkillDeploy.DeploySkill`, `SkillDeploy.FileBarsDeployment`).
* A pin can put an inactive milestone before an active one; the focus then lands before that
  active one too (`PathPrefs.FocusBeforeActive`).
* A reported path is ambiguous if a key holds a slash (`SchemaValidator.SlashIsAmbiguous`).
* A cancelled draft that has been written cannot be read back
  (`Lifecycle.ReadsBackUnlessCancelledDraft`); since cancelled is absorbing, no run notices
  (`Lifecycle.PersistedRunIsRun`).
* From JSON Schema 2020-12 the validator differs in this: the siblings of a reference are
  ignored. `enum` compares representations, so that [1] refuses 1.0, where section 6.1.2 of
  JSON Schema Validation compares mathematical values; it agrees on every instance exactly if
  the list is closed under changing the form of a number (`JsonEquality.EnumAgreesIffClosed`,
  `JsonEquality.EnumMissesEqualNumber`). The name in a reference is taken to the letter, which
  is right exactly for names without `%` and `~` (`DefinitionNames.LiteralIffPlain`); and an
  `$id` below the root does not start a new resource. The theorems about meaning are for schemas
  with plain names and no reference under an `$id` below the root.

## Model

| member | source | states |
|---|---|---|
| JsonSchema.CompileSchema | crates/mp/src/mini_schema.rs:61-212 | the compiler accepts exactly the well-formed raw schemas, at any depth, nested definitions included, and yields the compiled form whose meaning `SchemaMeaning` relates to the raw one |
| JsonSchema.CompileTypes | crates/mp/src/mini_schema.rs:94-143 | a type keyword is one known type name or a non-empty array of distinct known names |
| JsonSchema.CompileStringArray | crates/mp/src/mini_schema.rs:214-238 | arrays of distinct strings and nothing else |
| RefGraph.RawWalkCoversCompiledWalk | crates/mp/src/mini_schema.rs:257-321 | a schema whose raw walk finds every reference resolved cannot be rejected by the compiled walk; the raw walk takes the reference prefix only where compilation has checked it |
| RefGraph.WalksAgree | crates/mp/src/mini_schema.rs:240-321 | on every well-formed schema the raw walk accepts exactly what the compiled walk accepts of the schema and of all definitions carried in it at any depth |
| RefGraph.CycleDetector.Walk | crates/mp/src/mini_schema.rs:343-380 | the depth-first search terminates; on success the name is done, `done` is closed under targets and `visiting` is the caller's stack again; on failure there is a cycle |
| RefGraph.DetectRefCycles | crates/mp/src/mini_schema.rs:336-398 | Ok exactly when the zero-cost reference graph has no cycle |
| Digraph.AcyclicIffRanked | crates/mp/src/mini_schema.rs:323-398 | a finite graph has no cycle exactly when an order puts every name after its targets: the rank on which the validator's termination rests |
| SchemaValidator.Validator.ReferenceDescends | crates/mp/src/mini_schema.rs:466-469 | following a reference finds a definition and strictly lowers the rank |
| SchemaValidator.Validator.BranchesDescend | crates/mp/src/mini_schema.rs:668-679 | trying a branch of anyOf never raises the rank |
| SchemaValidator.Validator.Validate | crates/mp/src/mini_schema.rs:459-508 | validation terminates on every value, by instance, then rank, then schema, and pushes exactly the errors of the value against the schema |
| SchemaValidator.Validator.CheckProperties | crates/mp/src/mini_schema.rs:634-650 | exactly the errors of the properties that are present |
| SchemaValidator.Validator.CheckItems | crates/mp/src/mini_schema.rs:652-666 | exactly the errors of the elements |
| SchemaValidator.Validator.CheckAnyOf | crates/mp/src/mini_schema.rs:668-686 | one error exactly when no branch is satisfied |
| SchemaValidator.Validator.IterErrors | crates/mp/src/mini_schema.rs:453-457 | the reported errors, and none exactly when the value satisfies the schema |
| SchemaValidator.Validator.SilentIffSatisfied | crates/mp/src/mini_schema.rs:459-507 | reporting no error and satisfying the schema coincide, at every node |
| SchemaValidator.Validator.ReportedAtRealPlace | crates/mp/src/mini_schema.rs:459-686 | every reported path spells the place of a real sub-value, and that sub-value violates the reported keyword of the schema that governs the place, found by following references, properties and items |
| SchemaValidator.Validator.ReportedIffViolated | crates/mp/src/mini_schema.rs:459-686 | conversely every such violation is reported: the errors are exactly these |
| SchemaValidator.PathsIdentify | crates/mp/src/mini_schema.rs:634-666 | in an instance none of whose keys holds a slash, a reported path is the spelling of one place only |
| SchemaValidator.SlashIsAmbiguous | crates/mp/src/mini_schema.rs:646-648 | with a slash in a key one path spells two places |
| SchemaValidator.CheckAssertions | crates/mp/src/mini_schema.rs:471-497 | the keywords that look at one value report exactly what they forbid |
| SchemaValidator.CheckRequired | crates/mp/src/mini_schema.rs:561-573 | one error for each required name that an object lacks |
| SchemaValidator.CompiledWalksAreRedundant | crates/mp/src/mini_schema.rs:443-447 | after the raw walk neither compiled walk can reject, so every lookup of a definition succeeds |
| SchemaValidator.NewValidator | crates/mp/src/mini_schema.rs:424-450 | a root is accepted exactly when it is well formed, its references resolve and its definitions have no zero-cost cycle; the validator built is sound |
| JsonEquality.EnumAgreesIffClosed | crates/mp/src/mini_schema.rs:575-582 | what the program allows is allowed by section 6.1.2; it allows nothing less, on every instance, exactly if the list holds with each value every value that differs in the form of one number |
| JsonEquality.EnumMissesEqualNumber | crates/mp/src/mini_schema.rs:575-582 | the list [1] allows 1.0, which the program refuses |
| JsonEquality.ConversionKeepsOrder | crates/mp/src/mini_schema.rs:171-177 | the program's conversion of numbers keeps their order and their equality |
| DefinitionNames.LiteralIffPlain | crates/mp/src/mini_schema.rs:78-92 | taking the name of a reference to the letter is right exactly if it holds no percent and no tilde |
| DefinitionNames.SlashIsEscaped | crates/mp/src/mini_schema.rs:78-92 | the reference "#/$defs/a~1b" denotes the definition "a/b", not the one named "a~1b" that the program takes |
| SchemaMeaning.TypesAgree | crates/mp/src/mini_schema.rs:528-553 | every known type name matches what section 6.1.1 of JSON Schema Validation says, "integer" any number equal to an integer |
| SchemaMeaning.IntegersAgree | crates/mp/src/mini_schema.rs:528-539 | the test of the fraction finds exactly the numbers equal to an integer |
| SchemaMeaning.OnePrimitiveType | crates/mp/src/mini_schema.rs:541-552 | every value has exactly one of the six primitive types |
| SchemaMeaning.AssertionsAgree | crates/mp/src/mini_schema.rs:94-176 | for the keywords that look at one value: what compiled ones let pass satisfies the raw ones; conversely if the allowed values are closed |
| SchemaMeaning.ReadingExists | crates/mp/src/mini_schema.rs:424-508 | an accepted root has a meaning: some verdict on all instances obeys every keyword, whatever its enumerations |
| SchemaMeaning.ReadingIsUnique | crates/mp/src/mini_schema.rs:459-508 | and only one, although schemas refer to each other |
| SchemaMeaning.AcceptedIsValid | crates/mp/src/mini_schema.rs:459-508 | at every schema over the definitions, what the validator accepts is valid; if all enumerations are closed it accepts exactly what is valid |
| SchemaMeaning.ReadingIsValidation | crates/mp/src/mini_schema.rs:459-508 | the same of any verdict that obeys the keywords |
| SchemaMeaning.AcceptedIffRead | crates/mp/src/mini_schema.rs:453-457 | at the root with closed enumerations the validator computes the meaning |
| SchemaMeaning.EnumerationExactIffClosed | crates/mp/src/mini_schema.rs:459-508 | for a schema that only enumerates, acceptance is validity on all instances exactly if its list is closed |
| PlanTree.RestoredIsValid | crates/mp/src/mutation_txn.rs:231-272 | the tree that restoring leads to is a directory tree, with exactly the baseline files and no directory outside the baseline |
| PlanTree.CreatedDirIsEmpty | crates/mp/src/mutation_txn.rs:259-270 | because the baseline is closed under parents, deepest-first removal finds every created directory empty |
| RecoveryTxn.PlanDisk.RestoreBeforeImage | crates/mp/src/mutation_txn.rs:231-272 | wherever restoring stops, restoring again leads to the same tree; success means having reached it; it fails exactly if a baseline file has become a directory |
| RecoveryTxn.PlanDisk.RemoveCreatedDirs | crates/mp/src/mutation_txn.rs:259-270 | of the directories exactly those of the baseline remain |
| RecoveryTxn.PlanDisk.RestoreAfterCrashes | crates/mp/src/mutation_txn.rs:231-272 | any number of interrupted attempts and one that ends give the result of one undisturbed run |
| RecoveryTxn.PlanDisk.RecoverPending | crates/mp/src/mutation_txn.rs:156-217 | Ok means no transaction left and exactly the stable files on disk; short of a crash it fails exactly when stuck; over an unfinished transaction the plan is untouched |
| RecoveryTxn.PlanDisk.StageBeforeImage | crates/mp/src/mutation_txn.rs:64-78 | the staged copy equals the plan files, and the plan is not touched |
| RecoveryTxn.Begin | crates/mp/src/mutation_txn.rs:39-105 | recovery first, then staging, then the manifest; at every step at most one transaction directory exists and the stable files are safe; after an error recovery is stuck |
| RecoveryTxn.ObstructionExists | crates/mp/src/mutation_txn.rs:127-153 | one plan file replaced by a directory of its name: the operation that loses the stable files |
| RecoveryTxn.RecoveryTxn.Commit | crates/mp/src/mutation_txn.rs:107-125 | the seal is the one step at which the stable files change, to the files then on disk |
| RecoveryTxn.RecoveryTxn.Rollback | crates/mp/src/mutation_txn.rs:127-153 | the stable files are back, unless a baseline file has become a directory, and then they are lost |
| RecoveryTxn.RunRecoverable | crates/mp/src/plan_io.rs:93-121 | the stable files afterwards are those from before or those of all writes together, never a mixture; after Ok without failure the plan is what the last write left, after a failure rolled back the files are those from before; once begun and not cut short they are lost exactly by a failing operation that has turned one into a directory |
| RecoveryTxn.Run | crates/mp/src/plan_io.rs:46-121 | over any run of operations, each ended at any step, followed by a recovery that returns Ok: no transaction left, and the files are the last committed image; the committed images are those of operations in the order of the run, each over the one before, all that returned Ok without failing among them and none that returned an error |
| MilestoneIds.NumbersNormalize | crates/mp/src/paths.rs:225-261 | "M1", "m1", "1" and "01" normalize alike, for every number and any leading zeros |
| MilestoneIds.KeyLeIff | crates/mp/src/paths.rs:262-271 | keys are compared at the first place where they differ, the smaller number first, and a key that is used up comes first |
| MilestoneIds.SmallerNumberFirst | crates/mp/src/paths.rs:262-271 | milestones are ordered by their numbers |
| MilestoneIds.KeyTotal | crates/mp/src/paths.rs:262-271 | sort keys are totally ordered |
| PlanGraph.GraphIsOfMilestones | crates/mp/src/path_engine.rs:328-349 | over the milestones themselves: the graph has their ids, and as many edges between two ids as there are entries, not empty and not "none", by which a milestone of the one names the other |
| TopoSort.BuildTables | crates/mp/src/path_engine.rs:328-349 | the counters and edges are those of this graph, with multiplicity |
| TopoSort.ReleaseChildren | crates/mp/src/path_engine.rs:362-375 | each counter drops by the number of its edges, never below zero, and exactly the ids reaching zero are enqueued, once |
| TopoSort.StepKeepsFrontier | crates/mp/src/path_engine.rs:358-375 | one round keeps the queue equal to the sorted available ids and the counters equal to the unfinished dependencies |
| TopoSort.TopoSort | crates/mp/src/path_engine.rs:328-381 | every known id exactly once: a greedy dependency order, then the rest in id order |
| TopoSort.TopoSortMilestones | crates/mp/src/path_engine.rs:328-381 | over the milestones themselves: every id of the plan once; an id from which no cycle can be reached stands behind all it depends on, and before every id from which one can; on an acyclic plan the whole order is the least that puts dependencies first, and with distinct keys it is determined |
| TopoSort.AcyclicPlanOrder | crates/mp/src/path_engine.rs:351-381 | on an acyclic graph nothing is left over, and the whole result is least |
| TopoSort.PlanOrderIsUnique | crates/mp/src/path_engine.rs:351-381 | with distinct sort keys the whole result, cyclic remainder included, does not depend on hash-map iteration |
| TopoSort.GreedyIsNextFirst | crates/mp/src/path_engine.rs:358-375 | in the Kahn prefix every dependency precedes its dependents |
| TopoSort.GreedyTakesSettled | crates/mp/src/path_engine.rs:358-379 | the Kahn prefix holds exactly the ids with no cycle among their transitive dependencies |
| TopoSort.AcyclicOrderIsLeast | crates/mp/src/path_engine.rs:351-381 | on an acyclic graph the order is complete and lexicographically least of all orders that put dependencies first |
| TopoSort.GreedyIsUnique | crates/mp/src/path_engine.rs:351-375 | with distinct sort keys the Kahn prefix does not depend on hash-map iteration |
| PathPrefs.ComparatorIsTotalPreorder | crates/mp/src/path_prefs.rs:96-125 | the comparator is a total preorder, for every strategy and baseline |
| Sorting.StableSortSorted | crates/mp/src/path_prefs.rs:79 | the list is ordered by the comparator |
| Sorting.StableSortStable | crates/mp/src/path_prefs.rs:79 | milestones that compare equal keep their order |
| PathPrefs.ComparatorOrder | crates/mp/src/path_prefs.rs:96-141 | what is in progress first; under the two strategies by priority urgent before high before normal before low, anything else as normal; the baseline decides the rest, unlisted last |
| PathPrefs.SortedSteps | crates/mp/src/path_prefs.rs:74-94 | the whole step is a stable sort by the comparator, then each pin in its order, applied exactly if it names two different listed milestones, then the focus |
| PathPrefs.UnmovedInOrder | crates/mp/src/path_prefs.rs:74-94 | in the result all milestones that no pin and no focus names stand in comparator order, ties as they were ready |
| PathPrefs.ReadyList.SortReady | crates/mp/src/path_prefs.rs:74-94 | the in-place steps compute sort, pins and focus, in this order |
| PathPrefs.ReadyList.ApplyAdoptionOrder | crates/mp/src/path_prefs.rs:143-167 | the loop applies the pins one after the other |
| PathPrefs.ReadyList.ApplyFocusTo | crates/mp/src/path_prefs.rs:169-188 | the focus step, with its loss of the list when the focus is absent |
| PathPrefs.PinLands | crates/mp/src/path_prefs.rs:153-164 | an applied pin lands directly before its target and all others keep their order |
| PathPrefs.PinsPermute | crates/mp/src/path_prefs.rs:143-167 | pins lose and duplicate nothing |
| PathPrefs.FocusPermutes | crates/mp/src/path_prefs.rs:169-188 | the focus step keeps the items exactly when no focus is set, it is in the list, or the list is empty |
| PathPrefs.FocusLands | crates/mp/src/path_prefs.rs:169-188 | the focus moves to the place that counts the active milestones before it and the rest keep their order; an active focus stays where the active ones come first, and an inactive one lands right behind all active ones exactly if these come first |
| PathPrefs.FocusBeforeActive | crates/mp/src/path_prefs.rs:143-188 | after a pin the focus can land before an active milestone |
| PathPrefs.ComparatorPutsActiveFirst | crates/mp/src/path_prefs.rs:102-106 | the sort puts the active milestones first |
| PathPrefs.IndexFormSelects | crates/mp/src/path_prefs.rs:74-94 | whatever the items are that stand for milestones, they come out in the order in which the cloning form puts the milestones |
| PathPrefs.IndicesSelect | crates/mp/src/path_prefs.rs:85-94 | for indices in range of the list of milestones the result is in range, and picks what the cloning form returns |
| PathPrefs.SortedPermutes | crates/mp/src/path_prefs.rs:74-94 | the whole step permutes the ready milestones exactly when the focus is unset or present, or none is ready |
| Argv.ParseArgv | crates/mp/src/ac_verify.rs:323-403 | the loop computes the automaton's result on every command |
| Argv.AcceptedIff | crates/mp/src/ac_verify.rs:323-403 | a command is accepted exactly when no character offends where it stands, quotes and escapes are finished and there is a word |
| Argv.OperatorsAreInert | crates/mp/src/ac_verify.rs:313-403 | in an accepted command every operator is single-quoted or escaped, except line breaks between words |
| Argv.OperatorsQuotedIff | crates/mp/src/ac_verify.rs:313-403 | all operators are quoted or escaped exactly when no bare line break occurs |
| Argv.RefusedCharacters | crates/mp/src/ac_verify.rs:313-390 | the refused characters as a list, for each way of standing in the command |
| Argv.PlainWordsParse | crates/mp/src/ac_verify.rs:361-397 | without quotes, backslashes and operators a command falls apart exactly at its whitespace, whatever it is |
| Argv.BackslashedParses | crates/mp/src/ac_verify.rs:371-382 | outside quotes a backslash makes any character but a line break part of the word |
| Argv.DoubleQuotedParses | crates/mp/src/ac_verify.rs:339-359 | any text without operators can be written in double quotes |
| Argv.LineFeedSeparates | crates/mp/src/ac_verify.rs:361-366 | a bare line feed is accepted |
| Argv.ArgumentsAreLiterals | crates/mp/src/ac_verify.rs:323-403 | the arguments hold exactly the literal characters of the command, in order |
| Argv.QuotedLineParses | crates/mp/src/install.rs:1995-1997 | any non-empty list of strings, quoted and joined by spaces, parses back to itself |
| Calendar.CivilIsCounted | crates/mp-model/src/datetime.rs:127-135 | the closed formula is the number of days counted on the calendar, for every year, without unsigned underflow |
| Calendar.NextDayCountsOne | crates/mp-model/src/datetime.rs:113-135 | each calendar successor is one day later |
| Calendar.EarlierIsLess | crates/mp-model/src/datetime.rs:127-135 | day numbers are strictly monotone |
| Calendar.EveryDayHasDate | crates/mp-model/src/datetime.rs:127-135 | every integer is the number of a valid date |
| Calendar.EpochIsDayZero | crates/mp-model/src/datetime.rs:127-135 | 1970-01-01 is day zero |
| Rfc3339.ParseRfc3339 | crates/mp-model/src/datetime.rs:31-101 | parsing succeeds exactly on the printed form of a valid date-time of sections 5.6 and 5.7 of RFC 3339, seconds at most 59, and yields its instant |
| Rfc3339.UnixSeconds | crates/mp-model/src/datetime.rs:92-100 | no overflow branch is ever taken and the value is the counted instant |
| Rfc3339.OffsetShifts | crates/mp-model/src/datetime.rs:72-100 | the instant of a time with offset +hh:mm is that of the same fields with Z, less hh:mm; with -hh:mm, plus hh:mm |
| Rfc3339.FieldsCount | crates/mp-model/src/datetime.rs:92-100 | each field counts what it should |
| Rfc3339.ExampleReads | crates/mp-model/src/datetime.rs:31-101 | the first example of section 5.8 of RFC 3339, with its Unix time |
| Rfc3339.RecognizedIff | crates/mp-model/src/datetime.rs:31-90 | the scan recognizes a date-time exactly from its printed form |
| Rfc3339.EveryInstantPrints | crates/mp-model/src/datetime.rs:72-100 | every instant, with every offset that leaves a four-digit year, can be printed and parses back |
| DeltaEdits.NextReqIdIsFresh | crates/mp/src/delta.rs:177-185 | when a generated id is new, exactly |
| DeltaEdits.NextReqIdIsNext | crates/mp/src/delta.rs:177-185 | the generated number is the next after all in use |
| DeltaEdits.MergeIff | crates/mp/src/delta.rs:112-134 | the edits succeed with a list exactly if it is the merge: the requirements not removed, in their order, the first of each id with the statement of its last modification, all targets among them; then the additions one by one, each under its own or the next free id, which must be new |
| DeltaEdits.MergeKeepsDistinct | crates/mp/src/delta.rs:112-134 | distinct ids stay distinct |
| DeltaEdits.SetStatementsMeans | crates/mp/src/delta.rs:116-123 | modifications succeed exactly when all targets remain, change the first requirement of an id, and leave the rest unchanged |
| DeltaMerge.DeltaStore.ValidateDelta | crates/mp/src/delta.rs:8-94 | no error exactly when every gate passes |
| DeltaMerge.DeltaStore.MergeDelta | crates/mp/src/delta.rs:96-141 | all edits or none reach the store |
| DeltaMerge.DeltaStore.RebaseDelta | crates/mp/src/delta.rs:143-157 | the base becomes the current version and nothing else changes |
| DeltaMerge.MergeWrites | crates/mp/src/delta.rs:96-141 | of the files: a merge succeeds exactly if the spec loads, the base is its version, everything removed is there and the merge of its requirements exists; then the file of the stored id holds that merge and all else stays |
| DeltaMerge.MergeRaisesVersion | crates/mp/src/delta.rs:56-138 | a merge succeeds only from the current version; it writes the version after it, up to the maximum, to the file of the stored id and changes nothing else |
| DeltaMerge.MergesAgainIffMisnamed | crates/mp/src/delta.rs:96-141 | below the maximal version a delta merges again at once exactly if the file of its domain holds another id |
| DeltaMerge.MisnamedSpecMergesTwice | crates/mp/src/store.rs:532-552 | specs/a.json with the id "b": a delta on "a" merges twice from version 1 |
| DeltaRuns.MergesOnceIffGuarded | crates/mp/src/delta.rs:96-157 | for which spec files two deltas on one base never both merge without a rebase, over all deltas and all runs, as an exact condition on the files |
| DeltaRuns.NoSecondMerge | crates/mp/src/delta.rs:96-157 | its safe half: if the file of the domain holds its own id and no file that holds it is behind the base, which is below the maximum |
| DeltaRuns.FileBehindReopens | crates/mp/src/store.rs:532-552 | its other half: from any file behind the base a run of one merge from there, then rebases and merges, lets the second delta merge |
| DeltaRuns.ForeignSpecSetsBack | crates/mp/src/store.rs:532-552 | a second file with the id of the domain, at version 4, reopens base 5 |
| DeltaRuns.SaturatedVersionMergesTwice | crates/mp/src/delta.rs:136 | at the maximal version one delta merges twice |
| DeltaRuns.RebasedUntilMoved | crates/mp/src/delta.rs:143-157 | after a rebase the version gate passes through any run until some merge writes the domain, and below the maximal version with no file behind exactly until then |
| CommandCache.Verifier.RunOne | crates/mp/src/ac_verify.rs:1035-1094 | a cached command is not executed again and its verdict is that of executing it |
| CommandCache.Verifier.VerifyMilestone | crates/mp/src/ac_verify.rs:1177-1321 | criteria then steps through one cache: a runnable command passes exactly if it ran and exited with zero, the counts are those of the classified and the failing commands, ok means none fails, all as without cache, and each distinct runnable command is executed exactly once |
| CommandCache.SummaryPartitions | crates/mp/src/ac_verify.rs:1297-1321 | the counts partition the results and ok means no runnable failed |
| SkillDeploy.MirrorTree | crates/mp/src/install.rs:2040-2079 | Ok makes the destination equal the source, whatever it held |
| SkillDeploy.MirrorableByPaths | crates/mp/src/install.rs:2040-2079 | it fails exactly if some file of the destination stands where the source has a directory |
| SkillDeploy.SkippedIff | crates/mp/src/install.rs:30-72 | which names are left out: dotfiles, four names, and three endings whatever their case |
| SkillDeploy.FilteredByPaths | crates/mp/src/install.rs:1611-1658 | the filtered tree has at a path exactly what the source has there, contents included, if no name on the path is left out |
| SkillDeploy.DeploySkill | crates/mp/src/install.rs:1544-1573 | the destination becomes the source path by path, contents included, without the names left out, whatever directory it was; it stays as it is exactly if there is no source directory or it is a regular file, which cannot be removed as a directory |
| SkillDeploy.CollectSkillDrift | crates/mp/src/install.rs:1092-1163 | exactly the differences are reported |
| SkillDeploy.DriftsByPaths | crates/mp/src/install.rs:1092-1163 | the warnings are exactly the missing, stale and mistyped entries of directories at the same path in both trees |
| SkillDeploy.NoDriftIffSameSkeleton | crates/mp/src/install.rs:1092-1163 | nothing is reported exactly when the trees agree in names and kinds outside the filter |
| SkillDeploy.DeployedHasNoDrift | crates/mp/src/install.rs:1544-1658 | a fresh deployment shows no drift |
| SkillDeploy.DeployThenDrift | crates/mp/src/install.rs:1092-1573 | after an attempt to deploy over any destination nothing is reported exactly if it went through |
| SkillDeploy.FileBarsDeployment | crates/mp/src/install.rs:1566-1569 | a regular file at the destination survives |
| Lifecycle.RunsAreConsistent | crates/mp-model/src/milestone.rs:221-371 | on every run without raw migration blocked and deferred never hold together, and the pre-state is there exactly in remediation |
| Lifecycle.PhaseChangesIff | crates/mp-model/src/milestone.rs:238-371 | for every phase, by which events and from which phases it is entered |
| Lifecycle.OverlayChanges | crates/mp-model/src/milestone.rs:238-371 | for every overlay, which events set and clear it |
| Lifecycle.RefusedIff | crates/mp-model/src/milestone.rs:226-371 | when an event that changes no phase is refused |
| Lifecycle.CancelledIsAbsorbing | crates/mp-model/src/milestone.rs:229-236 | once cancelled, every ordinary event is refused |
| Lifecycle.ExitRestoresEntry | crates/mp-model/src/milestone.rs:320-339 | leaving a remediation restores the phase in which it was entered, whatever happened inside, unless cancelled |
| Lifecycle.CompleteOverlaysComeFromRemediation | crates/mp-model/src/milestone.rs:277-339 | a completed milestone is blocked or deferred exactly if that was set inside a remediation entered from Complete and has stayed set ever since |
| Lifecycle.ReadsBackUnlessCancelledDraft | crates/mp-model/src/milestone.rs:150-169 | writing a state and reading it gives it back, for all but cancelled drafts |
| Lifecycle.StatusesIdentifyPhase | crates/mp-model/src/milestone.rs:449-678 | the pair of older statuses alone reads back as the phase, a remediation as work in progress |
| Lifecycle.LegacyNamesRead | crates/mp-model/src/milestone.rs:96-148 | which lifecycle names can be read, the older ones as what they became |
| Lifecycle.PersistedRunIsRun | crates/mp/src/milestone/spec.rs:540-563 | re-reading the file before each event changes no run |

## Left out

- Rollback: I/O faults other than a directory in place of a file are not modelled, nor a panic during the mutation, which drops the handle without a first attempt.
- Commit: writing the seal always succeeds; permissions, `fsync`, symbolic links and foreign files in the transaction root are not part of this model.
- Begin: which paths are too long or not UTF-8 is not modelled; the error can occur at any time after staging. Manifest versions and limits on reading it are not modelled.
- CreateParents: a missing parent directory is created one level per step; temporary files of an interrupted atomic write are not part of the tree.
- CompileSchema: numbers are exact, so the rounding of large integers to floating point in `minimum` is not modelled; nor is the 64-bit limit of counts. As in the program, a count written 2.0 is refused.
- Violates: regular expressions are an oracle.
- MirrorTree: the destination that a failing call leaves half changed is not described; trees are values, so aliasing and symbolic links are not captured.
- DeploySkillFiles: file modes, and the project-local deployment by symbolic links.
- RunOne: classification and execution are given functions of the command, so processes, time limits, repository trust and cancellation are not modelled; the exit code in the wording of a note is dropped.
- MergedSpec: domain titles, dates and scenarios.
- OtherForm: an integer outside the 64-bit range is stored as a float by the program's parser, so that the list [1e20] allows 100000000000000000000 as it should; exact numbers call this list not closed.
- PercentDecoded: octets beyond ASCII give no result; names that hold any escape are outside the theorems about meaning.
- AcceptedIsValid: for a schema with an `enum` that is not closed, which instances besides are refused depends on the other keywords; only the direction from acceptance to validity is claimed there.
- NextReqId: a debug build would stop at the overflow instead of wrapping.
- Transition: the wording of errors, and the derived review states.
- Building the path (`build_path`), step dependencies, grooming and review lanes: they filter and project what the ordering delivers.
- JSON text parsing, configuration, git, activity and the command layer.
