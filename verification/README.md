# Planning and finance engines, verified

A Dafny model of the pure engines behind the backend catalogue, with proofs of what they promise. `dafny verify
dfyconfig.toml` checks everything. Code that updates state in the original is modelled by methods and classes with
loops and fields; the functions those are proved against carry the theorems.

* **Critical path** (`PrecedenceGraph`, `KahnSort`, `CpmSchedule`, `CpmTheorems`, `CriticalPath`,
  `CriticalActivities`): Kahn's sort over mutable in-degrees and a queue, the two passes, float, criticality and
  cycles. The answer is optimal, float and sensitivity have their exact meaning, and what is left out is exactly
  what lies on or after a cycle.
* **Type-to-schema compiler** (`JsonSchema`, `ContractTypes`, `ContractSchema`, `ContractSoundness`,
  `ContractExactness`, `ContractLimits`, `ContractBookkeeping`, `ContractGenerator`): a small TypeScript type
  language with a semantics, JSON Schema draft 2020-12 validation (sections 8.2.3.1, 10.2.1.2, 10.3.1.2, 10.3.2.1
  and 10.3.2.3 of the core specification, sections 6.1.1, 6.1.2, 6.1.3 and 6.5.3 of the validation specification),
  and the converter between them. Recursive references are handled by bounding how many are followed; validity means
  valid for some bound.
* **Constraint floors** (`DefConstraints`, `RuleRecords`, `FloorRelaxations`, `ConstraintEvaluation`,
  `ViolationReports`, `ConstraintFloors`, `RestatedFloors`, `ContainerConstraints`): reading rules, folding them
  down a lineage, tighten only, and evaluating them.
* **Definition composition** (`DefCompose`, `ElementNames`, `MergeAlgebra`, `MergeLaws`, `MergeAssociativity`,
  `DefLineage`): the deep merge and its laws, the `extends` chain.
* **Duplicate clustering** (`UnionFind`, `DemandDedup`, `DuplicatePairs`, `DedupTheorems`): Jaccard pairs and an
  in-place union-find with path compression.
* **Hierarchy roll-up** (`Hierarchy`, `PlainRollup`, `HierarchyFold`, `HierarchyRollup`, `HierarchyReport`,
  `HierarchyMeans`): the memoised, cycle-breaking fold against a plain recursion. On any input every item that is
  not its own ancestor gets the value of the plain recursion.
* **Depreciation** (`Months`, `Depreciation`, `DepreciationSchedule`, `DepreciationPeriods`, `SalvageFloor`,
  `AssetJournals`): schedules, rounding residuals and journals. Money is counted in cents, so rounding to two places
  is rounding to a whole number.
* **Consolidation** (`Currency`, `Measures`, `MeasureRecords`, `ConsolidationTotals`, `DerivedReading`,
  `Consolidation`, `ConsolidatedReport`, `ConsolidatedRows`): folding projects into group rows and a grand total
  across currencies.
* **Refresh coalescing** (`RefreshProtocol`, `RefreshTheorems`): the in-flight/queued protocol as a state machine
  over every interleaving of requests, file changes, discoveries, throws and failed writes.
* **Flow series** (`FlowLanes`, `FlowMetrics`, `FlowRecords`) and **field sanitising** (`HtmlEscaping`,
  `FieldSanitising`, `SanitiseSteps`, `StoredValues`).
* Shared: `Ids`, `Options`, `Json`, `OrderedMaps`, `Sorting`, `Rounding`, `WhiteSpace`.

Where the original and its own documentation part, the model follows the code and says when each holds:

* The merge replaces "id-less arrays" whole, but an empty child array counts as keyed and leaves a keyed base as it
  is (`MergeLaws.EmptyChildArrayKeepsBase`; `IdLessArrayReplaces` says exactly when the base is replaced).
* A floor restated with another filter, field or exception list is always enforced as restated for `bound` and
  `enum` rules. A `unique` restatement is dropped without a report if it changes the field, or omits `except` where
  the introducing rule has exceptions; a `cardinality` restatement, if its filter can count fewer than its `min` or
  more than its `max` while the introducing filter stays within both (`RestatedFloors.RestatementEnforced`).
* Depreciation "never takes NBV below salvage", but straight line, sum of years and units of production all ignore
  an opening accumulation, and rounding up a small base can make the last period of the first two negative
  (`EvenMethodsNeverPassSalvage`, `UnitsNeverPassSalvage`, `StraightLineSign`, `SumOfYearsSign`).
* The disposal entry "balances by construction" only under the condition of `AssetJournals.BalancedExactly`.
* Derived consolidation metrics may name "earlier-declared" keys, but only measures are read. A specification is
  read as documented exactly if every earlier metric it names, and that is no measure, is never anything but null or
  zero (`DerivedReading.SpecReadsAsDocumentedIff`, `EarlierMetricReadsZero`).
* Index signatures are skipped and `undefined` is dropped from unions. Of the object types with supported property
  types and at least one value, the schema refuses some value exactly of the closed ones with an index signature and
  of those with a required key that may be `undefined` (`ContractLimits.ObjectSoundIffFits`).
* A refresh queued behind a discovery that throws is lost, and a failed write is not tried again until the disk
  changes (`ThrowLosesRequest`, `FailedWriteStays`; `FreshIffLanded` and `LandedAndWrittenIsInSync` say when an idle
  plugin is fresh and in sync).
* Flow buckets miss work completed before a boundary at which it was not created yet (`ThroughputConserved`).

## Model
| member | source | states |
|---|---|---|
| PrecedenceGraph.BuildGraph | lib/backend-catalogue/src/critical-path.ts:65-79 | the graph holds exactly the counted edges (both ends known, different, repeats dropped), ids in first-appearance order, each duration that of the last record with the id, clamped at 0, and successors in the order the edges name them |
| PrecedenceGraph.WalkJoin | lib/backend-catalogue/src/critical-path.ts:75-79 | walks along edges compose, so 'after a cycle' is transitive |
| KahnSort.Release | lib/backend-catalogue/src/critical-path.ts:90-93 | lowering the in-degrees of a processed id's successors keeps every in-degree equal to its unprocessed predecessors and queues exactly the ids that reach zero, in successor order |
| KahnSort.Sort | lib/backend-catalogue/src/critical-path.ts:81-94 | the loop ends with a duplicate-free order in which predecessors come first, everything left out is blocked by something left out, and ids leave in the order they were queued |
| KahnSort.FifoIsUnique | lib/backend-catalogue/src/critical-path.ts:84-94 | a graph has only one topological order that is first in, first out, so the sort has one answer |
| KahnSort.ScheduledWalkClimbs | lib/backend-catalogue/src/critical-path.ts:87-94 | every walk ending on a scheduled activity climbs strictly through the order |
| KahnSort.BackwardsIntoCycle | lib/backend-catalogue/src/critical-path.ts:95-97 | walking back from a left-out activity must close a cycle |
| KahnSort.UnscheduledIffCycle | lib/backend-catalogue/src/critical-path.ts:95-97 | an activity is left out if and only if it lies on a cycle or after one |
| KahnSort.ShortOrderIffCycle | lib/backend-catalogue/src/critical-path.ts:95 | the order is shorter than the id list if and only if the deduplicated graph has a cycle |
| CpmSchedule.ForwardPass | lib/backend-catalogue/src/critical-path.ts:99-109 | es and ef solve the forward equations: start is the greatest predecessor finish or 0, finish is start plus duration |
| CpmSchedule.EarliestStart | lib/backend-catalogue/src/critical-path.ts:103-106 | the inner loop yields a start no predecessor finishes after, attained or 0 |
| CpmSchedule.ProjectEnd | lib/backend-catalogue/src/critical-path.ts:110 | the project end is the greatest earliest finish, 0 when nothing is scheduled |
| CpmSchedule.BackwardPass | lib/backend-catalogue/src/critical-path.ts:112-123 | ls and lf solve the backward equations over scheduled successors |
| CpmSchedule.LatestFinish | lib/backend-catalogue/src/critical-path.ts:117-120 | the inner loop yields the least scheduled successor's latest start, or the project end |
| CpmTheorems.EarliestIsLeast | lib/backend-catalogue/src/critical-path.ts:99-109 | no feasible schedule starts any activity before es or ends before ef |
| CpmTheorems.LatestIsGreatest | lib/backend-catalogue/src/critical-path.ts:112-123 | no feasible schedule that finishes on time starts any activity after ls |
| CpmTheorems.NothingIsShorter | lib/backend-catalogue/src/critical-path.ts:110 | no feasible schedule finishes before projectDuration |
| CpmTheorems.EarliestIsFeasible | lib/backend-catalogue/src/critical-path.ts:99-110 | the es schedule respects every edge and finishes by projectDuration |
| CpmTheorems.LatestIsFeasible | lib/backend-catalogue/src/critical-path.ts:112-123 | the ls schedule respects every edge and finishes by projectDuration |
| CpmTheorems.EndIsHeaviest | lib/backend-catalogue/src/critical-path.ts:110 | projectDuration is the weight of the heaviest scheduled walk, attained |
| CpmTheorems.WalksToFit | lib/backend-catalogue/src/critical-path.ts:99-109 | every scheduled walk to an activity weighs at most its ef |
| CpmTheorems.WalksFromFit | lib/backend-catalogue/src/critical-path.ts:112-123 | every scheduled walk from an activity weighs at most projectDuration less its ls |
| CpmTheorems.FloatIsSlack | lib/backend-catalogue/src/critical-path.ts:128 | float is never negative and is exactly projectDuration less the heaviest scheduled walk through the activity |
| CpmTheorems.CriticalChain | lib/backend-catalogue/src/critical-path.ts:127-141 | a non-empty schedule has an edge-connected chain of zero-float activities, without gaps, from time 0 to projectDuration |
| CpmTheorems.Sensitivity | lib/backend-catalogue/src/critical-path.ts:112-141 | lengthening a scheduled activity by d moves the project end by exactly max(0, d - float) |
| CpmTheorems.SolutionIsUnique | lib/backend-catalogue/src/critical-path.ts:99-123 | two solutions of one graph schedule the same activities at the same times, whatever topological order they were computed in |
| CriticalPath.CriticalPath | lib/backend-catalogue/src/critical-path.ts:64-144 | the result reports a schedule solving the equations of the graph the inputs describe, with the cycle flag, the left-out list and the critical list, in queue order |
| CriticalPath.AnswerIsDetermined | lib/backend-catalogue/src/critical-path.ts:64-144 | the inputs determine the whole answer; the numbers do not even depend on the order chosen |
| CriticalPath.AnswerIsOptimal | lib/backend-catalogue/src/critical-path.ts:99-123 | both reported schedules are feasible, none is shorter, and every on-time schedule lies between them at every activity |
| CriticalPath.AnswerFloat | lib/backend-catalogue/src/critical-path.ts:57-129 | the reported float is the slack of the heaviest walk through the activity, and critical means a float of at most 1e-9 |
| CriticalPath.AnswerHasCriticalChain | lib/backend-catalogue/src/critical-path.ts:127-143 | the reported critical activities contain an unbroken chain from 0 to projectDuration |
| CriticalPath.AnswerSensitivity | lib/backend-catalogue/src/critical-path.ts:64-144 | solving again with one activity d longer reports projectDuration plus max(0, d - float) |
| CriticalPath.LeftOutMeaning | lib/backend-catalogue/src/critical-path.ts:95-97 | hasCycle and unscheduled mean: there is a cycle; on or after one |
| CriticalActivities.CriticalIffOnHeaviestWalk | lib/backend-catalogue/src/critical-path.ts:57-141 | with durations in whole units of anything above a billionth, an activity is critical, and listed, if and only if one of the heaviest walks of all passes through it |
| CriticalActivities.RowAddsUp | lib/backend-catalogue/src/critical-path.ts:65-139 | a scheduled activity is reported under its id with the clamped duration of its last record; finishes are starts plus that, float is latest less earliest start |
| CriticalActivities.ListsKeepOrder | lib/backend-catalogue/src/critical-path.ts:97-140 | criticalPath keeps the order of the schedule and unscheduled that of the records |
| JsonSchema.ValidMore | scripts/src/gen-contract.ts:153-170 | following more references never rejects a value, so validity under recursive $ref is well defined |
| JsonSchema.ReferenceUnfolds | scripts/src/gen-contract.ts:153-170 | a bare $ref accepts exactly what the definition it names accepts |
| ContractSchema.MentionsAreReferenced | scripts/src/gen-contract.ts:153-170 | every $ref that survives into a schema was recorded as referenced |
| ContractSchema.NoDanglingReferences | scripts/src/gen-contract.ts:301-308 | when every recorded name is defined, no emitted $ref dangles |
| ContractBookkeeping.FlaggedExactly | scripts/src/gen-contract.ts:75-174 | the flags of a type are one for each visited node that cannot be mapped, in visiting order, with the path to it |
| ContractBookkeeping.RecordedExactly | scripts/src/gen-contract.ts:153-170 | a name is recorded if and only if some visited node refers to it and it is no parameter in scope, not Date or Record, and not Array with an argument |
| ContractBookkeeping.NeverRecorded | scripts/src/gen-contract.ts:155-162 | parameters in scope, Date and Record are never recorded, whatever the type |
| ContractBookkeeping.QuietIffMappable | scripts/src/gen-contract.ts:75-173 | a type raises no flag if and only if every node of it the converter comes to can be mapped |
| ContractBookkeeping.ContractFlags | scripts/src/gen-contract.ts:288-299 | over all declarations, each with its own parameters, the flags are those of all nodes in file order |
| ContractBookkeeping.ContractNames | scripts/src/gen-contract.ts:288-299 | and a name is recorded if and only if some declaration refers to it |
| ContractBookkeeping.PropertyDescribed | scripts/src/gen-contract.ts:179-186 | a property's schema carries the comment of its last signature, and no description without one |
| ContractBookkeeping.DefinitionDescribed | scripts/src/gen-contract.ts:205-219 | a definition carries its declaration's comment, and the default Row says what it is |
| ContractBookkeeping.MarkedIffDate | scripts/src/gen-contract.ts:129-162 | a schema is marked date-time if and only if its type is Date, in parentheses or next to undefined or not; next to null or another type the mark is lost |
| ContractBookkeeping.LiteralsEnumerated | scripts/src/gen-contract.ts:134-138 | a union of text literals is the enum of those texts in order, null last |
| ContractBookkeeping.UnmappedIsPermissive | scripts/src/gen-contract.ts:112-173 | what cannot be mapped is compiled to the schema that accepts everything |
| ContractSoundness.ConvertSound | scripts/src/gen-contract.ts:75-174 | every JSON inhabitant of a supported type validates against its schema, by induction over types and unfoldings |
| ContractSoundness.MembersSound | scripts/src/gen-contract.ts:176-191 | an object of the member types validates against the object schema, open or closed |
| ContractSoundness.UnionSound | scripts/src/gen-contract.ts:123-151 | whatever a branch of a union accepts, the enum, collapsed type or anyOf accepts |
| ContractSoundness.BranchAccepted | scripts/src/gen-contract.ts:132-150 | what one branch's schema accepts, the union's schema accepts, nullable or not |
| ContractSoundness.NamedSound | scripts/src/gen-contract.ts:153-170 | a value of a named type, generic arguments included, validates against the reference to it |
| ContractSoundness.NeverUndefined | scripts/src/gen-contract.ts:126-129 | a supported type outside an optional property's union has no undefined inhabitant |
| ContractSoundness.CompilationIsSound | scripts/src/gen-contract.ts:75-220 | schema compilation is sound under the emitted $defs, recursive references and type parameters included |
| ContractExactness.ConvertExact | scripts/src/gen-contract.ts:75-174 | when a type and every declaration it reaches are exact, what validates inhabits the type; unreached declarations, generic ones included, do not matter |
| ContractExactness.UnionExact | scripts/src/gen-contract.ts:123-151 | likewise a union's schema accepts only what some branch or null accounts for |
| ContractExactness.BranchFound | scripts/src/gen-contract.ts:132-150 | a value a union's schema accepts is null, if nullable, or accepted by one branch's schema |
| ContractExactness.MembersExact | scripts/src/gen-contract.ts:176-191 | likewise an accepted object is a value of the member types |
| ContractExactness.CompilationIsExact | scripts/src/gen-contract.ts:75-220 | in a supported contract a value of a type that is exact with all it reaches inhabits it if and only if it validates |
| ContractLimits.ObjectSoundIffFits | scripts/src/gen-contract.ts:176-191 | an object type of supported property types is compiled soundly if and only if it has no values, or nothing is skipped that a closed schema would have to allow and no required key may be undefined by every declaration of it |
| ContractLimits.MisfitRefused | scripts/src/gen-contract.ts:176-191 | otherwise any value of the type, changed in one key, is a value the schema refuses |
| ContractLimits.RequiredUndefinedIsUnsound | scripts/src/gen-contract.ts:126-129 | one type that does not fit: a required property of type string or undefined, and the value {} the schema refuses |
| ContractLimits.IndexSignatureIsUnsound | scripts/src/gen-contract.ts:180 | one type that does not fit: an index signature, skipped, and a key it allows that the closed schema refuses |
| ContractLimits.ArrayUnionExactIffUniversal | scripts/src/gen-contract.ts:141-146 | a union of array types with exact elements that collapses to a bare array accepts only its values if and only if one of them has elements of every kind |
| ContractLimits.CollapsedArraysAreWidened | scripts/src/gen-contract.ts:141-146 | one input: string[] or number[] accepts an array of null |
| ContractGenerator.Generator.Convert | scripts/src/gen-contract.ts:75-174 | the walker returns the schema of the type and adds exactly its references and flags to the module state |
| ContractGenerator.Generator.ConvertUnionNode | scripts/src/gen-contract.ts:123-151 | null and undefined are filtered out and the single branch, enum, bare type or anyOf is chosen, bookkeeping included |
| ContractGenerator.Generator.ObjectFromMembers | scripts/src/gen-contract.ts:176-191 | properties, required list and additionalProperties are those of the member list, later properties replacing earlier ones |
| ContractGenerator.Generator.Handle | scripts/src/gen-contract.ts:193-220 | a declaration stores its schema under its name, its type parameters in scope while it is converted |
| ContractGenerator.Generator.Generate | scripts/src/gen-contract.ts:288-308 | the top level fills $defs with every declaration, defaults Row, and appends to the node flags exactly one flag for each referenced name left undefined, and nothing else |
| DefConstraints.NothingMissing | lib/backend-catalogue/src/def-constraints.ts:121-123 | the added list is empty if and only if the restated list is contained in the ancestor's |
| DefConstraints.FoldConstraints | lib/backend-catalogue/src/def-constraints.ts:97-138 | the loop returns the effective rules in order of first appearance and the relax errors of the rule-by-rule fold, which FloorRelaxations spells out |
| DefConstraints.FoldValid | lib/backend-catalogue/src/def-constraints.ts:98-134 | the effective map files every rule under its own id |
| RuleRecords.CoercesExactly | lib/backend-catalogue/src/def-constraints.ts:61-79 | a record is read as a rule if and only if it says that rule, property by property; anything else, a blank id or an unknown type included, is no rule |
| FloorRelaxations.CleanIffNothingRelaxed | lib/backend-catalogue/src/def-constraints.ts:105-134 | that is: every later floor keeps kind, shape and path, raises no max, lowers no min, adds no exception and no value over any earlier one since the floor was introduced |
| FloorRelaxations.FirstOffenderIsNamed | lib/backend-catalogue/src/def-constraints.ts:105-134 | the first rule that relaxes a floor is reported under its id and with its cause, added entries included |
| ConstraintEvaluation.EvaluateConstraints | lib/backend-catalogue/src/def-constraints.ts:141-182 | the evaluator's report is the concatenation of each rule's violations |
| ConstraintEvaluation.CheckUnique | lib/backend-catalogue/src/def-constraints.ts:156-167 | counting in an ordered map reports each repeated value once, in order of first appearance |
| ConstraintEvaluation.UniqueReport | lib/backend-catalogue/src/def-constraints.ts:151-167 | the uniqueness report is empty if and only if the tracked values are pairwise different |
| ConstraintEvaluation.ViolationsMeaning | lib/backend-catalogue/src/def-constraints.ts:141-182 | a rule reports nothing if and only if the definition meets it (cardinality, unique, enum, bound) |
| ConstraintEvaluation.EvaluationMeaning | lib/backend-catalogue/src/def-constraints.ts:141-182 | the evaluator is silent if and only if every constraint is met |
| ViolationReports.PathIsRead | lib/backend-catalogue/src/def-constraints.ts:82-89 | a path is read segment by segment between its dots, own properties only, and leads nowhere once one is missing |
| ViolationReports.ReportTells | lib/backend-catalogue/src/def-constraints.ts:141-182 | a violation is reported if and only if it breaks the rule the way it says: below the min or above the max with the true count or value, a repeated value with how often it occurs, a value not allowed, or no number, under the rule's id and with its message |
| ViolationReports.ReportedInOrder | lib/backend-catalogue/src/def-constraints.ts:151-167 | repeated values are reported once each in the order in which they first come up |
| ViolationReports.ReportsJoin | lib/backend-catalogue/src/def-constraints.ts:141-182 | rules are reported on one after the other in the order given |
| ConstraintFloors.MergeConjoins | lib/backend-catalogue/src/def-constraints.ts:109-134 | a floor merged without complaint means exactly both rules together |
| ConstraintFloors.EffectiveMeaning | lib/backend-catalogue/src/def-constraints.ts:97-138 | after a clean fold an id's effective rule demands exactly what its rules demand down the lineage |
| ConstraintFloors.DemandsFloor | lib/backend-catalogue/src/def-constraints.ts:105-134 | what is demanded of an id includes the floor exactly as its introducing node stated it |
| ConstraintFloors.DemandsRestated | lib/backend-catalogue/src/def-constraints.ts:105-134 | what is demanded of an id includes the floor as introduced and each restatement, read with the introducing filter and field |
| ConstraintFloors.ComposedConstraintErrors | lib/backend-catalogue/src/def-constraints.ts:189-192 | no composition error if and only if no floor was relaxed and every demand is met; otherwise one error per cause |
| ConstraintFloors.PassesMeaning | lib/backend-catalogue/src/def-constraints.ts:189-192 | passing is the same as a clean fold and a silent evaluation |
| ConstraintFloors.FloorsSurvive | lib/backend-catalogue/src/def-constraints.ts:97-192 | for lineages of any length, a definition that passes meets every floor as its introducing node stated it |
| RestatedFloors.RestatementEnforced | lib/backend-catalogue/src/def-constraints.ts:105-134 | a restatement the fold accepts is enforced as stated, in every lineage and for every passing definition, if and only if: bound and enum, always; unique, the field is kept and no exceptions are left unlisted; cardinality, each given bound is covered by how the two filters compare, or no count fits at all |
| RestatedFloors.DroppedSilently | lib/backend-catalogue/src/def-constraints.ts:109-134 | otherwise some definition passes that breaks the restatement as it was written, for every such pair of rules |
| RestatedFloors.NarrowerMeaning | lib/backend-catalogue/src/def-constraints.ts:145-147 | comparing two filters by their text is comparing the elements they let through |
| RestatedFloors.RestatedFilterIsIgnored | lib/backend-catalogue/src/def-constraints.ts:109-134 | one input: a field count restated as a title count lets a form without a title pass |
| ContainerConstraints.CoerceEncode | lib/backend-catalogue/src/def-constraints.ts:61-79 | coercing the plain record of a well-formed rule gives that rule back |
| ContainerConstraints.RootFloorsMeaning | lib/backend-catalogue/src/container-constraints.ts:17-22 | the four form floors together say: a field, one title, distinct keys, distinct targets apart from description and labels |
| ContainerConstraints.FormFloorsBind | lib/backend-catalogue/src/container-constraints.ts:17-31 | with the form root list first, a definition that passes has that shape whatever the forks below declare |
| ContainerConstraints.RootIdsDiffer | lib/backend-catalogue/src/container-constraints.ts:17-22 | the root floors have distinct ids, so each is introduced by the root |
| UnionFind.TagsMerge | lib/backend-catalogue/src/demand-dedup.ts:84-87 | joining the two classes of a link keeps the labels equal exactly on connected ids |
| UnionFind.CompressKeeps | lib/backend-catalogue/src/demand-dedup.ts:80-81 | pointing an id at its root keeps the parent forest acyclic and every root where it was |
| UnionFind.HangKeeps | lib/backend-catalogue/src/demand-dedup.ts:86 | hanging one root below another keeps the forest acyclic and moves exactly that class |
| UnionFind.Forest.Find | lib/backend-catalogue/src/demand-dedup.ts:77-83 | find ends at the id's root; compression changes parents only to roots, and no root |
| UnionFind.Forest.Union | lib/backend-catalogue/src/demand-dedup.ts:84-87 | a union gives the first id's class the second's root and changes no other class |
| DemandDedup.Jaccard | lib/backend-catalogue/src/demand-dedup.ts:64-71 | looping over the smaller set yields the score and the sorted shared tokens of the two sets |
| DemandDedup.JaccardMeaning | lib/backend-catalogue/src/demand-dedup.ts:64-71 | the score is the size of the intersection over the size of the union, 0 for an empty side, within [0,1]; shared is the intersection in order |
| DemandDedup.JaccardSymmetric | lib/backend-catalogue/src/demand-dedup.ts:64-71 | score and shared tokens do not depend on which side comes first |
| DemandDedup.PairsMembers | lib/backend-catalogue/src/demand-dedup.ts:113-124 | a pair is reported if and only if two of the items form it; DuplicatePairs says when they do |
| DuplicatePairs.ReportedIffAlike | lib/backend-catalogue/src/demand-dedup.ts:64-122 | two items are reported, the smaller id first, if and only if they share a token and the shared ones are at least the clamped threshold's part (0.5 unless given) of all their tokens; the pair tells the shared tokens in order and that part to four places |
| DuplicatePairs.PairsInOrder | lib/backend-catalogue/src/demand-dedup.ts:118-124 | every pair is of two items, and pairs come with similarity not rising, ties in order of the ids |
| Sorting.StrLessMeaning | lib/backend-catalogue/src/demand-dedup.ts:69 | texts are ordered by the first character in which they differ, a beginning before what it begins |
| DemandDedup.Cluster | lib/backend-catalogue/src/demand-dedup.ts:74-97 | union-find, grouping, dropping singletons and sorting give the sorted classes of an exact labelling of the components |
| DemandDedup.DetectDuplicateDemand | lib/backend-catalogue/src/demand-dedup.ts:103-127 | the answer holds the sorted pairs at the clamped threshold and the clusters of their links |
| DedupTheorems.ClustersAreComponents | lib/backend-catalogue/src/demand-dedup.ts:74-97 | the clusters are precisely the connected components of size at least 2, each sorted, disjoint, in order of first id |
| DedupTheorems.ClustersUnique | lib/backend-catalogue/src/demand-dedup.ts:74-97 | the set of ids and the links alone decide the clusters |
| DedupTheorems.PairsStrictlySorted | lib/backend-catalogue/src/demand-dedup.ts:124 | with distinct ids the reported pairs are strictly ordered by similarity, then ids |
| DedupTheorems.OrderFree | lib/backend-catalogue/src/demand-dedup.ts:103-127 | permuting items with distinct ids gives identical pairs and clusters |
| DedupTheorems.ClustersGrow | lib/backend-catalogue/src/demand-dedup.ts:103-127 | every cluster at a higher threshold lies inside one cluster at a lower threshold |
| DefLineage.ExtendsLineage | lib/backend-catalogue/src/def-compose.ts:20-34 | the walk terminates and answers the distinct-id chain to a root, a missing parent, or a repeat, as the catalogue has it |
| DefLineage.ClimbIsUnique | lib/backend-catalogue/src/def-compose.ts:20-34 | of two climbs from one id the shorter begins the longer |
| DefLineage.LineageIsDetermined | lib/backend-catalogue/src/def-compose.ts:20-34 | the catalogue decides the answer: the chain if it reaches a root, else the missing parent or the repeat it ends on; the three exclude each other |
| DefLineage.NamesAreRead | lib/backend-catalogue/src/def-compose.ts:18-31 | the parent a definition names is its extends, a string that is not empty |
| MergeAlgebra.MergeKeepsKey | lib/backend-catalogue/src/def-compose.ts:39-60 | merging two elements with one key keeps that key |
| MergeAlgebra.MergeObjects | lib/backend-catalogue/src/def-compose.ts:48-52 | each property of merged objects is the merge of the two sides' properties |
| MergeAlgebra.KeyedArrayOrder | lib/backend-catalogue/src/def-compose.ts:53-58 | a merged keyed array lists the base's keys in order, then the child's new keys in child order |
| MergeAlgebra.KeyedArrayElement | lib/backend-catalogue/src/def-compose.ts:53-58 | under each key a merged array holds the child's element merged onto the base's |
| MergeAlgebra.ValuesFiled | lib/backend-catalogue/src/def-compose.ts:54-57 | reading the ordered map out as an array and back loses nothing |
| ElementNames.NamedElementsMeet | lib/backend-catalogue/src/def-compose.ts:39-57 | elements of one name (the id, or the key where the id is missing or null) merge into one, elements of different names stand side by side |
| ElementNames.KeyIsTheFallback | lib/backend-catalogue/src/def-compose.ts:41-57 | elements that carry only key merge by it; an id beside it decides, unless it is null; an id that is empty or no string leaves the element nameless |
| ElementNames.NamelessReplaces | lib/backend-catalogue/src/def-compose.ts:53-59 | one nameless element on either side and the child's array replaces the base's whole |
| MergeLaws.MergeIdempotent | lib/backend-catalogue/src/def-compose.ts:46-60 | merge(x, x) = x if and only if every keyed array in x has unique keys |
| MergeLaws.MergeAbsorbs | lib/backend-catalogue/src/def-compose.ts:46-60 | merge(merge(b, c), c) = merge(b, c) when c's keyed arrays have unique keys |
| MergeLaws.AbsorbsIffClean | lib/backend-catalogue/src/def-compose.ts:46-60 | ... and for every base only then |
| MergeAssociativity.AssociatesIffMayRegroup | lib/backend-catalogue/src/def-compose.ts:46-60 | on clean values merge(merge(a, b), c) = merge(a, merge(b, c)) if and only if, place by place: where b and c mix, wherever a mixes too; where c replaces b, c already covers an a it mixes with |
| MergeAssociativity.MergeAssociative | lib/backend-catalogue/src/def-compose.ts:46-60 | so on clean values that agree in kind at shared paths, absent ones included, merge is associative |
| MergeAssociativity.KindsMustAgree | lib/backend-catalogue/src/def-compose.ts:46-60 | one input on which it is not: an unkeyed array between a keyed and an empty one |
| MergeLaws.MergeIsChild | lib/backend-catalogue/src/def-compose.ts:46-60 | on clean values the child comes out unchanged if and only if it covers the base: all its properties, all its keys as a prefix, recursively |
| MergeLaws.IdLessArrayReplaces | lib/backend-catalogue/src/def-compose.ts:53-60 | an array without keyed elements replaces the base if and only if it is not empty, or the base is not a non-empty keyed array |
| MergeLaws.EmptyChildArrayKeepsBase | lib/backend-catalogue/src/def-compose.ts:53-58 | an empty child array leaves a keyed base as it is |
| DefLineage.ComposeExtends | lib/backend-catalogue/src/def-compose.ts:70-76 | composing answers the root-to-leaf fold with the leaf-first lineage, nothing for an unknown id, or the walk's error |
| DefLineage.ComposeOntoParent | lib/backend-catalogue/src/def-compose.ts:70-76 | whatever composing a leaf and composing its parent answer, the leaf's body is the leaf merged onto the parent's, and its lineage the leaf before the parent's |
| DefLineage.ParentComposes | lib/backend-catalogue/src/def-compose.ts:70-76 | a leaf that composes has a parent that does |
| DefLineage.RootComposesToItself | lib/backend-catalogue/src/def-compose.ts:70-76 | composing a definition that extends nothing can only answer itself with a one-entry lineage |
| Hierarchy.BuildTree | lib/backend-catalogue/src/hierarchy-rollup.ts:87-121 | the first record with an id counts, an unknown or own parent makes a root, and children are listed sorted |
| Hierarchy.SiblingsApart | lib/backend-catalogue/src/hierarchy-rollup.ts:113-121 | no item lies at or below two children of one parent that is not on a cycle |
| PlainRollup.Plain | lib/backend-catalogue/src/hierarchy-rollup.ts:125-145 | the plain weighted mean of an item that is not its own ancestor lies in [0,1] |
| PlainRollup.PlainMeaning | lib/backend-catalogue/src/hierarchy-rollup.ts:129-141 | an item off cycles with weight below it shows the weighted mean of its included children, any other its own progress |
| HierarchyMeans.NothingBelowShowsOwn | lib/backend-catalogue/src/hierarchy-rollup.ts:129-137 | an item with no child that counts shows its own progress |
| HierarchyMeans.BetweenChildren | lib/backend-catalogue/src/hierarchy-rollup.ts:129-141 | with a child that counts, an item off cycles lies between the least and the greatest of those children, and shows what they all show |
| HierarchyMeans.ParentMoves | lib/backend-catalogue/src/hierarchy-rollup.ts:134-141 | when one child that counts moves by d and the others stay, its parent moves by d times its share of the counted weight |
| HierarchyMeans.OverallBetween | lib/backend-catalogue/src/hierarchy-rollup.ts:190-205 | the overall progress is absent exactly if no root counts, and otherwise the rounding of a value between those of the roots that count |
| HierarchyMeans.OverallMoves | lib/backend-catalogue/src/hierarchy-rollup.ts:190-205 | when one root that counts moves by d, the overall progress moves, before rounding, by d times its share of the roots' counted weight |
| HierarchyMeans.RecordShows | lib/backend-catalogue/src/hierarchy-rollup.ts:98-107 | the first record of an id decides: a bare status shows 0 or 1, progress is clamped, a record weighs 1 unless it says otherwise and never less than 0, and counts exactly if not cancelled and of positive weight |
| HierarchyMeans.ParentShows | lib/backend-catalogue/src/hierarchy-rollup.ts:111-121 | the parent reported is the one recorded, if it is another id on record; otherwise the item is a root |
| HierarchyMeans.NodesShow | lib/backend-catalogue/src/hierarchy-rollup.ts:174-205 | there is a node exactly for each id on record, and the totals count nodes and roots |
| HierarchyMeans.LeafShowsOwn | lib/backend-catalogue/src/hierarchy-rollup.ts:132-133 | a leaf shows its own progress |
| HierarchyMeans.DoneShows | lib/backend-catalogue/src/hierarchy-rollup.ts:143-163 | off cycles the done descendants are the items below whose value is one before rounding |
| PlainRollup.PlainMonotone | lib/backend-catalogue/src/hierarchy-rollup.ts:125-145 | raising own progress anywhere lowers no plain value |
| PlainRollup.SizesCount | lib/backend-catalogue/src/hierarchy-rollup.ts:153-163 | the subtree sizes of items that share nothing add up to the number of items they cover |
| PlainRollup.RootsCoverExactly | lib/backend-catalogue/src/hierarchy-rollup.ts:189 | the root subtrees share nothing, and cover every item if and only if no links run in circles |
| Hierarchy.ChildOffCycle | lib/backend-catalogue/src/hierarchy-rollup.ts:113-121 | below an item that is not its own ancestor no child is, either |
| HierarchyRollup.BelowIsSound | lib/backend-catalogue/src/hierarchy-rollup.ts:125-164 | so everything below such an item has a plain value |
| HierarchyRollup.Roller.Rolled | lib/backend-catalogue/src/hierarchy-rollup.ts:122-141 | on any links the method is the fold determined by stack and cache, cache included; off cycles the value is the plain recursion whatever is cached |
| HierarchyRollup.Roller.Tally | lib/backend-catalogue/src/hierarchy-rollup.ts:143-160 | likewise the counts; off cycles they are the number of items below and of finished ones among them |
| HierarchyFold.CycleDependsOnEntry | lib/backend-catalogue/src/hierarchy-rollup.ts:122-141 | on a cycle the value depends on which item is folded first: of two items, 1 or 0 |
| HierarchyReport.DepthOf | lib/backend-catalogue/src/hierarchy-rollup.ts:166-172 | the guarded climb meets that many new ancestors before leaving the tree or meeting one again |
| HierarchyReport.DepthIsAncestors | lib/backend-catalogue/src/hierarchy-rollup.ts:166-172 | depth is the number of ancestors, on cyclic links too |
| HierarchyReport.RollUpHierarchy | lib/backend-catalogue/src/hierarchy-rollup.ts:87-207 | one node per item in id order, each with its depth, counts and rolled value as above, the sorted roots, the greatest depth and, for any input, the roots' weighted mean |
| HierarchyReport.RootsAndDescendantsAddUp | lib/backend-catalogue/src/hierarchy-rollup.ts:174-207 | the roots and the descendants they report add up to the total if and only if no links run in circles, and never exceed it |
| HierarchyReport.RaisingLowersNothing | lib/backend-catalogue/src/hierarchy-rollup.ts:87-207 | raising one record's own progress lowers the reported progress of no item off cycles |
| Rounding.RoundBounds | lib/backend-catalogue/src/num.ts:24-25 | rounding moves a value by at most half a unit, halves upwards |
| Rounding.Round1IsNearest | lib/backend-catalogue/src/num.ts:28 | the one number of whole tenths within half a tenth, the upper of two |
| Rounding.Round2IsNearest | lib/backend-catalogue/src/num.ts:25 | the one number of whole hundredths within half a hundredth, the upper of two |
| Rounding.RoundShift | lib/backend-catalogue/src/num.ts:24-25 | rounding commutes with whole-unit shifts |
| Months.AddMonthsMeaning | lib/backend-catalogue/src/depreciation.ts:90-101 | the result is a valid date exactly that many months on, on the same day or the last day of a shorter month |
| Months.MonthsAreGregorian | lib/backend-catalogue/src/depreciation.ts:90-101 | the month lengths are those of the Gregorian day count: 153 days for five months from March, a leap day by the rule of 4, 100 and 400 |
| Months.MoreMonthsIsLater | lib/backend-catalogue/src/depreciation.ts:90-101 | more months give a strictly later date |
| Depreciation.TrueUpSums | lib/backend-catalogue/src/depreciation.ts:126-132 | the rounded periods add up to the total exactly |
| Depreciation.TrueUpBound | lib/backend-catalogue/src/depreciation.ts:126-132 | the last period differs from its unrounded value by at most half a cent for each other period |
| Depreciation.StraightLineSharesSum | lib/backend-catalogue/src/depreciation.ts:134-137 | the unrounded straight-line shares are the whole base |
| Depreciation.SumOfYearsSharesSum | lib/backend-catalogue/src/depreciation.ts:139-143 | the unrounded sum-of-years shares are the whole base |
| Depreciation.SharesFollowDigits | lib/backend-catalogue/src/depreciation.ts:139-143 | any two sum-of-years shares are in the ratio of their digits, the earlier larger |
| Depreciation.DeclineBalance | lib/backend-catalogue/src/depreciation.ts:145-164 | the loop recognises, period by period, what the book value it opens with calls for |
| Depreciation.DecliningLands | lib/backend-catalogue/src/depreciation.ts:145-164 | in whole cents no amount is negative and together they are the book value above salvage, if any |
| Depreciation.ProduceUnits | lib/backend-catalogue/src/depreciation.ts:166-181 | missing or empty usage, or no total, is the error; otherwise the capped, rounded amounts |
| Depreciation.UnitsWithinBase | lib/backend-catalogue/src/depreciation.ts:171-180 | for any usage series no amount is negative and the running total never passes the base |
| Depreciation.CappedFits | lib/backend-catalogue/src/depreciation.ts:174-177 | a capped amount rounds within what is left, and rounding the running total adds exactly it |
| DepreciationSchedule.ToSchedule | lib/backend-catalogue/src/depreciation.ts:109-123 | each row carries the rounded opening accumulation plus every amount so far, and cost less that |
| DepreciationSchedule.Schedule | lib/backend-catalogue/src/depreciation.ts:187-206 | the method dispatch, its two errors and the nothing-to-depreciate case |
| DepreciationPeriods.ScheduleExists | lib/backend-catalogue/src/depreciation.ts:187-206 | exactly which assets have no schedule, with which error, and one row for each month of life or usage figure |
| DepreciationPeriods.RowCarries | lib/backend-catalogue/src/depreciation.ts:109-123 | rows are numbered from 1, a month apart; each adds its amount to the accumulation before, and the rest of the cost is its book value |
| DepreciationPeriods.StraightLinePeriod | lib/backend-catalogue/src/depreciation.ts:134-137 | each row but the last is the base over the life to the nearest cent, and the last is what is left |
| DepreciationPeriods.SumOfYearsPeriod | lib/backend-catalogue/src/depreciation.ts:139-143 | row i but the last is base * (n - i) / (n(n + 1) / 2) to the nearest cent, and the last is what is left |
| DepreciationPeriods.DecliningPeriod | lib/backend-catalogue/src/depreciation.ts:145-164 | from the book value a row opens with: all above salvage in the last row, before that the greater of factor over life (2 unless a positive one is given) and the even part of what is left, never more than is left, to the nearest cent |
| DepreciationPeriods.UnitsPeriod | lib/backend-catalogue/src/depreciation.ts:166-181 | a row is the usage's part of the base to the nearest cent, nothing for negative usage, and no more than is left of the base |
| DepreciationSchedule.EvenMethodsLand | lib/backend-catalogue/src/depreciation.ts:134-143 | straight line and sum of years add up to the base and end at salvage less the opening accumulation, so at salvage if and only if that rounds to 0 |
| DepreciationSchedule.DecliningBalanceLands | lib/backend-catalogue/src/depreciation.ts:145-164 | book value never rises, never falls below salvage unless it started there, and ends at salvage if there is a base and it started above, else where it started |
| SalvageFloor.EvenMethodsNeverPassSalvage | lib/backend-catalogue/src/depreciation.ts:109-143 | straight line and sum of years keep every book value at or above salvage if and only if the opening accumulation rounds to at most 0 and, with the rounded periods before the last, stays within the base |
| SalvageFloor.UnitsNeverPassSalvage | lib/backend-catalogue/src/depreciation.ts:166-181 | units of production: no amount is negative, book value never rises, and each stays at or above salvage if and only if the opening accumulation plus what was recognised is within the base |
| SalvageFloor.UnitsSafeIffNothingBefore | lib/backend-catalogue/src/depreciation.ts:166-181 | so every usage series is safe if and only if the opening accumulation rounds to at most 0 |
| SalvageFloor.UnitsPassSalvage | lib/backend-catalogue/src/depreciation.ts:166-181 | cost 100, half depreciated before, used in full: book value ends at -50 |
| SalvageFloor.ZeroBaseStays | lib/backend-catalogue/src/depreciation.ts:145-164 | cost and salvage 100, opening accumulation -50: declining balance stays at 150 |
| SalvageFloor.TrueUpSign | lib/backend-catalogue/src/depreciation.ts:126-132 | a true-up leaves no negative amount if and only if the rounded periods before the last do not exceed the total |
| SalvageFloor.SumOfYearsSign | lib/backend-catalogue/src/depreciation.ts:139-143 | no sum-of-years amount is negative if and only if the rounded amounts before the last do not exceed the base |
| SalvageFloor.SumOfYearsLargeBase | lib/backend-catalogue/src/depreciation.ts:139-143 | which holds once four times the base exceeds n(n+1)(n-3) cents |
| SalvageFloor.SmallDigitsOvershoot | lib/backend-catalogue/src/depreciation.ts:139-143 | seven cents over seven months ends with minus one |
| SalvageFloor.StraightLineSign | lib/backend-catalogue/src/depreciation.ts:126-137 | no straight-line amount is negative if and only if the other n-1 rounded periods do not exceed the base |
| SalvageFloor.StraightLineLargeBase | lib/backend-catalogue/src/depreciation.ts:126-137 | which holds once the base is at least n(n-1)/2 cents |
| SalvageFloor.SmallBaseOvershoots | lib/backend-catalogue/src/depreciation.ts:126-137 | three cents over five months ends with a negative period |
| DepreciationSchedule.ForPeriod | lib/backend-catalogue/src/depreciation.ts:209-212 | the amount of the period posted at the date, 0 when none is |
| DepreciationSchedule.EveryPeriodIsFound | lib/backend-catalogue/src/depreciation.ts:209-212 | posting dates increase strictly, so each date finds its own period |
| AssetJournals.DepreciationJournal | lib/backend-catalogue/src/depreciation.ts:242-253 | nothing to post exactly for non-positive amounts; otherwise balanced, one-sided lines for the amount |
| AssetJournals.DisposalJournal | lib/backend-catalogue/src/depreciation.ts:305-323 | one-sided lines that leave on each account the proceeds, the cleared accumulation, the cost taken out and the gain or loss, negative amounts dropped |
| AssetJournals.GainIsProceedsOverBook | lib/backend-catalogue/src/depreciation.ts:278-286 | gain or loss is rounded proceeds less carrying value |
| AssetJournals.PostedToTheCent | lib/backend-catalogue/src/depreciation.ts:278-309 | proceeds, cost, the accumulation with the impairment, and the carrying value less both are posted to the nearest cent |
| AssetJournals.BalancedExactly | lib/backend-catalogue/src/depreciation.ts:305-323 | the journal balances if and only if the rounded carrying value equals cost less cleared, as posted, less dropped negative proceeds |
| AssetJournals.WholeCentsBalance | lib/backend-catalogue/src/depreciation.ts:305-323 | in whole cents it balances if and only if the dropped negative amounts cancel, so always when none is negative |
| AssetJournals.HalfCentUnbalances | lib/backend-catalogue/src/depreciation.ts:305-323 | half a cent of accumulated depreciation leaves the entry a cent out |
| Currency.ThereAndBack | lib/backend-catalogue/src/currency.ts:13-30 | converting there and back between mutually convertible currencies returns the amount |
| Currency.UnconvertiblePassesThrough | lib/backend-catalogue/src/currency.ts:13-30 | an unconvertible amount passes through unchanged, which is why sums are gated |
| Currency.WorthIsKept | lib/backend-catalogue/src/currency.ts:13-20 | conversion keeps the worth in the base currency: amount times source rate is the converted amount times target rate |
| Currency.SwitchTarget | lib/backend-catalogue/src/currency.ts:13-30 | a mutually convertible target converts the same sources, every amount scaled by the first target's rate over the second's |
| Measures.MeasureValue | lib/backend-catalogue/src/consolidation.ts:115-139 | a measure is the sum of what each item adds, for all four aggregations |
| Measures.TotalAdds | lib/backend-catalogue/src/consolidation.ts:115-139 | splitting the items splits the measure |
| MeasureRecords.ItemAdds | lib/backend-catalogue/src/consolidation.ts:115-139 | what one item adds, for each aggregation, from its own fields: one; one if it passes the comparison (greater than 0 unless said otherwise); its value; its value times its clamped, defaulted weight times the scale |
| Measures.DefaultWeightIsOne | lib/backend-catalogue/src/consolidation.ts:129-133 | an item without a weight counts in full for a positive scale and not at all for any other, unless the clamp is below its default weight and takes its place |
| Consolidation.LocalTracker.Add | lib/backend-catalogue/src/consolidation.ts:22-32 | after any sequence of currencies the answer is true, and the tracker has a currency, if and only if all of them were that one |
| Consolidation.ExtractMeasures | lib/backend-catalogue/src/consolidation.ts:142-144 | a repeated measure key keeps its last value |
| ConsolidatedRows.ProjectAdds | lib/backend-catalogue/src/consolidation.ts:212-230 | one project more adds its items' measure to the local sum, and to the converted sum at its currency's rate over the target's, as it is in the target currency, and nothing when it does not convert |
| Consolidation.WorkingRow.Fold | lib/backend-catalogue/src/consolidation.ts:212-230 | folding one project more keeps the row the totals of its projects: counts, converted sums, exclusions, and a local figure if and only if the projects share one currency |
| ConsolidationTotals.TotalsDetermined | lib/backend-catalogue/src/consolidation.ts:204-230 | the projects folded into a row determine it |
| ConsolidationTotals.GroupsConserve | lib/backend-catalogue/src/consolidation.ts:254-267 | measure sums, project counts and exclusions of the grand total are the sums over the groups, for any spec and rates |
| ConsolidationTotals.SwitchingScales | lib/backend-catalogue/src/consolidation.ts:212-230 | switching between mutually convertible reporting currencies keeps the exclusions and scales every sum by the rate ratio |
| ConsolidationTotals.SumKeepsWorth | lib/backend-catalogue/src/consolidation.ts:212-230 | where the table rates every project's currency, the consolidated sum times the target's rate is the sum over projects of the local amount times that project's rate |
| DerivedReading.SpecReadsAsDocumentedIff | lib/backend-catalogue/src/consolidation.ts:75-81 | every operand of every derived metric is read as documented, whatever the sums, if and only if each is a measure, names nothing declared earlier, or names a metric that is never anything but null or zero |
| DerivedReading.NeverCountsIff | lib/backend-catalogue/src/consolidation.ts:161-175 | a derived metric is null or zero whatever the sums if and only if it is a difference of one key with itself or of no measures, or a ratio with an operand that is no measure |
| DerivedReading.RowAsDocumented | lib/backend-catalogue/src/consolidation.ts:236-237 | then the row holds under a derived key the metric of the documented readings |
| DerivedReading.EarlierMetricReadsZero | lib/backend-catalogue/src/consolidation.ts:236-237 | one specification: x = m - n and y = x - n of 5 and 2 give y = -2 where 1 is documented |
| ConsolidatedReport.ConsolidateByGroup | lib/backend-catalogue/src/consolidation.ts:254-278 | one finalised row for every group, strictly ordered by the sort key and then the group key, and the grand total of all projects |
| ConsolidatedReport.RowsDetermined | lib/backend-catalogue/src/consolidation.ts:268-277 | no other sequence of rows meets that contract |
| ConsolidatedRows.RowShows | lib/backend-catalogue/src/consolidation.ts:161-247 | a row shows its measures' sums to the cent, each derived metric from the unrounded sums by its operation, the local figures exactly if its projects share a currency, and how many projects it has and how many did not convert |
| ConsolidatedRows.GroupTitled | lib/backend-catalogue/src/consolidation.ts:260-264 | a group's row is folded from the projects with its key and goes by the label of the first |
| ConsolidatedRows.GroupJoins | lib/backend-catalogue/src/consolidation.ts:260-264 | the projects of a group keep the order given |
| ConsolidatedRows.RowsInOrder | lib/backend-catalogue/src/consolidation.ts:268-277 | of two rows the earlier has the lower figure under the sort key, the higher when descending, a missing or null figure being lowest; of equal figures, the lesser key |
| ConsolidatedReport.ReportConserves | lib/backend-catalogue/src/consolidation.ts:254-278 | every project and every exclusion is counted in one group row and in the total |
| ConsolidatedReport.RoundedRowsAddUp | lib/backend-catalogue/src/consolidation.ts:233-247 | shown rounded, a measure's group rows add up to its total within half a cent a row |
| RefreshProtocol.Plugin.Refresh | artifacts/mockup-sandbox/mockupPreviewPlugin.ts:82-91 | a call in flight only queues and answers false; any other launches a discovery |
| RefreshProtocol.Plugin.Resume | artifacts/mockup-sandbox/mockupPreviewPlugin.ts:91-110 | the run after the await lands, writes if the source changed, and relaunches if a request was queued; a throwing write leaves currentSource new and the file old |
| RefreshProtocol.Plugin.Rejected | artifacts/mockup-sandbox/mockupPreviewPlugin.ts:90-102 | a throwing discovery runs the finally block and nothing else |
| RefreshProtocol.EveryRun | artifacts/mockup-sandbox/mockupPreviewPlugin.ts:79-111 | what every run keeps: one discovery exactly while in flight, later requests queued, clocks and snapshots in step |
| RefreshTheorems.NoRefreshIsLost | artifacts/mockup-sandbox/mockupPreviewPlugin.ts:79-111 | without throws, however events interleave: at most one discovery, each asked for, queued implies in flight, and when idle the last completed discovery started no earlier than the last request and the file is currentSource generated from it |
| RefreshTheorems.QuietDiskIsShown | artifacts/mockup-sandbox/mockupPreviewPlugin.ts:79-111 | so an idle plugin has written what is on disk once it has not changed since the last request |
| RefreshTheorems.TwoFlightsSettle | artifacts/mockup-sandbox/mockupPreviewPlugin.ts:104-110 | from any reachable state two discoveries bring the plugin to rest, fresh if it was in flight |
| RefreshTheorems.AnswerTellsWrites | artifacts/mockup-sandbox/mockupPreviewPlugin.ts:104-110 | the call that ends a chain answers true exactly if some refresh in it wrote |
| RefreshTheorems.FreshIffLanded | artifacts/mockup-sandbox/mockupPreviewPlugin.ts:79-111 | whatever throws: an idle plugin is fresh if and only if its last discovery landed, or no request had started it and none came while it ran |
| RefreshTheorems.LandedAndWrittenIsInSync | artifacts/mockup-sandbox/mockupPreviewPlugin.ts:79-111 | whatever threw before: idle, last discovery landed and last write gone through means fresh, with the file equal to currentSource |
| RefreshTheorems.ThrowLosesRequest | artifacts/mockup-sandbox/mockupPreviewPlugin.ts:90-104 | a request queued behind a discovery that throws is lost |
| RefreshTheorems.LeftoverStartsExtraFlight | artifacts/mockup-sandbox/mockupPreviewPlugin.ts:104-107 | a flag left set starts a discovery no request started or waited for; when it throws the plugin is still fresh |
| RefreshTheorems.FailedWriteStays | artifacts/mockup-sandbox/mockupPreviewPlugin.ts:93-97 | from any run: after a failed write of what is still on disk, no events without a change of the disk ever change the file |
| RefreshTheorems.FailedWriteRetried | artifacts/mockup-sandbox/mockupPreviewPlugin.ts:93-97 | from any run: the next refresh writes if and only if the disk is no longer what the failed one saw |
| FlowLanes.LanesMakeScope | lib/backend-catalogue/src/flow-metrics.ts:138-153 | scope = backlog + active + done at every moment |
| FlowLanes.LanesGrow | lib/backend-catalogue/src/flow-metrics.ts:138-153 | scope and done never decrease and done is at most scope |
| FlowLanes.CountedOnce | lib/backend-catalogue/src/flow-metrics.ts:143-148 | an item is counted by the bucket reached exactly if done by then and no boundary split it |
| FlowLanes.DoneIsCountedOrNot | lib/backend-catalogue/src/flow-metrics.ts:135-153 | done is cumulative throughput plus the work no bucket could count |
| FlowLanes.ThroughputConserved | lib/backend-catalogue/src/flow-metrics.ts:135-153 | cumulative throughput equals done at every boundary if and only if no counted item has a boundary between its completion and its later creation; it never exceeds done |
| FlowLanes.EarlyCompletionIsNeverCounted | lib/backend-catalogue/src/flow-metrics.ts:139-148 | completed at 5, created at 10: boundaries 6 and 12 never count it |
| FlowMetrics.Boundaries | lib/backend-catalogue/src/flow-metrics.ts:108 | the boundaries are the given ones, once each, ascending |
| FlowMetrics.Reconstruct | lib/backend-catalogue/src/flow-metrics.ts:138-153 | the inner loop computes the five lane sums of one boundary |
| FlowMetrics.ComputeFlowMetrics | lib/backend-catalogue/src/flow-metrics.ts:106-184 | every point is its boundary's rounded lanes, throughput and ideal value, and the summary follows from the points |
| FlowRecords.PointShows | lib/backend-catalogue/src/flow-metrics.ts:118-168 | each point, from the item records: cancelled items count nowhere, every other as one or as its positive points; scope, completed, remaining, active, backlog and throughput are the work created, completed, open, started, not started by the boundary, and completed since the previous one, each to the nearest hundredth |
| FlowRecords.TallyCounts | lib/backend-catalogue/src/flow-metrics.ts:126-131 | by count, such a sum is the number of the records |
| FlowRecords.IdealIsStraight | lib/backend-catalogue/src/flow-metrics.ts:154-157 | the ideal line falls in equal steps from the opening scope to zero, and is zero for a single boundary |
| FlowRecords.SummaryShows | lib/backend-catalogue/src/flow-metrics.ts:171-184 | the summary is the last point's scope and completed, the throughput total and its mean over the boundaries, and the percentage to the nearest tenth; all zero and null without boundaries |
| FlowMetrics.SeriesGrows | lib/backend-catalogue/src/flow-metrics.ts:135-169 | shown scope and completed never fall, completed never exceeds scope |
| FlowMetrics.ShownLanesMakeScope | lib/backend-catalogue/src/flow-metrics.ts:158-168 | for measures in hundredths the shown lanes make up the shown scope exactly |
| FlowMetrics.ShownThroughputIsCumulative | lib/backend-catalogue/src/flow-metrics.ts:172-179 | and the shown throughput total is the cumulative throughput |
| FlowMetrics.IdealFalls | lib/backend-catalogue/src/flow-metrics.ts:155-157 | the ideal line starts at the opening scope, ends at zero and never rises |
| FlowMetrics.PercentInRange | lib/backend-catalogue/src/flow-metrics.ts:181 | percent complete is null exactly without scope, else within 0 to 100 |
| HtmlEscaping.EscapeIsSimultaneous | lib/backend-catalogue/src/field-validation.ts:143-144 | the five successive replacements are one simultaneous per-character mapping |
| HtmlEscaping.NothingRawRemains | lib/backend-catalogue/src/field-validation.ts:143-144 | no raw <, > or quote is left |
| HtmlEscaping.DecodeEscape | lib/backend-catalogue/src/field-validation.ts:143-144 | an entity decoder undoes escaping on every string |
| HtmlEscaping.EscapeIsInjective | lib/backend-catalogue/src/field-validation.ts:143-144 | different texts escape differently |
| HtmlEscaping.EscapeFixesPlainText | lib/backend-catalogue/src/field-validation.ts:143-144 | escaping leaves a text alone if and only if it has none of the five characters |
| FieldSanitising.MatchIsLongest | lib/backend-catalogue/src/field-validation.ts:188 | the backtracking match at a position is in the pattern and the longest text there that is; no match means there is none |
| FieldSanitising.NumericIsFirstLongest | lib/backend-catalogue/src/field-validation.ts:188 | numeric keeps the leftmost longest number text, or nothing when there is none |
| FieldSanitising.SanitiseValue | lib/backend-catalogue/src/field-validation.ts:177-192 | the loop applies the steps in order |
| SanitiseSteps.StepsFollow | lib/backend-catalogue/src/field-validation.ts:177-192 | a list of steps is its parts one after the other, and an empty one changes nothing |
| SanitiseSteps.OneStep | lib/backend-catalogue/src/field-validation.ts:181-188 | each step name is its own transformation |
| SanitiseSteps.StripsTags | lib/backend-catalogue/src/field-validation.ts:185 | strip-html leaves exactly the characters that are in no tag, in their order |
| SanitiseSteps.LowercaseMeaning | lib/backend-catalogue/src/field-validation.ts:187 | A to Z become a to z and every other character stays |
| SanitiseSteps.CollapseKeepsEnds | lib/backend-catalogue/src/field-validation.ts:182 | white ends stay, as one blank each |
| SanitiseSteps.StorageStepsJoin | lib/backend-catalogue/src/field-validation.ts:194-198 | storing takes the normalising steps in their order and leaves strip-html and escape-html out |
| WhiteSpace.SpaceIsWhite | lib/backend-catalogue/src/field-validation.ts:181-182 | white space is the 25 characters of trim and the whitespace class |
| StoredValues.TrimMeaning | lib/backend-catalogue/src/field-validation.ts:181 | trim cuts white text off both ends and leaves neither end white |
| StoredValues.CollapseCollapses | lib/backend-catalogue/src/field-validation.ts:182 | collapsing leaves single blanks only |
| StoredValues.CollapseKeepsWords | lib/backend-catalogue/src/field-validation.ts:182 | collapsing joins and splits no words |
| StoredValues.StepKeepsSettled | lib/backend-catalogue/src/field-validation.ts:177-192 | no storage step undoes another |
| StoredValues.StoredIsSettled | lib/backend-catalogue/src/field-validation.ts:196-198 | a stored value bears the mark of every storage step listed |
| StoredValues.StoringIsIdempotent | lib/backend-catalogue/src/field-validation.ts:196-198 | sanitising a stored value again changes nothing, for every list of steps |
| StoredValues.OutputStepsTwice | lib/backend-catalogue/src/field-validation.ts:185-186 | escape-html twice equals once if and only if there is nothing to escape; strip-html, if and only if what is left has no < before a > |
| StoredValues.StripShortens | lib/backend-catalogue/src/field-validation.ts:185 | strip-html changes a text if and only if it has a < before a > |
| StoredValues.OutputStepsAreNot | lib/backend-catalogue/src/field-validation.ts:185-186 | one text each on which they are not idempotent |

## Left out
- Floating point: numbers are exact reals, so overflow, NaN and representation error are not modelled; a `weightScale` of 0 without a default weight, which divides by zero, contributes 0 here.
- Locale collation and Unicode: ids and keys are ordered by code point, and case folding is ASCII only.
- Coercion of untrusted rows (non-objects, blank ids, numeric strings) outside `DefConstraints.Coerce`: records are taken as already clean, statuses as already classified.
- Properties a JavaScript object inherits (`__proto__`, `constructor`): merging, field paths and element fields read own keys only.
- Object identity: `===` on arrays and objects read from a payload is taken as never equal; `JSON.stringify` keys are equality of values.
- Tokenising of demand text: items carry their distinct tokens; the minimum token length is not part of this model.
- Parsing TypeScript, collecting constants and documentation comments, and writing the generated files: types, constants and comments are given as data.
- Date parsing: dates are year, month and day, and years below 100, which JavaScript reads as 1900 and later, are not special.
- The unknown depreciation method and the truncation of a fractional useful life: the method is an enumeration, the life a whole number of months.
- Error message texts: each error is a datatype value naming its cause.
- Account memos and the journal date of a disposal, which are copied through.
- The glob, the watcher and the HTTP middleware around the refresh: a discovery reads the disk at one moment during its flight, and the generated text is determined by the files it saw.
- `kindElementErrors`, field policies per type, `validateValue`, `sanitiseKeystroke`, `flattenRow`, `currencyMix` and the shipped specs: lookups and single filters that would add easy members.
- KahnSort.InitialQueue: the in-degree map is filled at once rather than in a loop.
- HierarchyReport.RollUpHierarchy: of an item on a cycle says only that its shown progress is in range and done is at most desc, because the value depends on which item of the cycle was folded first (HierarchyFold.CycleDependsOnEntry); HierarchyRollup.Roller.Rolled and Tally say what each fold gives.
- DefLineage.ExtendsLineage: the message of the error is reduced to its cause and the id it names.
- RefreshProtocol.Plugin.Resume: a failed write leaves the file as it was, rather than truncated.
