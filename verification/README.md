# Verification of flexitype's core

This project models the parts of flexitype in which several actors, a nested
recomputation or an index have to keep agreeing with one simple meaning, and
proves that they do. `dafny verify dfyconfig.toml` checks all of it.

| area | modules | the question answered |
|---|---|---|
| computed attributes | `RefGraph`, `SchemaGraph`, `Computed`, `Materializer`, `MaterializerRuns`, `BatchDispatch` | can formulas form a cycle, does the nest of recomputes end, and where |
| numeric results | `Rounding` | which number is stored for an exact rational |
| change-sets | `ChangeSets`, `ChangeSetRuns` | how often, and by whose approval, is a batch committed |
| GraphQL schema cache | `SchemaCache`, `SchemaCacheRuns` | how old can a served schema be, and what does the cache hold |
| batch value writes | `BatchWrites`, `Publishing`, `LockOrder` | is the lock-ordering reorder invisible, when does a preview show what a publish stores, and which batches can deadlock |
| duplicates | `Dedup` | does the inverted index find what comparing all pairs would |
| media blobs and erasure | `MediaRuns`, `Erasure` | can a live row lose its bytes, and is the receipt true |
| relationship bounds | `Cardinality`, `CardinalityRuns` | can interleaved creates and unlinks exceed a maximum |
| revision diff | `RevisionDiff` | is the report a patch, and the only one |
| schema import | `TypeOrder`, `SchemaImport`, `SchemaImporter` | does a run cut off anywhere resume to the same schema |
| shared | `Options`, `Sequences`, `Ordering`, `Traces`, `Mutations` | optional values, strings, stable sorts, runs laid end to end, the mutation record |

Code that updates state in place is a class or a loop with invariants, proved
against functions of the state. Protocols with several actors are step relations
(`...Runs`): an invariant is kept by each step, and the results speak of every
run. A counterexample is a lemma that builds the run.

What a main operation leaves is stated over the stored fields themselves, such as an
entity, attribute, locale and channel, and not over the functions its body is written
with; those serve the proofs.

## How the main results fit together

*Computed attributes.* `Entity.Recompute` calls `Pass`, whose writes dispatch and
recurse, with the snapshot of the outer pass going stale meanwhile. It terminates
because `Unsettled`, the unsettled attributes read as a binary numeral with the
most depended-upon first, falls at every changed write, including the writes of a
resumed stale pass (`PassWriteShrinks`). Where it ends is forced by uniqueness
(`SettledIsUnique`, `SettledIsSolved`). `QuiescentIsConverged` gives the same end
for any number of overlapping passes on any number of replicas. A store may refuse
values: then it still settles if the store takes the values of the solution and
attributes are listed after what they read (`FirstWriteIsTaken`).

*Batches.* `Transact` is the transaction, `Publishing.Interactor.ApplyMutations` the
transaction with the recompute behind it; it is built from `Materializer.Entity`, so
what a publish leaves is `Solve` of what was written. `PreviewThenPublish` compares
the preview with that. `LockOrder` derives each transaction's locks from its batch:
`CanDeadlockExactly` is about any two plans, `SomeoneCanStep` about any number of
plans in one order, and `TidyBatchIsInOrder` says which batches have such plans.

*Change-sets.* The record is a compare-and-swap cell. `FenceInv` says who may
still write it; `OlderClaimIsStale`, `RetakenClaimNeverLands` and
`PublishingIsLeftByItsClaim` follow. `CountInv` accounts for every commit, so
`PublishedMeansCommitted` and `UntouchedExactly` give, for all runs, the exact
condition in every state, and `UnretakenRunsCommitExactlyOnce` holds of the runs
in which no stale claim is retaken, those that settle each claim within the TTL
among them.

*Imports.* An import is a list of entries, each skipped, refused or created over
the tenant's own state, with an arbitrary number of creations before it is cut
off. `RunsCompose` says that a run from where another stopped is that run with
more creations allowed; idempotence (`RerunCreatesNothing`) and resumption after
any number of interruptions (`InterruptionsLeaveNoTrace`) are its consequences.
`SchemaImporter` proves that the phases with their lookup maps are that run.

## Where code and documentation part ways

The model follows the code. Each of these has a member at a concrete input, and
one with the exact condition under which the promise does hold.

- A value write that re-sets the same value under a newer definition version does
  change the row and does emit an event (`SameValueUnderANewVersionChanges`); the
  package comment says an unchanged value emits none. An event is emitted exactly
  when value or version differ (`Materializer.Entity.Set`), and convergence holds
  regardless.
- The cycle check of formulas runs on create and on update, but not when an archived
  attribute is restored, which can close a cycle (`SchemaGraph.RestoreCanCycle`). A
  restore keeps the graph of every type acyclic exactly when no type that carries the
  attribute would gain a cycle; every other write always does
  (`StepKeepsEveryTypeAcyclicIff`).
- Canonical entity order is said to end the deadlocks of batch writes. It orders the
  summary rows only: each set first locks its attribute's definition, and each write
  the value row, in no order. Two batches in canonical order over different entities
  can block each other for good (`LockOrder.CanonicalBatchesCanDeadlock`), and so can
  two that only remove (`RemovalsCanDeadlock`). Two batches can exactly when their
  plans cross (`CanDeadlockExactly`). Batches that only remove, or only set one
  attribute, with no entity twice, never do (`TidyBatchesNeverDeadlock`).
- A preview is said to be the entity's values with the change-set overlaid. It does not
  recompute computed attributes (`Publishing.PreviewMissesTheTotal`) and shows media
  values as declared, where the publish stores the copy it holds
  (`PreviewShowsTheDeclaredPhoto`). It shows what the publish stores exactly when every
  media value set is declared as stored and, if the publish recomputes, the previewed
  values satisfy every formula (`PreviewHoldsExactly`).
- `Handle` is said to make the replica that changed a definition rebuild on its
  next query. A version read already under way writes the old version back after
  the event, and a query asked later is served the old schema until the memo
  expires (`SchemaCacheRuns.HandledChangeCanBeMissed`). From a given state this can
  happen exactly when a read under way will leave a memo young enough to be
  believed, with a schema from before the change cached or being built under the
  version it found (`MissesExactlyWhenOvertaken`). Every other run keeps the promise
  (`HandledChangeIsSeen`), and the TTL bound always holds (`ServedWithinTheTTL`).
- A rejected change-set is documented as untouched data. A claim stranded after
  its commit can be retaken, fail, go back to approved and then be rejected
  (`ChangeSetRuns.RejectedCanHaveCommitted`). In every state but published the data
  is untouched exactly when no commit lost its claim and none waits to be recorded
  (`UntouchedExactly`), which is so in every run without a retaken claim
  (`UnretakenRunsCommitExactlyOnce`); and from every state with a claim to retake some
  continuation ends rejected, whatever was committed (`StaleClaimCanBeRejected`).
- The write path's blob collection leaves the row that caused it out of the
  recount. If that row has meanwhile taken its old key back, the bytes of a live
  row are deleted (`MediaRuns.OverwriteCanDangle`). A collection is safe exactly
  when the row left out does not reference the key (`CollectionIsSafeIffHonest`).
- Under a symmetric definition over two different types an entity may be linked
  to itself, which counts twice against a bound that was checked for one
  (`Cardinality.SelfLinkOvershoots`). A checked link keeps the bounds exactly unless
  it does that with one place left (`CheckedLinkKeepsBoundsIff`), in every interleaving
  (`CardinalityRuns.BoundsHoldThroughout`).
- A preview can list a scope twice (`BatchWrites.PreviewListsAScopeTwice`). It does
  so exactly when the batch removes it, sets it again and leaves it set
  (`RepeatedExactlyWhenReopened`).
- A negative decimal result that rounds to nothing is stored as "-0"
  (`Rounding.ATinyNegativeIsMinusZero`, exactly when: `MinusZeroExactlyWhenTiny`).
- A decimal text over forty characters is refused by the value type, so the write
  fails and the pass with it (`Rounding.AFortyOneDigitResultIsRefused`; what a refusal
  does to a pass: `Materializer.AStaleResultStopsThePass`, `Materializer.Entity.Recompute`).
  `StoredExactlyWhenItFits` says which results fit; at twenty places every whole part of up to eighteen digits does.

## Model

| member | source | states |
|---|---|---|
| `RefGraph.CycleSearch.Visit` | application/attribute/interactor.go:1204-1219 | the depth-first closure: a hit means the target is reachable; no hit means everything newly seen has been expanded without meeting it |
| `RefGraph.ReachesItself` | application/attribute/interactor.go:1199-1227 | the search answers exactly "does this name reach itself by one or more edges" |
| `RefGraph.CheckFormulaCycle` | application/attribute/interactor.go:1199-1227 | a formula is refused exactly when its name reaches itself in the graph as it would be after the write |
| `RefGraph.AcceptedWriteKeepsAcyclic` | application/attribute/interactor.go:1199-1227 | over an acyclic graph, the updated graph is acyclic if and only if the check accepts |
| `SchemaGraph.AcceptedWriteKeepsEveryTypeAcyclic` | application/attribute/interactor.go:478-522 | over a type tree, a create judged on the whole hierarchy and an update judged on the chain and descendants of its own type both leave the graph of every type acyclic |
| `SchemaGraph.WriteKeepsEveryTypeAcyclicIff` | application/attribute/interactor.go:568-635 | after one live formula is written, restored included, every type's graph is acyclic if and only if the name reaches itself in no graph that carries it |
| `SchemaGraph.StepKeepsEveryTypeAcyclicIff` | application/attribute/interactor.go:184-635 | a new subtype, a create, an update and an archive always keep every type's graph acyclic, and a restore exactly when no type carrying the attribute would gain a cycle |
| `SchemaGraph.AcceptedWritesNeverCycle` | application/attribute/interactor.go:184-635 | throughout every run of such steps, restores harmless, no type's graph ever has a cycle |
| `SchemaGraph.RestoreCanCycle` | application/attribute/interactor.go:583-607 | a concrete run of accepted writes that a restore ends in a cycle |
| `RefGraph.CyclicNames` | application/computed/materializer.go:806-851 | the reported names are exactly those on a cycle of the graph between computed attributes |
| `RefGraph.WithoutCyclicNamesIsAcyclic` | application/computed/materializer.go:806-851 | with every such name set aside, what is left has no cycle |
| `RefGraph.AcyclicHasDependencyOrder` | application/computed/materializer.go:594-802 | an acyclic graph can be listed with every dependency before its reader, so a settled state exists to converge to |
| `Computed.OrderExists` | application/computed/materializer.go:594-802 | for any computed attributes, the ones a pass evaluates have a dependency order |
| `Computed.GraphIgnoresListing` | application/computed/materializer.go:806-851 | the dependency graph does not depend on the order attributes are listed in |
| `Computed.SettledIsUnique` | application/computed/materializer.go:7-9 | over given sources there is at most one assignment in which every active attribute equals its formula |
| `Computed.SettledIsSolved` | application/computed/materializer.go:7-9 | rows in which every formula holds show exactly the reference meaning: each attribute evaluated once, dependencies first |
| `Computed.SolveForgetsOwned` | application/computed/materializer.go:7-9 | the reference meaning depends on the values no active attribute owns, and on nothing else |
| `Computed.SolveSettles` | application/computed/materializer.go:7-9 | the reference meaning satisfies every formula |
| `Computed.SettledHoldsItsResult` | application/computed/materializer.go:594-802 | an attribute is settled exactly when its row holds its function's result on the stored values it reads, absent ones left out, or its rollup's result |
| `Computed.SolutionShowsResults` | application/computed/materializer.go:594-802 | in the solution every formula shows what it makes of the solution, and every rollup its result |
| `Computed.CountOfNothingIsZero` | pkg/formula/formula.go:172-200 | the count of a name with no value is 0, and that row is stored |
| `Computed.ActiveExactly` | application/computed/materializer.go:806-851 | an attribute is recomputed exactly when it lies on no closed chain of formulas each reading the next |
| `Computed.UnsettledDecreases` | application/computed/materializer.go:594-802 | the termination measure: settling one attribute outweighs unsettling any number of later ones |
| `Computed.FirstWriteShrinks` | application/computed/materializer.go:594-802 | the first changed write of a pass lowers the measure |
| `Computed.StaleResultIsRight` | application/computed/materializer.go:594-802 | a stale snapshot that was settled up to an attribute still gives that attribute's right value |
| `Computed.StaleWriteShrinks` | application/computed/materializer.go:594-802 | a resumed pass that writes something wrong still leaves less unsettled than its own snapshot had |
| `Materializer.PassWriteShrinks` | application/computed/materializer.go:594-802 | every changed write of a pass, first or stale, lowers the measure the nested recompute is bounded by |
| `Materializer.PassIsRollupsThenOthers` | application/computed/materializer.go:678-693 | a pass takes every rollup, as listed, and then everything else, as listed |
| `Materializer.VisitedEvaluateToSolution` | application/computed/materializer.go:694-802 | listed in order, an attribute whose predecessors in the pass are settled evaluates over the stored rows to its value in the solution |
| `Materializer.FirstWriteIsTaken` | application/computed/materializer.go:694-802 | so a store that takes every value of the solution does not refuse the first changed write of a pass |
| `Materializer.AStaleResultStopsThePass` | application/computed/materializer.go:694-802 | listed out of order it can: a result over an old value is refused first, and the pass stops, unsettled and without a write |
| `Materializer.XAndYAfterTheSourceMoved` | application/computed/materializer.go:694-802 | concrete formulas and values for which it does |
| `Materializer.Entity.constructor` | application/computed/materializer.go:594-802 | an entity starts with an order for its active attributes and an empty fast-path memory |
| `Materializer.Entity.Dispatch` | application/uow/uow.go:250-275 | a committed write returns only after its recompute has run, and every active attribute then holds its formula's value, even if that recompute reported a refused write |
| `Materializer.Entity.Set` | application/computed/materializer.go:790-799 | a value the store refuses changes nothing; otherwise an event is emitted exactly when the row changes in value or definition version, and then everything is settled |
| `Materializer.Entity.Remove` | application/computed/materializer.go:690-802 | clears exactly the row the snapshot saw; a row already replaced or gone is left alone |
| `Materializer.Entity.Materialize` | application/computed/materializer.go:594-802 | one attribute's write keeps the pass invariant: before its first changed write rows are the snapshot, afterwards they are settled; only after it can a write be refused |
| `Materializer.Entity.Pass` | application/computed/materializer.go:594-802 | the nested pass terminates, and leaves every active attribute equal to its formula and every other row untouched, if it stops at a refused write as much as if it does not |
| `Materializer.Entity.Recompute` | application/computed/materializer.go:491-802 | from any rows, including through the has-computed fast path, the nest of recomputes terminates with the row of every active formula holding exactly what its function makes of the stored values of the names it reads, a name without a stored value left out, and of every active rollup exactly its result; rows no active attribute owns are untouched; for a store that refuses nothing, or that takes every value of the solution while attributes are listed after what they read |
| `Materializer.Entity.WriteSource` | application/computed/materializer.go:276-299 | after a source write the entity shows exactly the reference meaning of its new sources |
| `Materializer.ListingOrderIsInvisible` | application/computed/materializer.go:594-802 | two listings of the same attributes settle to the same values |
| `Materializer.SameValueUnderANewVersionChanges` | application/computed/materializer.go:7-9 | a concrete row: setting the value it holds under a newer definition version changes it |
| `MaterializerRuns.StepKeepsInv` | application/computed/materializer.go:276-368 | at every interleaved step each attribute is settled or some frame in flight will still see to it with current inputs |
| `MaterializerRuns.RunKeepsInv` | application/computed/materializer.go:276-368 | the same throughout every run |
| `MaterializerRuns.QuiescentIsConverged` | application/computed/materializer.go:276-368 | whenever no recompute is in flight, the row of every active attribute holds exactly its result over the stored values |
| `BatchDispatch.Coalesce` | application/computed/materializer.go:307-350 | each touched entity once, in order of its first event; each rebuilt type once; undecodable events counted |
| `BatchDispatch.Projection.Invalidate` | application/computed/materializer.go:391-395 | every remembered has-computed answer is dropped and no value changes |
| `BatchDispatch.Projection.HandleBatch` | application/computed/materializer.go:307-368 | touched entities hold the solution of their formulas, others are unchanged, a stale fast path is repaired before the first recompute whenever the batch changes definitions, and only a recompute that met a refused write is reported |
| `Rounding.NearestIsUnique` | application/computed/materializer.go:910-917 | at most one integer is the rounding, halves away from zero, of a rational |
| `Rounding.NearestIsNearest` | application/computed/materializer.go:910-917 | and there is one: the floor of the magnitude plus one half, with the sign put back |
| `Rounding.NearestIsOdd` | application/computed/materializer.go:910-930 | rounding commutes with negation |
| `Rounding.NearestIsMonotone` | application/computed/materializer.go:910-930 | rounding keeps the order of rationals |
| `Rounding.QuoRem` | application/computed/materializer.go:919 | division truncating toward zero: quotient and remainder recombine, and both follow the dividend's sign |
| `Rounding.NearestFromQuoRem` | application/computed/materializer.go:918-930 | comparing twice the remainder with the denominator picks the nearest integer |
| `Rounding.IntegerForRat` | application/computed/materializer.go:914-938 | the result is the nearest integer; it fails exactly for a missing result or a nearest integer outside 64 bits |
| `Rounding.PartsAreNearest` | application/computed/materializer.go:894 | the rounded integer part and fraction together are the nearest number of last places, carry included |
| `Rounding.DecimalTextIsWritten` | application/computed/materializer.go:890-903 | the text is the sign, the integer part, and the fraction without trailing zeros |
| `Rounding.DecimalReadsAsNearest` | application/computed/materializer.go:883-903 | reading the text back gives the result rounded to the last place, halves away from zero |
| `Rounding.TerminatingIsExact` | application/computed/materializer.go:883-887 | a result whose denominator divides the power of ten is stored exactly |
| `Rounding.DecimalTextIsTidy` | application/computed/materializer.go:897-902 | no bare point, no trailing zero behind a point, no superfluous leading zero |
| `Rounding.MinusZeroExactlyWhenTiny` | application/computed/materializer.go:890-903 | the text is "-0" exactly for a negative result that rounds to nothing |
| `Rounding.RenderingIsStable` | application/computed/materializer.go:890-903 | rendering a stored decimal again gives the same text, minus zero aside |
| `Rounding.ATinyNegativeIsMinusZero` | application/computed/materializer.go:890-903 | a concrete result stored as "-0" |
| `Rounding.StoredExactlyWhenItFits` | domain/valueobjects/value.go:76-83 | the value type accepts the text exactly when the whole part is below the power of ten that the sign and the fraction leave room for in forty characters |
| `Rounding.AFortyOneDigitResultIsRefused` | domain/valueobjects/value.go:76-83 | a concrete result, ten to the fortieth, that is refused at every scale |
| `Rounding.ShortWholePartsAlwaysFit` | domain/valueobjects/value.go:76-83 | a whole part of at most eighteen digits is always accepted |
| `Rounding.DecimalForRat` | application/computed/materializer.go:890-908 | at twenty places: tidy text that reads back as the nearest value; fails only for a missing result |
| `ChangeSets.Interactor.Update` | infrastructure/postgres/changeset_store.go:87-113 | the compare-and-swap: persists over exactly the version that was loaded, bumps it, and never rewrites the author |
| `ChangeSets.Interactor.Mutate` | application/changeset/changeset.go:488-508 | load, decide, persist: an edit succeeds exactly when its stage, its list and its actor allow it and the record has not moved on; a refusal changes nothing and its reason holds; a success leaves exactly the fields the edit is for, an addition its mutation behind all earlier ones |
| `ChangeSets.DecideExactly` | application/changeset/changeset.go:187-260 | an edit is decided exactly when the stage, the list and the actor allow it, and then changes exactly the fields it is for; a refusal names a reason that holds |
| `ChangeSets.ClaimExactly` | application/changeset/changeset.go:293-312 | a record can be claimed exactly when it is approved, is a draft or in review and needs no approval, or is publishing under a claim fifteen minutes old; the claim changes its stage and its stamp |
| `ChangeSets.AClaimLastsFifteenMinutes` | application/changeset/changeset.go:302-312 | concrete clocks: a claim holds for 899 seconds and can be retaken at 900 |
| `ChangeSets.DueExactly` | infrastructure/postgres/changeset_store.go:137-146 | a set is due exactly when it is approved with a publish time reached, or publishing under a claim fifteen minutes old |
| `ChangeSets.Interactor.Publish` | application/changeset/changeset.go:293-366 | a publish claims exactly an approved set, an undecided one that needs no approval, or a publishing one whose claim is fifteen minutes old, and leaves any other unchanged; it commits the listed batch once if it ends published, never if not, and a failed one is handed back publishable |
| `ChangeSets.Interactor.PublishDue` | application/changeset/changeset.go:454-486 | one tick, record by record: an approved set with no publish time or one after the closing clock stays as it is, and so does a publishing set with a claim under fifteen minutes old and any other stage; every set due by the opening clock is claimed, unless somebody else wrote it first, in which case it is left as they wrote it; each ends published with exactly one batch or handed back with none, and the count is the number of batches |
| `ChangeSetRuns.StepKeepsFenceInv` | application/changeset/changeset.go:293-366 | every step keeps: a claimant whose version is current owns the record, any other was reclaimed once stale |
| `ChangeSetRuns.OlderClaimIsStale` | application/changeset/changeset.go:293-312 | of two publishers between claim and finalise, the older claim is at least the claim TTL old |
| `ChangeSetRuns.VersionsOnlyGrow` | infrastructure/postgres/changeset_store.go:91-97 | the stored version never goes down |
| `ChangeSetRuns.ListIsWhatWasAdded` | application/changeset/changeset.go:187-206 | along every run the stored list is the first one followed by the added mutations, in order |
| `ChangeSetRuns.RetakenClaimNeverLands` | application/changeset/changeset.go:330-365 | once a claim is retaken, its finalise and its release both fail |
| `ChangeSetRuns.PublishingIsLeftByItsClaim` | application/changeset/changeset.go:187-260 | whoever changes a publishing record holds that claim or found it stale; no edit, submit, approve or reject ever writes one |
| `ChangeSetRuns.PublishedIsFinal` | application/changeset/changeset.go:293-366 | a published record never changes again |
| `ChangeSetRuns.RunKeepsCount` | application/changeset/changeset.go:314-365 | every committed batch is accounted for by the published record, by a publisher about to say so, or as lost with its claim |
| `ChangeSetRuns.PublishedMeansCommitted` | application/changeset/changeset.go:314-365 | in every run a published set was committed at least once, and exactly once if and only if no commit lost its claim or still waits to be recorded |
| `ChangeSetRuns.UntouchedExactly` | application/changeset/changeset.go:314-365 | in every run and every state but published, the live data is untouched exactly when no commit lost its claim and none waits to be recorded |
| `ChangeSetRuns.UnretakenRunsCommitExactlyOnce` | application/changeset/changeset.go:300-365 | while no stale claim is retaken, published means committed exactly once and every state but publishing and published means never |
| `ChangeSetRuns.TimelyRunsCommitExactlyOnce` | application/changeset/changeset.go:314-365 | in particular, while claims are settled within the TTL, no claim goes stale and the same holds |
| `ChangeSetRuns.RejectedCanHaveCommitted` | application/changeset/changeset.go:338-342 | without that condition it fails: a run ends rejected with its batch committed |
| `ChangeSetRuns.StaleClaimCanBeRejected` | application/changeset/changeset.go:300-365 | from every state with a publish claim, whatever was committed under it and whoever is at work, some continuation ends rejected with nothing undone |
| `ChangeSetRuns.RunKeepsApprovalInv` | application/changeset/changeset.go:187-244 | throughout every run the record's stage, approver and list agree with what was submitted and approved |
| `ChangeSetRuns.OnlyApprovedListsAreCommitted` | application/changeset/changeset.go:187-244 | a set that requires approval is approved, publishing or published only with a non-empty approver who is not its author, and only the submitted and approved list is ever committed |
| `SchemaCache.Engine.CacheGet` | application/gql/gql.go:420-430 | the list-plus-map get is the abstract LRU's: it answers what the list shows and moves a hit to the front |
| `SchemaCache.Engine.Refresh` | application/gql/gql.go:432-447 | a put under a cached key updates the element in place and moves it to the front |
| `SchemaCache.Engine.Insert` | application/gql/gql.go:432-447 | a put under a new key inserts at the front and evicts from the back, the least recently touched key only |
| `SchemaCache.Engine.CachePut` | application/gql/gql.go:432-447 | a put is the abstract LRU's put |
| `SchemaCache.Engine.VersionFor` | application/gql/gql.go:396-416 | a fresh memo answers, otherwise a successful read does and is remembered, otherwise there is no version |
| `SchemaCache.Engine.SchemaFor` | application/gql/gql.go:363-392 | a hit at the current version is served, a failed lookup serves the last good schema, anything else builds and caches under the version found, on top of whatever other queries did to the cache during the build |
| `SchemaCache.LinkedUnlinked` | application/gql/gql.go:418-447 | taking an element out of the list together with its key keeps map and list holding the same keys once each |
| `SchemaCache.LruHoldsTheLatestTouches` | application/gql/gql.go:418-447 | after any gets and puts the cache holds exactly the most recently touched distinct keys, at most the cap, in order of last touch |
| `SchemaCache.LruHoldsTheLastPut` | application/gql/gql.go:418-447 | under each key it holds the last schema put there |
| `SchemaCacheRuns.StepKeepsInv` | application/gql/gql.go:363-416 | every interleaved step keeps each entry at least as new as its tag and each query within its bound |
| `SchemaCacheRuns.EntriesAreAtLeastTheirTag` | application/gql/gql.go:363-392 | a cached schema is never older than its tag |
| `SchemaCacheRuns.ServedWithinTheTTL` | application/gql/gql.go:363-416 | a query whose version lookup succeeds at time t is served every change committed by t minus the memo TTL |
| `SchemaCacheRuns.MissesExactlyWhenOvertaken` | application/gql/gql.go:230-416 | from any consistent state, some query asked after the event can miss a change committed before it if and only if a version read is under way whose memo would still be believed, with an older schema cached or being built under the version it found |
| `SchemaCacheRuns.HandledChangeIsSeen` | application/gql/gql.go:222-249 | in every run in which no such read is under way when the event is handled, each query asked later that resolves a version is served all changes so far |
| `SchemaCacheRuns.HandledChangeCanBeMissed` | application/gql/gql.go:222-249 | with one under way it can miss it: a concrete run |
| `BatchWrites.CanonicalOrder` | application/value/lockorder.go:48-59 | a permutation of the indices sorted by entity id, ties in the caller's order |
| `BatchWrites.ReorderIsInvisible` | application/value/lockorder.go:25-47 | each entity still sees its own mutations in the caller's order |
| `BatchWrites.ValueStore.Transact` | application/value/mutation.go:48-84 | when the transaction commits, each cell of each entity, attribute, locale and channel holds what the last mutation with those four names leaves, or what it held if none has them; per entity that is the overlay in the caller's order, and the entities an event was emitted for are exactly those a mutation changed; otherwise nothing changed, for a reason that holds |
| `BatchWrites.OverlayIsDecidedByTheLast` | application/value/mutation.go:104-136 | a cell is decided by the last mutation with its attribute, locale and channel, and stands if none has them |
| `BatchWrites.ALocalizedSetReplacesItsCell` | application/value/mutation.go:60-70 | a concrete set at locale "en" and channel "web" replaces that cell and no other |
| `BatchWrites.UntouchedIsUnchanged` | application/value/interactor.go:447-458 | an entity no event was emitted for holds what it held |
| `BatchWrites.Preview` | application/value/mutation.go:88-144 | for each attribute, locale and channel the list shows what the last mutation of this entity with those three names leaves, or else the last live value with them; it fails exactly on an undecodable set of this entity; and it lists a scope more than once exactly when the batch removes it, sets it again and leaves it set |
| `BatchWrites.OverlayAll` | application/value/mutation.go:104-136 | the whole overlay of this entity's mutations, stopping at the first that does not decode |
| `BatchWrites.OverlayOne` | application/value/mutation.go:104-136 | one mutation's overlay, and when it opens a scope |
| `BatchWrites.IndexLive` | application/value/mutation.go:93-103 | the live values by scope, each listed once |
| `BatchWrites.ListInOrder` | application/value/mutation.go:137-144 | what is shown is the map, walked in key order |
| `BatchWrites.RepeatedExactlyWhenReopened` | application/value/mutation.go:104-144 | any list that shows the overlaid map, each scope as often as it came into being, repeats a scope exactly when the batch removes it, sets it again and leaves it set |
| `BatchWrites.PreviewListsAScopeTwice` | application/value/mutation.go:104-144 | a concrete batch whose preview lists a scope twice |
| `Publishing.Interactor.RecomputeEntity` | application/uow/uow.go:250-275 | the recompute after a commit replaces the entity's active cells by the solution over its other cells, and touches nothing else |
| `Publishing.Interactor.ApplyMutations` | application/value/mutation.go:48-84 | a committed publish decides every cell no active attribute owns by the last mutation with its entity, attribute, locale and channel, and gives each active attribute of an entity with an event its result over the cells left; a failed one leaves everything |
| `Publishing.PublishedOtherIsDecided` | application/value/mutation.go:48-84 | a cell no active attribute owns is decided by the last mutation that names it, whatever is recomputed beside it |
| `Publishing.RecomputedShowsResults` | application/computed/materializer.go:594-802 | after the recompute each active attribute's cell holds its result over the cells of its entity |
| `Publishing.EmitsExactly` | application/value/interactor.go:447-458 | a mutation emits an event exactly when it removes a value that is there, or sets one that is absent, different or under an older definition version |
| `Publishing.OverlayAt` | application/value/mutation.go:104-136 | the last mutation of a scope decides it |
| `Publishing.ShownExactlyWhenDeclaredAsStored` | application/value/interactor.go:359-389 | a preview and the write path agree at a scope exactly unless its last mutation sets a media value declared otherwise than the stored copy |
| `Publishing.SettledInValueIsSolved` | application/computed/materializer.go:7-9 | values satisfy every formula if and only if they are their own solution |
| `Publishing.ShownIsRecomputedExactly` | application/value/mutation.go:88-144 | what was shown is what a recompute leaves, if and only if it was written wherever no computed attribute owns the cell, and satisfies every formula |
| `Publishing.PreviewHoldsExactly` | application/value/mutation.go:48-144 | the exact condition under which the previewed cells are the published ones |
| `Publishing.PreviewThenPublish` | application/value/mutation.go:48-144 | when a previewed batch commits, the preview showed what is stored exactly under that condition |
| `Publishing.PreviewMissesTheTotal` | application/value/mutation.go:88-144 | a concrete batch previewed with an old total and published with the recomputed one |
| `Publishing.PreviewShowsTheDeclaredPhoto` | application/value/interactor.go:868-930 | a concrete media value previewed as declared and stored as the copy already held |
| `LockOrder.CanonicalOrderMakesCanonical` | application/value/lockorder.go:48-59 | the sorted indices pick the batch in ascending entity order |
| `LockOrder.PlanHoldsExactly` | application/value/interactor.go:191-199 | a batch locks exactly its summary rows, the definitions its sets are of, and the value rows it changes |
| `LockOrder.StepKeepsExclusive` | application/value/interactor.go:191-199 | locks held to commit stay exclusive, whoever takes part |
| `LockOrder.CanDeadlockExactly` | application/value/mutation.go:48-84 | some run ends with two batches waiting for each other if and only if their lock plans cross: each has taken what the other wants next, and they share nothing so far |
| `LockOrder.CanonicalBatchesCanDeadlock` | application/value/lockorder.go:9-47 | a concrete run of two batches in canonical order, over different entities, in which nobody can step |
| `LockOrder.RemovalsCanDeadlock` | application/value/mutation.go:148-200 | batches that only remove can deadlock as well, on one entity |
| `LockOrder.TidyBatchIsInOrder` | application/value/lockorder.go:9-47 | a batch in canonical order that only removes, or only sets one attribute, and no entity twice, takes its locks in one order common to all such batches |
| `LockOrder.WantsIncrease` | application/value/lockorder.go:9-47 | in such runs what a blocked transaction wants lies below what its blocker wants |
| `LockOrder.NoWaitingCycle` | application/value/lockorder.go:9-47 | in every run of plans in the common order no chain of waiting transactions closes |
| `LockOrder.SomeoneCanStep` | application/value/lockorder.go:9-47 | while a transaction of such a run is unfinished, some unfinished transaction can step |
| `LockOrder.TidyBatchesNeverDeadlock` | application/value/lockorder.go:9-47 | so any number of such batches, single writes among them, never come to a standstill |
| `Dedup.Trigrams` | application/dedup/dedup.go:417-437 | a value's trigrams, sorted strictly, whatever order the set is walked in |
| `Dedup.GramsOfCat` | application/dedup/dedup.go:424-443 | the trigrams of the word "cat", spelled out |
| `Dedup.Jaccard` | application/dedup/dedup.go:440-462 | two sorted lists score their true intersection over their true union |
| `Dedup.CountCommon` | application/dedup/dedup.go:444-456 | the linear merge counts exactly the common trigrams |
| `Dedup.GramsOfAll` | application/dedup/dedup.go:365-370 | each value is given the trigrams of its own words |
| `Dedup.PairsAreDistinct` | application/dedup/dedup.go:405-411 | different pairs of rows have different canonical entity pairs |
| `Dedup.BuildIndex` | application/dedup/dedup.go:362-374 | the index lists, for each trigram, exactly the rows that hold it |
| `Dedup.Partners` | application/dedup/dedup.go:377-392 | a row's partners are exactly the later rows that share a trigram with it |
| `Dedup.SimilarSharesATrigram` | application/dedup/dedup.go:331-402 | no pair that meets a positive threshold escapes the index |
| `Dedup.ScanRow` | application/dedup/dedup.go:377-398 | one row reports exactly its similar later rows, in any partner order |
| `Dedup.MatchTrigrams` | application/dedup/dedup.go:361-402 | without a budget hit the report is exactly the undismissed similar pairs of the all-pairs meaning, each once; with one it holds true pairs only |
| `Dedup.BuildBuckets` | application/dedup/dedup.go:346-354 | each bucket holds exactly the rows of its key, in row order |
| `Dedup.ScanBucketRow` | application/dedup/dedup.go:355-360 | one row is paired with every later row of its bucket, once each |
| `Dedup.ScanBucket` | application/dedup/dedup.go:355-360 | a bucket's nested loops report exactly its pairs |
| `Dedup.MatchBuckets` | application/dedup/dedup.go:346-360 | the report is exactly the undismissed pairs with equal normalised values |
| `Dedup.ReportIgnoresMapOrder` | application/dedup/dedup.go:258-280 | two reports of the same pairs sort to the same list |
| `Dedup.RunScan` | application/dedup/dedup.go:232-280 | a whole scan is the sorted list of the pairs the all-pairs meaning calls for, independent of map order |
| `Dedup.ScanValues` | application/dedup/dedup.go:232-280 | from the values to the report: every candidate names two rows i and j with their own entities and values, in increasing order of entity, with the score the two values have, and every such undismissed pair is there unless the budget ran out; scores never increase, ties by entity; no pair twice |
| `Dedup.PairOfIsCandidate` | application/dedup/dedup.go:333-343 | what is reported of a pair of rows keeps each value with its own entity |
| `MediaRuns.StepKeepsInv` | application/value/interactor.go:867-980 | every step of an honest collection keeps every live row's bytes in place |
| `MediaRuns.ErasureNeverDangles` | application/erasure/erasure.go:376-471 | whenever collections leave no row out of the recount, as an erasure's do, no interleaving leaves a live row without bytes |
| `MediaRuns.CollectionIsSafeIffHonest` | application/value/interactor.go:967-980 | a recount that found nothing and its delete are safe if and only if the row it left out does not reference the key |
| `MediaRuns.NewRowsNeverDangle` | application/value/interactor.go:867-980 | uploads and adoptions into new rows, removals, purges and every kind of collection never leave a live row without bytes |
| `MediaRuns.OverwriteCanDangle` | application/value/interactor.go:942-980 | with overwrites it fails: a row that takes its old key back loses its bytes, in a concrete run |
| `Erasure.PurgeReport.Fail` | application/erasure/erasure.go:402-425 | a chunk that could not be counted is recorded as unpurged, key by key |
| `Erasure.Storage.MediaKeyRefCounts` | application/erasure/erasure.go:402-425 | the batched count finds exactly the referenced keys, or fails |
| `Erasure.Storage.GcBlobKey` | application/erasure/erasure.go:453-471 | under the lock: a referenced key is retained, an unreferenced one deleted; a call that reports failure may have deleted an unreferenced key, never a referenced one |
| `Erasure.CollectKey` | application/erasure/erasure.go:425-450 | one key is filed under exactly one outcome, and the receipt stays true of storage |
| `Erasure.CollectCounted` | application/erasure/erasure.go:425-450 | a counted chunk files every key once |
| `Erasure.GcBlobChunk` | application/erasure/erasure.go:402-450 | a chunk files exactly its non-empty keys, whatever fails |
| `Erasure.GcBlobChunks` | application/erasure/erasure.go:380-387 | the chunks together file every non-empty key once, wherever a chunk ends |
| `Erasure.GcErasedBlobs` | application/erasure/erasure.go:376-400 | across all chunks every non-empty key is in exactly as many places of the receipt as it was asked for; every purged key is gone, whatever else is gone is reported as failed, and nothing gone is referenced |
| `Cardinality.OnePerUnorderedPair` | domain/relationship/relationship.go:51-55 | stored in canonical order, an unordered pair has at most one live link |
| `Cardinality.CanonicalLookupFindsThePair` | application/relationship/interactor.go:586-600 | looking up the canonical pair finds every live link between the two entities, whichever way round the caller names them |
| `Cardinality.UnlinkKeepsBounds` | application/relationship/interactor.go:638-700 | archiving a link takes no entity over a bound |
| `Cardinality.CheckedLinkKeepsBoundsIff` | application/relationship/interactor.go:504-548 | a create that passes the check leaves each entity within its bounds exactly if it was, unless it links that entity to itself under a symmetric definition with one place left, whatever links are past a bound already |
| `Cardinality.RefusedExactlyForWantOfRoom` | application/relationship/interactor.go:504-548 | the check refuses exactly when the parent has as many children, or the child as many parents, as the definition allows |
| `Cardinality.RoomIsStayingWithin` | application/relationship/interactor.go:504-548 | there is room exactly when the link would leave both entities within their bounds, for a link of two different entities that are within them |
| `Cardinality.MayLinkExactly` | application/relationship/interactor.go:558-636 | the whole create is accepted exactly when no link joins the pair, there is room and the other demands are met |
| `Cardinality.SelfLinkOvershoots` | application/relationship/interactor.go:521-530 | a concrete self-link that passes a bound of one and exceeds it |
| `Cardinality.Relationships.Link` | application/relationship/interactor.go:558-636 | accepts exactly a link that is not there in either direction, finds room on both sides, and meets the definition's other demands; which refusal comes first otherwise; on success exactly one new live link in canonical order; which entities are within their bounds afterwards |
| `Cardinality.Relationships.Unlink` | application/relationship/interactor.go:638-700 | archives exactly a live link and nothing else |
| `CardinalityRuns.StepKeepsInv` | application/relationship/interactor.go:504-700 | what a create has read stays an upper bound of what is there while it holds the definition's lock |
| `CardinalityRuns.StepKeepsBoundsIff` | application/relationship/interactor.go:504-700 | of all steps only the commit of a self-link with one place left, and a bound set below what is there, take an entity past its bounds |
| `CardinalityRuns.PairsStayUnique` | application/relationship/interactor.go:558-636 | in every interleaving no pair has two live links |
| `CardinalityRuns.BoundsHoldThroughout` | application/relationship/interactor.go:504-700 | in every interleaving an entity stays within its bounds as long as neither of those two steps happens to it |
| `RevisionDiff.GroupByScope` | application/revision/revision.go:399-408 | each scope's values, all of them, in revision order |
| `RevisionDiff.AppendArrivals` | application/revision/revision.go:350-364 | one scope of the first pass: additions, or the one change, in revision order |
| `RevisionDiff.AppendDepartures` | application/revision/revision.go:365-377 | one scope of the second pass: removals, except what was reported as changed |
| `RevisionDiff.Diff` | application/revision/revision.go:329-392 | the report is in order of internal name, locale, channel and attribute, and holds a change exactly when the values at its own attribute, locale and channel call for it; applied to the texts of the first revision there it gives those of the second, and it is empty exactly when the two agree everywhere |
| `RevisionDiff.ChangeIsCalledFor` | application/revision/revision.go:346-377 | a reported change is one the values at its own attribute, locale and channel call for |
| `RevisionDiff.CalledForIsInDiff` | application/revision/revision.go:346-377 | every change those values call for is reported |
| `RevisionDiff.DiffIsAPatchByFields` | application/revision/revision.go:346-377 | at every attribute, locale and channel the first texts less those taken out, with those put in, are the second texts |
| `RevisionDiff.DiffIsEmptyIffSameByFields` | application/revision/revision.go:346-377 | the report is empty exactly when the texts agree at every attribute, locale and channel |
| `RevisionDiff.DiffIsUnique` | application/revision/revision.go:378-392 | there is only one such report |
| `RevisionDiff.DiffIsExact` | application/revision/revision.go:346-377 | a change is reported if and only if the two value sets call for it |
| `RevisionDiff.DiffIsAPatch` | application/revision/revision.go:329-392 | taking out the befores and putting in the afters turns the first revision's values into the second's, at every scope |
| `RevisionDiff.DiffIsEmptyIffSame` | application/revision/revision.go:329-392 | no change is reported if and only if the value sets agree at every scope |
| `RevisionDiff.DiffMirrors` | application/revision/revision.go:329-392 | swapping the revisions swaps before and after of every change, scope by scope |
| `RevisionDiff.AdditionsAndRemovalsMirror` | application/revision/revision.go:329-392 | swapping the revisions turns every addition into the removal of the same value under the same name, and every removal into an addition |
| `TypeOrder.TypeSort.Visit` | application/schema/schema.go:811-832 | a visit lists the missing ancestors first, then the type; it fails only on a cycle |
| `TypeOrder.TypeSort.Finish` | application/schema/schema.go:829-831 | a finished type joins the list behind its parent |
| `TypeOrder.TopoSortTypes` | application/schema/schema.go:804-839 | terminates; fails exactly when some chain of extends entries closes; otherwise lists, for every name, its last entry once, none before its parent |
| `TypeOrder.CycleIsACircle` | application/schema/schema.go:803-839 | the sort meets a cycle exactly when some closed chain of entries extends round |
| `TypeOrder.SortedTypesAreEntries` | application/schema/schema.go:803-839 | whatever is listed is the last entry of its name |
| `TypeOrder.ParentComesFirst` | application/schema/schema.go:803-839 | a parent in the bundle is listed before its subtype |
| `TypeOrder.OrderedMeansAcyclic` | application/schema/schema.go:803-839 | such a list exists only without a cycle |
| `SchemaImport.RunsCompose` | application/schema/schema.go:346-350 | wherever an import stopped, running it again is the first run with more creations allowed |
| `SchemaImport.RerunCreatesNothing` | application/schema/schema.go:346-350 | a finished import run again finishes at once and creates nothing |
| `SchemaImport.InterruptionsLeaveNoTrace` | application/schema/schema.go:346-350 | however often it was cut off before, a completed import ends in the state of one that never was |
| `SchemaImport.RunKeeps` | application/schema/schema.go:346-350 | an import only adds: nothing the tenant had is changed |
| `SchemaImport.CreatedRowsHoldTheirEntries` | application/schema/schema.go:351-541 | every row a run adds holds what its entry says: a type its parent's identifier, an attribute its type's and family's, a relationship its parent's and its child's, a rule its own names |
| `SchemaImport.FinishedHoldsEveryEntry` | application/schema/schema.go:351-541 | after a finished run every entry is there |
| `SchemaImport.RefusedForACause` | application/schema/schema.go:351-541 | a refused run met an entry that refers to something found nowhere |
| `SchemaImport.FinishedHoldsExactlyTheBundle` | application/schema/schema.go:351-541 | what a finished import leaves is what was there and what the bundle names, nothing less and nothing more |
| `SchemaImport.ImportNeverDoublesARule` | application/schema/schema.go:497-536 | no rule identity is ever stored twice, whatever effect the tenant has given it |
| `SchemaImport.TypesAreRefusedOnlyForOrphans` | application/schema/schema.go:375-400 | in sorted order the type phase is refused if and only if some new type's parent is neither in the tenant nor in the bundle |
| `SchemaImporter.KnownIsHavingTheRule` | application/schema/schema.go:498-520 | asking for the whole rule besides its identity never changes the answer |
| `SchemaImporter.Interactor.ImportFamilies` | application/schema/schema.go:547-574 | the family phase, and its name map in step with the tenant |
| `SchemaImporter.Interactor.TakeType` | application/schema/schema.go:381-400 | one type: skipped, refused for its parent, or created under it |
| `SchemaImporter.Interactor.ImportTypes` | application/schema/schema.go:372-400 | the type phase, with created counting exactly the creations made |
| `SchemaImporter.Interactor.TakeAttribute` | application/schema/schema.go:407-450 | one attribute: refused, skipped or created, and both lookup maps kept in step |
| `SchemaImporter.Interactor.ImportAttributes` | application/schema/schema.go:402-450 | the attribute phase |
| `SchemaImporter.Interactor.TakeRelationship` | application/schema/schema.go:457-489 | one relationship definition: skipped, refused for its types, or created |
| `SchemaImporter.Interactor.ImportRelationships` | application/schema/schema.go:452-489 | the relationship phase |
| `SchemaImporter.Interactor.TakeDependency` | application/schema/schema.go:505-538 | one rule: refused, skipped by identity, or created in its stored form |
| `SchemaImporter.Interactor.ImportDependencies` | application/schema/schema.go:491-538 | the dependency phase |
| `SchemaImporter.Interactor.ImportSorted` | application/schema/schema.go:375-541 | the phases behind the sort, each starting where the one before it ended |
| `SchemaImporter.Interactor.Import` | application/schema/schema.go:351-541 | the import with its lookup maps is the run over the tenant itself, for every number of creations before a cut; every new row holds what an entry of the bundle says, under the identifiers of its own type, parent, child or attribute; a finished import leaves every entry there; a refused one met an entry that lacks what it refers to |
| `Ordering.StableSortIsStableSort` | application/revision/revision.go:376-391 | the library sort keeps tied elements in order and sorts the rest |
| `Ordering.StrLessIsLexicographic` | application/dedup/dedup.go:262-275 | string order is by the first difference, a prefix first |
| `Ordering.StableSortUnique` | application/revision/revision.go:376-391 | a list has one stable sort |
| `Ordering.StableSortForgetsShuffles` | application/dedup/dedup.go:258-280 | lists that agree on every tied class sort alike |

## Left out

Contracts stated for less than the code does:

- Materializer.Entity.Set: whether a value is refused depends on the attribute and the value, not on other rows; a crash between a commit and its dispatch is not modelled.
- Materializer.Entity.Recompute: a store that refuses a value of the solution, or any value while attributes are listed before what they read, is not followed through the nest; what becomes of a pass then is AStaleResultStopsThePass.
- SchemaGraph.AcceptedWritesNeverCycle: one hierarchy, its writes one at a time, as the lock on its root makes them; archiving a type, and the depth limit, are not modelled.
- Materializer.Entity.Pass: unrepresentable results always clear the old value, as every caller asks; the variant that keeps them and its fingerprint loop (`recomputeStable`) are not modelled.
- Materializer.RollupsFirst: a rollup's result is an input fixed for the run; cascades to other entities are cut off at a depth, so no convergence result covers them.
- MaterializerRuns.QuiescentIsConverged: the schema does not change during the run, no write is refused, and passes are not made to nest, which only adds interleavings.
- BatchDispatch.Projection.HandleBatch: link events and neighbour cascades concern rollups and are passed over; scheduled rebuilds are listed, not run.
- Rounding.DecimalForRat: the JSON quoting of the text, and float64 results of the other numeric types, are not modelled.
- ChangeSets.Interactor.Publish: others may write before the publish but not between its steps, and PublishDue lets one write per listed set come first; every finer interleaving, and crashes, are the subject of ChangeSetRuns, which follows one record.
- SchemaCacheRuns.ServedWithinTheTTL: one tenant on one replica; a build is assumed to read definitions at least as new as those current when it starts, which a build torn by a concurrent change also meets.
- SchemaCache.Engine.SchemaFor: other queries act on the cache during the build, where the lock is free; what they do to the memo between its read and its write is the subject of SchemaCacheRuns.
- BatchWrites.Preview: single-valued attributes without units; a multi-valued scope is collapsed by the preview itself.
- BatchWrites.ValueStore.Transact: the write path behind a mutation (types, constraints, permissions) is one acceptance function of the mutation and the cells.
- Publishing.Interactor.ApplyMutations: an attribute's id and its name are one; the write of a computed value is not refused, a rollup's result does not change, the copy stored for a media key is the same throughout, and nobody else writes between the commit and the recompute.
- LockOrder.CanDeadlockExactly: single-valued attributes; what a mutation finds (a row, none, nothing to change) is given with it, and moving an entity to a subtype, which locks more rows, is not modelled. The shared foreign-key locks of an insert conflict only with schema edits and are left out.
- Dedup.Jaccard: the exact ratio; float64 rounding of the score is not modelled.
- Dedup.Trigrams: lower-casing and word splitting are one given function from a value to its words; the load of values and its cap come before, and thresholds are positive.
- MediaRuns.ErasureNeverDangles: bytes never disappear by other hands, and an uploaded key is fresh.
- Cardinality.Relationships.Link: the version a link pins is checked and not stored with the row; a missing or foreign definition is not modelled.
- CardinalityRuns.BoundsHoldThroughout: the definition is not archived or pinned during the run, which would only refuse more.
- RevisionDiff.DiffMirrors: compares a replaced value by scope and values, because each report names it as its own newer side does; for additions and removals the name is included, by AdditionsAndRemovalsMirror.
- SchemaImport.InterruptionsLeaveNoTrace: compares with an uninterrupted run that draws the same identifiers, with nobody else editing the schema; a failed creation counts as being cut off.
- SchemaImporter.Interactor.Import: rebasing and canonicalising a rule's operands is one function of the text and the attribute's unit family, shared with the create path; the bundle version check and deployments without unit support are not modelled.
- TypeOrder.TopoSortTypes: an entry is its name, what it extends, and opaque content.

Parts of the repository not modelled:

- HTTP, GraphQL resolvers and federation, the React client, OpenAPI: input and output around the logic.
- SQL, row formats, JSON and identifiers: stores are maps with their compare-and-swap or lock contract; keys the code joins with separators are tuples, so ids are taken to contain no separator.
- The formula and query parsers and evaluators: a formula is an arbitrary partial function of the names it reads.
- Field permissions, redaction, audit and activity rows, tenant checks, plain validation branches: single-branch members.
- Change-set contents under erasure: mutation lists change only by change-set steps.
- The event feed, the outbox relay, account administration, saved views, unit-family editing.
- Library sorts and the linked list: a stable sort is its specification, and the list is a sequence of elements.
