# Configuration control plane of Justflow: a verified model

Justflow keeps tenant configuration as drafts and content-addressed revisions,
publishes and activates them through idempotency-keyed protocols, and keeps the
definitions that running workflows were compiled from in an immutable catalog.
This project models that control plane, and the algorithms it rests on, in Dafny
and proves what it promises.

- **Revision stores.** `AwsStore`, `AwsClients`, `AwsBodies` and `AwsRetention`
  model the production store: each DynamoDB transaction or conditional put and
  each S3 put or delete is one atomic step, and any number of clients interleave
  and crash between steps; `AwsPointer` treats the version of the active
  pointer. `SqliteStore` is the single-host store, one class whose methods are
  atomic. `Retention` and `Pagination` are the specifications that both share;
  `Revisions` holds revision identities.
- **Protocols.** `Publication` and `Discard` are the multi-store protocols as
  state machines over their storage steps, and `DiscardFailures` says what a
  failed discard means for the draft; `Activation` is the record state machine,
  `ActivationLease` runs it under version-checked updates, and `ActivationSaga`
  and `ActivationResume` carry an activation through its stages. `SoloRuns` is
  what the results about a single client share.
- **Definitions.** `CompositionGraph` is the validator's depth-first search,
  `MerkleDag` and `DefinitionManifests` the memoised manifest build,
  `PreparedDefinitions` the catalog lookups that follow, `CatalogStore` the
  catalog under concurrent publication, `CatalogMigration` and `CatalogImport`
  planning, importing and exporting.
- **Algorithms.** `StructuralDiff`, `YamlWalk`, `JsonPointer` (RFC 6901) and
  `Calendar`.

Where the source updates objects or loops, the model has classes and methods
proved against specification functions; where calls of several processes
interleave, it has a step function over the whole state, whose runs are
sequences of events.

What is assumed: SHA-256 over canonical JSON is injective, so identities are
either free constructors or values of an injective function; times are integers
and are inputs; `sorted()` returns the ascending order, and results that do not
mention an order hold for every order of visiting.

Some promises hold only under a condition, and the exact condition is proved:

- One step keeps every body in place exactly if it does not delete the body of an
  id that has a record, or whose creator has put the body and is about to create
  the record (`BodiesKeptIffNoHarmfulDelete`). A caller can arrange that: if no
  creation of an id overlaps a cleanup of the same id, every record keeps its
  body (`EveryRecordHasItsBodyUnlessOverlapped`); if one does, it can lose it
  (`OverlappingCleanupLosesBody`).
- A failed discard may have swapped the draft (`FailedDiscardMayHaveSwapped`):
  two overlapping attempts are enough, and so is one client that crashes after
  its swap, is overwritten and tries again. If calls with the key do not overlap
  and nothing writes the draft between a swap and the settling of its record, a
  failed discard left the draft alone (`UndisturbedFailureLeavesDraft`). A swap
  whose attempts have all stopped can still end applied exactly while the draft
  is at the version that the swap wrote (`StoppedSwapCanApplyIffDraftIsStill`).
- The version of the production store's active pointer steps by one after every
  continuation exactly for swaps that supply the expected version, or expect no
  pointer (`VersionStepsByOneIffChecked`); without it two swaps can store the
  same version (`UncheckedSwapRepeatsVersion`).
- Import followed by export returns the bundle exactly for canonical bundles
  with at least one alias (`ImportThenExportIffCanonical`). The import writes the
  alias document only when there are aliases to create, and the export refuses a
  store without one.
- The validator of an activation record can reject a change that passed its
  guards exactly when the clock reads earlier than the record's creation
  (`ValidatorRejectsOnlyClockErrors`).
- Counting calendar values by summing the ranges is exact exactly for ranges
  that do not overlap (`CountIsExactIffDisjoint`).

`dafny verify dfyconfig.toml` checks everything.

## Model

| member | source | states |
|---|---|---|
| `Revisions.AncestorTransitive` | src/justflow/configuration/models.py:484-498 | The ancestor-or-self relation of revision identities composes. |
| `Revisions.AncestorIsShallower` | src/justflow/configuration/models.py:484-498 | A parent is part of its child's identity, so a proper ancestor is strictly nearer to a root and the parent relation is acyclic. |
| `AwsStore.CountedByParent` | src/justflow/configuration/aws.py:460-496 | In a store whose counts are exact, the parent of a record has a positive count, so a childless record is nobody's parent. |
| `AwsStore.CreateKeepsForest` | src/justflow/configuration/aws.py:180-224 | Storing a revision (with the transaction that increments its parent) keeps: every count equals the number of records naming that parent, every named parent exists, the active pointer refers to a record. |
| `AwsStore.DeleteKeepsForest` | src/justflow/configuration/aws.py:557-614 | Deleting a record (with the transaction that decrements its parent) keeps the same invariant. |
| `AwsStore.MarkerKeepsForest` | src/justflow/configuration/aws.py:498-555 | Acquiring and releasing a cleanup marker keep the same invariant. |
| `AwsStore.ParentNeverBlocksDelete` | src/justflow/configuration/aws.py:557-614 | When the conditions of a delete on the record itself hold, its parent-side condition holds too, so it never fails on its own. |
| `AwsClients.EveryRunKeepsForest` | src/justflow/configuration/aws.py:134-614 | From an invariant state, every interleaving of create, draft, activate, retain and cleanup steps by any number of crashing clients keeps the invariant, stale index reads included. |
| `AwsClients.ReachableForest` | src/justflow/configuration/aws.py:328-352 | Started from the empty store, every reachable state has exact counts, existing parents and an active pointer that refers to a revision record. |
| `AwsClients.DeleteStopsOnlyAtItsOwnRecord` | src/justflow/configuration/aws.py:579-614 | In every reachable state a retaining client whose delete is refused is refused by its own record (gone, counted or active), never by its parent. |
| `AwsPointer.CheckedSwapIncrementsVersion` | src/justflow/configuration/aws.py:304-352 | In every run, a pointer swap that supplies the expected version, or expects no pointer, steps the version by exactly one if it is stored. |
| `AwsPointer.UncheckedSwapRepeatsVersion` | src/justflow/configuration/aws.py:304-352 | From every state in which a client without an expected version is about to write over the pointer that it read, a self-swap of the active revision by another client makes both store the same version. |
| `AwsPointer.UncheckedSwapCanStepBack` | src/justflow/configuration/aws.py:304-352 | From every such state some continuation makes the version go back. |
| `AwsPointer.VersionStepsByOneIffChecked` | src/justflow/configuration/aws.py:304-352 | For a client about to write over the pointer that it read, its write steps the version by one after every continuation of the others if and only if the caller supplied the expected version or expects no pointer. |
| `AwsBodies.EveryRunKeepsDrafts` | src/justflow/configuration/aws.py:134-168 | Under every interleaving the stored draft, and every draft about to be stored, has its body. |
| `AwsBodies.BodiesKeptIffNoHarmfulDelete` | src/justflow/configuration/aws.py:388-415 | Counting as needed the bodies of records and of creations that have put theirs: where all needed bodies are present, one step of any client keeps that so if and only if it is not the deletion of a needed body. |
| `AwsBodies.SeparateRunKeepsBodies` | src/justflow/configuration/aws.py:170-224 | Under every interleaving in which no creation of an id overlaps a cleanup of the same id, every record keeps its body, crashes included. |
| `AwsBodies.EveryRecordHasItsBodyUnlessOverlapped` | src/justflow/configuration/aws.py:388-415 | Started from the empty store, every such run gives each record the body that its key commits to. |
| `AwsBodies.RunAloneKeepsBodies` | src/justflow/configuration/aws.py:170-224 | For calls that do not overlap but may stop between any two storage steps, every record keeps its body, however many crashes occur. |
| `AwsBodies.EveryRecordHasItsBody` | src/justflow/configuration/aws.py:687-709 | In every state such calls reach from the empty store, each revision record has a body, and every body is the content its key commits to. |
| `AwsBodies.LeftoverMarkerBlocksUntilCleanup` | src/justflow/configuration/aws.py:388-415 | A marker left by a crash refuses re-creation of that id; a later cleanup removes body and marker, after which creation succeeds. |
| `AwsBodies.OverlappingCleanupLosesBody` | src/justflow/configuration/aws.py:402-414 | From every state in which a cleanup is about to delete, a concrete four-step overlap with a creation leaves a record without its body: the exclusion of overlap above is needed. |
| `AwsRetention.CountReferences` | src/justflow/configuration/aws.py:439-448 | The counting loop returns, for every listed revision, the number of listed rows that name it as parent. |
| `AwsRetention.ValidateChildReferenceCounts` | src/justflow/configuration/aws.py:439-458 | The audit succeeds if and only if every stored count equals the recounted one, and then returns exactly the referenced revisions. |
| `AwsRetention.CountIsCardinality` | src/justflow/configuration/aws.py:439-448 | The recount equals the cardinality of the set of children. |
| `AwsRetention.ForestCountsAgree` | src/justflow/configuration/aws.py:439-458 | In a store that satisfies the invariant the audit passes. |
| `AwsRetention.AwsConfigurationStore.CleanupOrphanedRevisionBody` | src/justflow/configuration/aws.py:388-415 | Refused and without effect while the id has a record; otherwise removes the body and leaves no marker. |
| `AwsRetention.AwsConfigurationStore.RetainRevisions` | src/justflow/configuration/aws.py:359-386 | Deletes exactly the candidates of the listing in descending (created_at, id) order, records and bodies alike, keeps the invariant, the pointer and the draft, and fails only for out-of-range arguments or too long listings. |
| `Retention.CandidateFacts` | src/justflow/configuration/sqlite.py:328-372 | Candidates are rows beyond the newest `keep_latest` that are neither active nor a parent, at most `delete_limit` of them. |
| `Retention.RetentionIsSafe` | src/justflow/configuration/sqlite.py:328-372 | One call removes no ancestor-or-self of the active or the newest revisions, keeps the newest rows in front, leaves every parent listed, and stays within the limit. |
| `Retention.DoomedHasNoDescendant` | src/justflow/configuration/sqlite.py:343-372 | A listed revision that nobody names as parent has no listed proper descendant. |
| `Retention.FixpointRowIsLive` | src/justflow/configuration/sqlite.py:328-372 | Where a call would delete nothing, every row is an ancestor-or-self of the active revision or of one of the newest. |
| `Retention.RetentionShrinksUntilExact` | src/justflow/configuration/sqlite.py:328-372 | A call with a positive limit strictly shrinks the listing unless the listing already is exactly the live revisions. |
| `Retention.RetentionCollectsExactly` | src/justflow/configuration/sqlite.py:328-372 | With no other writer, as many calls as there are rows leave, in the same order, exactly the ancestors-or-self of the active revision and of the newest `keep_latest`: an exact collector. |
| `SqliteStore.SqliteConfigurationStore.CompareAndSwapDraft` | src/justflow/configuration/sqlite.py:90-125 | The draft changes if and only if the caller names its current version (or its absence), and then to the next version with the given document. |
| `SqliteStore.SqliteConfigurationStore.CreateRevision` | src/justflow/configuration/sqlite.py:127-186 | Creation is idempotent, refuses a missing parent, and otherwise adds exactly one row at its place in listing order. |
| `SqliteStore.SqliteConfigurationStore.CompareAndSwapActive` | src/justflow/configuration/sqlite.py:280-326 | The pointer changes exactly when the target exists and the expectations hold, and its version then grows by one. |
| `SqliteStore.SqliteConfigurationStore.ListRevisions` | src/justflow/configuration/sqlite.py:219-260 | A page is the stretch of the listing that the cursor and the limit determine, with the cursor of the next page exactly when there is more; a limit out of range is refused. |
| `SqliteStore.SqliteConfigurationStore.RetainRevisions` | src/justflow/configuration/sqlite.py:328-372 | Leaves the listing that the retention function defines, keeping order, parents and pointer. |
| `SqliteStore.SqliteConfigurationStore.DeleteRevisions` | src/justflow/configuration/sqlite.py:359-370 | The deletion loop removes exactly the given rows and never a row that another row still names as parent. |
| `SqliteStore.StorePagesAreExact` | src/justflow/configuration/sqlite.py:219-260 | Following the pages of a store that satisfies its schema at every request, whatever is created or retired in between, gives keys in strictly descending order, only keys of listed rows, and every row listed throughout. |
| `SqliteStore.StorePagesAreTheListing` | src/justflow/configuration/sqlite.py:219-260 | On a store that does not change, the pages together are its whole listing. |
| `Pagination.ConcurrentPagingIsExact` | src/justflow/configuration/sqlite.py:219-260 | Following cursors while rows come and go returns no row twice, in descending (created_at, id) order, and every row present throughout once the reader finishes. |
| `Pagination.PagingRefinesFullListing` | src/justflow/configuration/activation_sqlite.py:358-408 | On an unchanging table, for every page size and cursor, following cursors returns exactly the rest of the table. |
| `Publication.EveryRunFollows` | src/justflow/configuration/publication.py:426-608 | Over every run of racing, crashing and retried calls a record's request digest never changes, its version only grows, failed may return to pending, and an applied record never changes again. |
| `Publication.AllSuccessesAgree` | src/justflow/configuration/publication.py:741-760 | Any two successful calls with one key, whenever and by whomever made, return the same record and so the same source and published revisions. |
| `Publication.PublishedIsWhatWasRequested` | src/justflow/configuration/publication.py:426-608 | A returned publication is the stored record of the draft version that this call asked for; it names a source revision of the document its request committed to, and both revisions were created. |
| `Publication.ReusedKeyNeverSucceeds` | src/justflow/configuration/publication.py:441-478 | A key that once published one draft version never succeeds for another one. |
| `Publication.RevisionsPrecedeApplied` | src/justflow/configuration/activation_sqlite.py:223-254 | At the step that makes a record applied, both its revisions already exist. |
| `Publication.UpdateKeeps` | src/justflow/configuration/activation_sqlite.py:223-254 | A version-checked update over the record a client holds is a legal change of that record. |
| `Publication.RetryAfterAnyCrashPublishes` | src/justflow/configuration/publication.py:690-704 | A pending, failed or absent record never blocks an identical retry: alone and with valid input, after any crashes, ten further steps publish. |
| `Discard.EveryRunFollows` | src/justflow/configuration/publication.py:284-374 | Over every run a settled discard record never changes and the draft's history is never rewritten. |
| `Discard.DiscardIsExactlyOnce` | src/justflow/configuration/publication.py:340-374 | For one key at most one swap changes the draft, and an applied record names the version right after the expected one, at which the draft held exactly the tenant configuration that the named active revision was resolved from. |
| `Discard.DiscardedIsWhatWasRequested` | src/justflow/configuration/publication.py:294-339 | A successful call returns the stored record of the draft version and the active revision that it asked for. |
| `DiscardFailures.UndisturbedFailureLeavesDraft` | src/justflow/configuration/publication.py:340-358 | In every run in which calls with the key do not overlap and nothing writes the draft between a swap and the settling of its record, a failed record means that no swap took place. |
| `DiscardFailures.SwapWroteActiveDocument` | src/justflow/configuration/publication.py:340-347 | In every run, a swap that took place wrote the active document as the version after the expected one. |
| `DiscardFailures.OverwrittenSwapIsNeverApplied` | src/justflow/configuration/publication.py:348-352 | Once the swap is overwritten and no attempt is about to complete, no continuation applies the record. |
| `DiscardFailures.StoppedSwapCanApplyIffDraftIsStill` | src/justflow/configuration/publication.py:340-374 | After a swap whose attempts have all stopped, some continuation applies the record if and only if the draft is at the version that the swap wrote. |
| `DiscardFailures.RetryAfterOverwriteFails` | src/justflow/configuration/publication.py:348-355 | From every state after a swap, a crash, another draft write and a retry by the same client leave the record failed although the swap took place. |
| `DiscardFailures.OverlappingAttemptFailsAfterSwap` | src/justflow/configuration/publication.py:342-355 | From every state in which two attempts have read the draft at the expected version, one swaps it and the other fails the record. |
| `DiscardFailures.FailedDiscardMayHaveSwapped` | src/justflow/configuration/publication.py:706-723 | Both runs exist from the empty store. |
| `Discard.SwapKeeps` | src/justflow/configuration/sqlite.py:90-125 | The swap succeeds only at the expected version, so no second swap with the same key can. |
| `Discard.AllSuccessesAgree` | src/justflow/configuration/publication.py:706-723 | All successful calls with one key return the same record. |
| `Discard.RetryAfterAnyCrashEndsApplied` | src/justflow/configuration/lifecycle.py:199-235 | With no other writer, after a crash at any step, an attempt allowed five steps ends applied with the draft at exactly the next version. |
| `Activation.ApplyKeepsSound` | src/justflow/configuration/activation_store.py:136-281 | Every stored change keeps the validated state and the history a walk in the allowed graph, only extends the histories, and raises the version by one; a repeat changes nothing. |
| `Activation.ValidatorRejectsOnlyClockErrors` | src/justflow/configuration/activation.py:362-390 | Once the guards of an operation pass, the model validator accepts the new record if and only if the clock does not read earlier than the record's creation. |
| `Activation.TerminalStatesAbsorb` | src/justflow/configuration/activation_store.py:284-316 | No transition leaves SUPERSEDED or ROLLED_BACK. |
| `Activation.AppliedAtMostOnce` | src/justflow/configuration/activation_store.py:284-316 | A sound history enters APPLIED at most once, and after it has at most one more transition. |
| `Activation.EveryReachableRecordIsSound` | src/justflow/configuration/activation.py:336-390 | Every record reached from a fresh pending one is sound, its version counts the changes made, and checkpoints stay unique and bounded by the number of kinds. |
| `ActivationLease.EveryRunKeeps` | src/justflow/configuration/activation_sqlite.py:324-356 | Over every run of version-checked updates the stored record is sound and every client holds some earlier stored version. |
| `ActivationLease.LeaseHoldsUntilExpiry` | src/justflow/configuration/activation_store.py:208-251 | With a clock that does not run backwards, no other owner's acquisition is stored before a lease expires, unless its owner gave it up or a releasing transition was stored. |
| `ActivationLease.LeaseExcludesOthersFromFresh` | src/justflow/configuration/activation_store.py:208-251 | The same in every run from a fresh record, whatever happened before the lease was stored. |
| `ActivationLease.TakeoverOnlyAfterExpiry` | src/justflow/configuration/activation_store.py:161-172 | A step that replaces one owner's stored lease by another's happens at or after its expiry. |
| `ActivationSaga.AppliedOnlyAfterEveryStage` | src/justflow/runtime/configuration_activation.py:670-720 | However controllers race, crash, fail and resume, an activation is applied only with the confirmed checkpoint of every stage its plan calls for, and after the active pointer named its target at the version after the expected one. |
| `ActivationSaga.StagesActInOrder` | src/justflow/runtime/configuration_activation.py:690-712 | In every run a stage acts only when every needed earlier stage has its checkpoint in the stored record; in particular the active pointer moves only after the catalog and worker routing checkpoints, and only to the target. |
| `ActivationSaga.PointerMovesAtMostOnce` | src/justflow/runtime/configuration_activation.py:1102-1135 | However often the saga is resumed, it moves the active pointer at most once. |
| `ActivationSaga.UpdateKeeps` | src/justflow/runtime/configuration_activation.py:1340-1382 | A version-checked update over the held record keeps the invariant if a checkpoint comes after its stage and only a complete activation is applied. |
| `ActivationResume.ResumeAfterAnyCrashApplies` | src/justflow/runtime/configuration_activation.py:670-720 | However often one undisturbed controller crashed, at whatever step, resuming applies the activation within twenty-four further steps, given its bindings, matching readiness and room in the history. |
| `ActivationResume.FreshIsResumable` | src/justflow/runtime/configuration_activation.py:634-668 | A fresh activation whose planned pointer is in place can be resumed so. |
| `CompositionGraph.FinishOrderIsAcyclic` | src/justflow/config/validator.py:263-301 | A graph whose nodes can all be listed after everything they point to has no closed path. |
| `CompositionGraph.CycleSearch.Visit` | src/justflow/config/validator.py:282-301 | The three-colour visit finishes the node and restores the stack, keeps finished nodes in finish order except across recorded back edges, and records only real closed paths. |
| `CompositionGraph.CheckCompositionCycles` | src/justflow/config/validator.py:263-301 | The check reports nothing if and only if the composition graph is acyclic, and each reported list is a real closed path. |
| `MerkleDag.DigestCommitsToTree` | src/justflow/definitions/manifest.py:142-150 | With an injective hash, two workflows of any two graphs have equal digests if and only if their unfolded manifest trees are equal. |
| `MerkleDag.ManifestIsLocal` | src/justflow/definitions/manifest.py:164-262 | A manifest depends only on the nodes reachable from it. |
| `MerkleDag.MemoIsManifest` | src/justflow/definitions/manifest.py:164-186 | What the memo holds is what the unmemoised recursion returns, whatever was visited before. |
| `MerkleDag.BuildableIffAllManifests` | src/justflow/definitions/manifest.py:164-194 | The recursion succeeds for every workflow if and only if the graph is acyclic and every name resolves. |
| `DefinitionManifests.CollectResources` | src/justflow/definitions/manifest.py:204-221 | The worklist returns the transitive closure of the used resources if every name in it is known, and otherwise names an unknown one. |
| `DefinitionManifests.AssembleHeader` | src/justflow/definitions/manifest.py:196-262 | The provider contracts cover exactly the used services and the transitive closure of the used resources. |
| `DefinitionManifests.ManifestBuilder.Build` | src/justflow/definitions/manifest.py:164-262 | One recursive call extends a correct memo to a correct memo that holds the workflow, or stops with a justified error. |
| `DefinitionManifests.BuildDefinitionManifests` | src/justflow/definitions/manifest.py:152-272 | The build succeeds if and only if the graph is acyclic and every name resolves, and then returns for every workflow the manifest of the unmemoised recursion. |
| `DefinitionManifests.JustifiedErrorBlocksBuild` | src/justflow/definitions/manifest.py:164-194 | Each reported error names a true cause: a closed path or a name that does not exist. |
| `DefinitionManifests.ManifestDependsOnlyOnReachable` | src/justflow/definitions/manifest.py:152-286 | A digest depends only on what is reachable from its workflow, the limits and the engine ABI. |
| `DefinitionManifests.ValidatorSearchesManifestGraph` | src/justflow/config/validator.py:263-281 | The graph the validator searches is the child graph the build recurses over. |
| `DefinitionManifests.BuildableIffValidated` | src/justflow/definitions/manifest.py:152-194 | The build can be stopped only by what the validator reports: a composition cycle or an unknown name. |
| `PreparedDefinitions.NewCatalog` | src/justflow/definitions/catalog.py:92-113 | A catalog is accepted if and only if no key repeats and no alias dangles, and then indexes exactly the given manifests. |
| `PreparedDefinitions.BuiltIsAuthored` | src/justflow/definitions/catalog.py:147-159 | A built manifest set is keyed by logical name and its child identities stay inside it. |
| `PreparedDefinitions.PrepareTarget` | src/justflow/definitions/runtime.py:43-74 | After the aliases are verified, none of the lookups of a workflow's manifest, children and snapshots fails, and they return the workflow's own. |
| `PreparedDefinitions.PrepareDefinitions` | src/justflow/definitions/runtime.py:31-92 | Preparation succeeds if and only if the workflows can be built, the published aliases are exactly their manifests and there is a snapshot for each; each failure names the first that is missing, and no later lookup can fail. |
| `CatalogStore.EveryRunKeeps` | src/justflow/definitions/catalog.py:183-260 | At every step and crash point of interleaved publishing and alias replacement, aliases point to stored manifests and stored manifests never change. |
| `CatalogStore.AliasesNeverDangle` | src/justflow/definitions/catalog.py:245-260 | From the empty catalog every reachable alias names a stored manifest with that name and digest. |
| `CatalogStore.LoadNeverSeesDanglingAliases` | src/justflow/definitions/catalog.py:251-260 | Because aliases are read before manifests are listed, a load concurrent with any writers never finds a dangling alias. |
| `CatalogStore.NoLostUpdate` | src/justflow/definitions/s3.py:144-190 | In every run, a publisher that changes the aliases replaces exactly the alias object that it read, and a replacement exactly the document that its version named at any earlier point of the run. |
| `CatalogStore.PublisherExpectsWhatItRead` | src/justflow/definitions/catalog.py:183-204 | In every run, a publication that changes the aliases replaces what it read, however long ago, by the digests of its own manifests, all of them stored. |
| `Ordering.SortedIsAscending` | src/justflow/definitions/migration.py:64-77 | Sorting a set lists exactly its items in strictly ascending order. |
| `Ordering.AscendingIsUnique` | src/justflow/definitions/migration.py:57-78 | An ascending list is determined by its items, so a canonical bundle is unique. |
| `CatalogMigration.PlanHasNoConflictIffCompatible` | src/justflow/definitions/migration.py:194-261 | A plan has no conflict if and only if no stored object contradicts the bundle and every stored alias is one of the bundle's. |
| `CatalogMigration.PlanHasNoChangesIffContained` | src/justflow/definitions/migration.py:126-132 | A plan has no changes if and only if everything in the bundle is already stored. |
| `CatalogMigration.BetweenStaysOnCourse` | src/justflow/definitions/migration.py:264-288 | From every state between the start and the end of an import, the import is still free of conflicts and has the same result. |
| `CatalogMigration.ImportReachesMerged` | src/justflow/definitions/migration.py:264-288 | A conflict-free import ends with the union of the manifests and of the snapshots and with exactly the bundle's aliases. |
| `CatalogMigration.InterruptedImportConverges` | src/justflow/definitions/migration.py:264-288 | After any prefix of the writes, re-planning has no conflict and re-running reaches the same state; planning again finds nothing to do. |
| `CatalogMigration.ExportIsCanonical` | src/justflow/definitions/migration.py:185-191 | An exported bundle is valid and in canonical order. |
| `CatalogMigration.ImportThenExportIffCanonical` | src/justflow/definitions/migration.py:185-191 | Importing a valid bundle into an empty store and exporting returns the same bundle if and only if it is in canonical order and has at least one alias; a bundle without aliases leaves a store that refuses to be exported. |
| `CatalogMigration.ExportThenImportCopies` | src/justflow/definitions/migration.py:185-191 | Exporting a store and importing into an empty one copies it, except that an empty alias document is not re-created. |
| `CatalogImport.DefinitionCatalogStore.StoreDefinitionManifest` | src/justflow/definitions/catalog.py:215-216 | Write-once: stores a new manifest, accepts an equal one, refuses a different one without effect. |
| `CatalogImport.DefinitionCatalogStore.ReplaceCatalogAliases` | src/justflow/definitions/catalog.py:218-230 | Refuses dangling aliases and a wrong expected version without effect; otherwise the given document is stored. |
| `CatalogImport.DefinitionCatalogStore.PlanCatalogImport` | src/justflow/definitions/migration.py:194-261 | The planning loops return the specified plan, or an error if the stored aliases dangle. |
| `CatalogImport.DefinitionCatalogStore.ImportCatalog` | src/justflow/definitions/migration.py:264-288 | Succeeds if and only if store and bundle are compatible; then the store is their join, otherwise it is unchanged. |
| `CatalogImport.AliasesCollide` | src/justflow/definitions/migration.py:155-179 | The guard refuses exactly when both sides have aliases and these differ. |
| `CatalogImport.MigrateUnscopedCatalog` | src/justflow/definitions/migration.py:168-182 | Succeeds if and only if there is nothing to move or the scoped side has no other aliases and no contradicting object; then the scoped store has the unscoped aliases and both sets of objects. |
| `StructuralDiff.DiffIsExact` | src/justflow/configuration/publication.py:837-881 | An item is reported if and only if it is an update, creation or deletion by an independent definition in terms of looking paths up in the two documents. |
| `StructuralDiff.DiffIsEmptyIffEqual` | src/justflow/configuration/publication.py:837-881 | The difference is empty if and only if the documents are equal. |
| `StructuralDiff.DiffIsPrefixFree` | src/justflow/configuration/publication.py:850-878 | No reported path is a prefix of another, and none is reported twice. |
| `StructuralDiff.SwappingSwaps` | src/justflow/configuration/publication.py:850-878 | Swapping the documents swaps CREATE and DELETE, keeps UPDATE, and keeps the order of the items. |
| `StructuralDiff.PatchingYieldsTarget` | src/justflow/configuration/publication.py:837-881 | Taking the target's values at exactly the reported paths turns the source into the target. |
| `StructuralDiff.DiffCollector.Compare` | src/justflow/configuration/publication.py:850-878 | The recursive comparison appends the specified items in order, and stops exactly when a limit is exceeded. |
| `StructuralDiff.ConfigurationDiff` | src/justflow/configuration/publication.py:837-881 | Raises if and only if the exact difference has more than 1,000 items or a path longer than 32, and otherwise returns it. |
| `YamlWalk.AcceptableIffUnfolds` | src/justflow/config/loader.py:369-427 | Being within the limits, stated over finite trees, is the same as having a bounded unfolding. |
| `YamlWalk.CycleHasNoUnfolding` | src/justflow/config/loader.py:380-386 | A node reachable from itself has no finite unfolding. |
| `YamlWalk.UnfoldingIsUnique` | src/justflow/config/loader.py:369-427 | A node has at most one unfolding. |
| `YamlWalk.NodeWalk.Visit` | src/justflow/config/loader.py:372-425 | Accepts a node if and only if its unfolding fits below the current depth and count, and then adds exactly its size to the shared counter; a refusal names a path that shows its cause, or every unfolding of the node exceeds the count. |
| `YamlWalk.ValidateYamlNode` | src/justflow/config/loader.py:369-427 | Accepts exactly the graphs, shared or cyclic, whose unfolding is a finite tree of depth at most 32, at most 50,000 nodes and at most 10,000 entries per collection; the counter is then its size. Each refusal is justified, too many nodes by every unfolding having more than 50,000. |
| `YamlWalk.RecursionHasNoUnfolding` | src/justflow/config/loader.py:380-386 | A document refused for recursion has no finite unfolding at all. |
| `JsonPointer.TwoPassesAreOne` | src/justflow/config/models.py:389 | Replacing ~1 and then ~0 equals one-pass decoding, on every text. |
| `JsonPointer.DecodeInvertsEncode` | src/justflow/config/models.py:389 | Splitting and decoding the standard pointer of a token path (section 4 of RFC 6901) gives the token path back. |
| `JsonPointer.EncodeInvertsDecodeIffPointer` | src/justflow/config/models.py:379-389 | Encoding the decoded tokens gives the path back if and only if it is a JSON Pointer by the grammar of section 3 of RFC 6901. |
| `JsonPointer.DecodingIsInjective` | src/justflow/config/models.py:402-403 | Two pointers are the same text if and only if they decode to the same token path. |
| `JsonPointer.HasValidEscapes` | src/justflow/config/models.py:381-388 | The index loop accepts exactly the texts in which every ~ is followed by 0 or 1. |
| `JsonPointer.CheckPath` | src/justflow/config/models.py:378-401 | Accepts exactly the pointers of token paths that name a redactable place. |
| `JsonPointer.ValidateRedactionPaths` | src/justflow/config/models.py:375-404 | Accepts exactly the bounded lists of such pointers without repetition. |
| `JsonPointer.AcceptedPathsNameDistinctPlaces` | src/justflow/config/models.py:402-403 | In an accepted list, different entries name different places. |
| `Calendar.ProgressionIsCounted` | src/justflow/config/schedules.py:214-218 | (end - start) // step + 1 is the number of values start, start + step, ... up to end. |
| `Calendar.CountIsExactIffDisjoint` | src/justflow/config/schedules.py:214-218 | The summed counts equal the number of values a field matches if and only if its ranges do not overlap, and exceed it otherwise. |
| `Calendar.ValidFieldIsCounted` | src/justflow/config/schedules.py:111-136 | An accepted field counts exactly its values, at most as many as the field is wide. |
| `Calendar.ValidateField` | src/justflow/config/schedules.py:123-136 | The loop with the seen set accepts exactly the in-bounds ranges that do not overlap. |
| `Calendar.ValidateFieldBounds` | src/justflow/config/schedules.py:110-136 | Accepts exactly the calendars whose seven fields are valid. |
| `Calendar.FiringTimesMatch` | src/justflow/config/schedules.py:138-144 | A time of day is counted if and only if hour, minute and second match. |
| `Calendar.MaximumDailyActionsIsExact` | src/justflow/config/schedules.py:138-144 | For an accepted calendar the bound equals the number of matching times of day and is at most 86,400. |

## Left out

- Scopes: every store is modelled for one scope; keys of different scopes never meet.
- Storage clients: boto3, sqlite3 and HTTP calls are reduced to their atomic conditional effects; an unavailable store is a step that does not happen or a crash.
- Text: canonical JSON, YAML parsing, base64 cursors and pydantic field patterns are not modelled; digests are taken as injective and pagination cursors as keys.
- LocalCatalogBackend: its compare-and-swap reads and then replaces, so it has no atomic step to model; concurrency is stated for the S3 backend.
- CatalogImport.DefinitionCatalogStore.ReplaceCatalogAliases: represents the version of an alias object by its document, and assumes that one importer works at a time.
- DefinitionManifests.BuildDefinitionManifests: leaves out the contract schema references of a manifest, which are derived from the authored workflow alone, and the errors of loading those schemas; the authored fields that the build copies unread are one opaque `rest` field.
- Publication.EveryRunFollows: takes the validation of a draft as a deterministic outcome given to the step, so the policy checks themselves are not modelled.
- AwsConfigurationStore.list_revisions: pagination of the production store through DynamoDB's own cursor is not part of this model.
- Pagination.ConcurrentPagingIsExact: inserted and deleted rows appear as a different table for each page; a row's key never changes.
- StructuralDiff.DiffIsExact: identifies leaf values up to Python's equality, and takes the digest that stands for an empty or overlong key as different from every plain key.
- ActivationSaga.AppliedOnlyAfterEveryStage: what the external systems answer, and whether a stage fails, are inputs of a step; the contents of the catalog, the schedules and the runtime index are not modelled.
- ActivationResume.ResumeAfterAnyCrashApplies: is stated for one controller whose stages succeed and whose readiness matches the plan.
- YamlWalk.ValidateYamlNode: starts from the composed node graph; the alias and nesting limits that the composer itself enforces are not modelled.
- Calendar.MaximumDailyActionsIsExact: does not use the declared bounds on the number of ranges of a field.
- Cron expressions, interval schedules, backfill policies, tenant policy checks, retirement blockers, activation planning, schedule reconciliation, worker runtimes, transports and the command line: not modelled; mostly one-branch facts.
