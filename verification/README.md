# Cossack: a verified model

This project models the parts of Cossack in which most can go wrong, and proves what they promise: the ORM's
persistence engine, the preview ownership protocol, the app-model validator, package export discovery, session
rotation, and six smaller state machines. Each model takes the form of the code it follows. Objects whose fields are
updated in place are classes, loops are loops, and both are proved against functions about which the laws are stated;
interleavings with crashes, lost replies and other actors are state machines over their atomic steps.

Check everything with `dafny verify dfyconfig.toml` (Dafny 4.11).

| file | models |
|---|---|
| `Transactions.dfy` | nested transactions as SAVEPOINT, RELEASE and ROLLBACK TO on one connection, with statements that are refused or whose reply is lost |
| `JoinTables.dfy` | replacing the rows of a many-to-many join table, in a transaction, a batch or statement by statement |
| `DirtyTracking.dfy` | deep snapshots, their comparison, and what a column stores |
| `VersionLock.dfy` | hydrating and saving one versioned row from many entities |
| `Relations.dfy` | loading relations with bounded IN-lists and string-keyed maps |
| `Preview.dfy`, `PreviewClient.dfy` | the journalled preview protocol against an unreliable provider shared with others; the commands that run it |
| `AppModel.dfy`, `AppModelErrors.dfy`, `AppModelSchema.dfy`, `AppModelMeaning.dfy` | the recursive schema validator; where its errors point; the app model's own schema; what its building blocks accept and report |
| `ExportTargets.dfy`, `ExportPatterns.dfy` | flattening conditional exports; wildcard matching, substitution and key order |
| `Sessions.dfy` | sessions over a store with compare-and-swap |
| `SnapshotFraming.dfy`, `SnapshotWalk.dfy`, `TestReports.dfy` | the hashed byte stream; the bounded walk and freshness; choosing a report |
| `TranslationExports.dfy` | following re-exports with one shared set of seen tokens |
| `JsonProcess.dfy` | supervising a child process and its envelopes |
| `DevelopmentLoader.dfy` | reloading a desktop entry while its sources change |
| `JsoncEdit.dfy` | splicing edits into commented JSON |
| `Wrappers.dfy`, `Decimal.dfy` | an option type; decimal text |

## What the proofs found

The code was followed everywhere. Where it does less than it promises there is an input, and a lemma that says for all
inputs when it keeps the promise:

- A nested transaction equals "restore on failure" unless its own ROLLBACK TO is refused or a RELEASE takes effect but
  is reported as failed. `NestedEnds` gives the outcome of every nested transaction under every fault,
  `FailedNestedRestores` when a failed one has put its entry data back. A lost RELEASE can undo a write of the
  *enclosing* transaction, through a leftover savepoint of the same name (`LostReleaseUndoesOuterWrite`).
- The comment at `packages/database/src/orm.ts:719` promises that replacing join rows is all-or-nothing. Inside an open
  transaction whose caller catches the error, and on drivers with neither transactions nor batch, it is not
  (`HalfReplacement`, `AtomicExactly`).
- An ArrayBuffer in a binary column is compared by its JSON, `{}`, so replacing it with another goes unnoticed
  (`BinaryChangeMissedExactly`). `UnchangedStoresSame` says for every column kind when that can happen,
  `EnumChangeMissed` gives the case of an enum column.
- Many-to-many loading does not remove duplicate owner keys before chunking, so a repeated key that falls into two
  chunks gets its targets twice (`SplitLoadsTwice`), and all loaders look rows up by `String(key)`, so 1 and "1" share
  their rows (`ByTextExactly`, `LoadsJoinsExactly`).
- Without `createEmptyPreview` a preview made by someone else under the same name can be removed, with it never
  (`SharedPreviewRemoved`, `RemovesOnlyOwnExactly`).
- A second cleanup can save "cleaned" again without a fresh read (`CleanedRewritten`), which happens exactly when that
  save records new proof over a journal already cleaned (`CleanedExactly`, `ProtocolIsSafe`).
- A fallback array is called final by the flattening even if none of its entries is enabled, so rows after it can be
  lost (`PruningExactly`). No row left out is ever the one to choose exactly when each has an earlier row that needs
  no other keys (`LeftOutExactly`), and then the rows select what resolution returns (`CoveredIsFaithful`). They do so
  in general exactly when they do under each union of the keys of two rows (`FaithfulExactly`). Treating such an array
  as blocking does not agree with the rows either (`BlockedReadingDiffers`); it does exactly under the same test
  against the rows with a null behind every array (`BlockedReadingExactly`).
- Substitution expands `$$`, `$&`, `` $` `` and `$'` inside captured file names, and an advertised subpath then does not
  lead back to its file (`SubstitutesExactly`, `ResolvesSubstituted`, `DiscoveryExactly`).
- The re-export search identifies places by `file:name`; two places with one token can hide a translation export
  (`CollisionHides`, `ColonHides`). The search is exact for all programs over given files and names exactly when tokens
  tell their places apart (`ExactExactly`).
- A new key is inserted one character behind the last property when that has a trailing comma, wherever the comma
  stands, so `{"a": 1 ,}` becomes invalid JSON (`DetachedComma`, `CommaBetween`).
- An edit inside a value that another edit replaces passes the ambiguity test, and text of it survives or text behind
  the value is lost (`NestedEditsGarble`), unless it keeps the length, or shortens a text that ends with the value
  (`NestedEditsExactly`).

## Model

| member | source | states |
|---|---|---|
| Transactions.SavepointsMeanSnapshots | packages/database/src/orm.ts:146-169 | for every callback program, at every depth and on every stack with leftover or same-named savepoints, on servers that shadow or replace a name, the savepoint run ends with the data and outcome of "snapshot on entry, restore on failure", as long as no RELEASE reply is lost and no ROLLBACK TO is refused |
| Transactions.NestedEnds | packages/database/src/orm.ts:146-164 | under every fault, on every server and stack: a nested call whose callback kept the enclosing savepoints succeeds exactly when RELEASE did; else its entry data is restored, or kept as the callback left it when ROLLBACK TO was refused or RELEASE took effect unnoticed, or, when a lost RELEASE meets an older savepoint of that name, replaced by the data of that one |
| Transactions.FailedNestedRestores | packages/database/src/orm.ts:157-164 | a nested call that failed, in its callback or in RELEASE, has put its entry data back exactly when its ROLLBACK TO went through without RELEASE having taken effect, or nothing had changed; if ROLLBACK TO found an older savepoint, exactly when that held the same data |
| Transactions.NestedKeepsExactly | packages/database/src/orm.ts:154-164 | a nested call keeps the enclosing savepoints exactly when it does not fall back to an older savepoint that lies under one of them |
| Transactions.CallbackKeeps | packages/database/src/orm.ts:157-158 | every callback during which no RELEASE reply is lost keeps the enclosing savepoints, so the three statements above apply to it |
| Transactions.RefusedRollbackKeepsWrites | packages/database/src/orm.ts:161-164 | with ROLLBACK TO refused, a caught nested failure keeps its writes |
| Transactions.LostReleaseUndoesOuterWrite | packages/database/src/orm.ts:154-163 | an instance: with a RELEASE reply lost, ROLLBACK TO finds a failed sibling's savepoint and undoes an outer write |
| Transactions.OutermostIsAtomic | packages/database/src/orm.ts:166-174 | the outermost transaction leaves the stored data untouched or exactly as the snapshot meaning of the whole callback |
| Transactions.OutermostExactly | packages/database/src/orm.ts:166-174 | without lost RELEASE replies and refused ROLLBACK TOs, what is stored is the callback's data exactly when BEGIN went through, the callback returned on a connection that is not poisoned and COMMIT took effect; the call returns exactly when COMMIT was heard, too |
| Transactions.HealthyCommits | packages/database/src/orm.ts:146-174 | on a healthy driver every callback that throws nowhere is committed with all its writes, nested ones included |
| Transactions.FindsLive | packages/database/src/orm.ts:154-162 | the statement naming a savepoint finds the innermost enclosing transaction's own, whatever leftovers lie between |
| Transactions.AfterNested | packages/database/src/orm.ts:154-164 | RELEASE and ROLLBACK TO alike leave what the enclosing transactions had on the stack |
| Transactions.Connection.SetSavepoint | packages/database/src/orm.ts:154-155 | the connection after SAVEPOINT, as the server contract has it |
| Transactions.Connection.ReleaseSavepoint | packages/database/src/orm.ts:159 | the connection after RELEASE SAVEPOINT |
| Transactions.Connection.RollbackTo | packages/database/src/orm.ts:162 | the connection after ROLLBACK TO SAVEPOINT, which keeps the savepoint |
| Transactions.Connection.Transaction | packages/database/src/orm.ts:146-164 | a nested `transaction` call in place does what its savepoint run says, and what its snapshot meaning says when no RELEASE reply is lost and no ROLLBACK TO refused |
| Transactions.Connection.Run | packages/database/src/orm.ts:157-158 | a callback run in place in an open transaction does what its program says |
| JoinTables.ReplacedMeans | packages/database/src/orm.ts:701-718 | after a replacement the owner is joined to exactly the related list in order, and every other owner's rows are as before |
| JoinTables.ReplacedAllMeans | packages/database/src/orm.ts:687-724 | after all relations are saved every owner has in each table the list last asked for there, and where none was asked for what it had |
| JoinTables.RowsPerStatement | packages/database/src/orm.ts:710-712 | at least one row, within the batch limit, within the parameter limit when that is at least two, and no fewer than they allow |
| JoinTables.InsertCountExactly | packages/database/src/orm.ts:713-718 | the rows are spread over as few INSERTs as can hold them |
| JoinTables.BuildStatements | packages/database/src/orm.ts:701-718 | one DELETE, then INSERTs of all related rows in order, each within the parameter limit when that is at least two |
| JoinTables.AtomicReplacement | packages/database/src/orm.ts:719-761 | for a failure at any statement the table is as it was or the replacement is complete, in the modes that promise it; a call that returns has replaced |
| JoinTables.HalfReplacement | packages/database/src/orm.ts:737-761 | otherwise an INSERT refused after the DELETE leaves the owner without rows |
| JoinTables.AtomicExactly | packages/database/src/orm.ts:730-762 | replacing is all-or-nothing under every failure exactly when the mode is a transaction or batch or the DELETE is all there is |
| JoinTables.ModeExactly | packages/database/src/orm.ts:730-741 | each mode is used only with what the driver offers: a transaction before a batch, neither inside an open transaction or for a lone statement |
| JoinTables.ReplacementSucceeds | packages/database/src/orm.ts:730-762 | without driver faults or exceeded limits the statements are applied and the call returns |
| JoinTables.RefusedChangesNothing | packages/database/src/orm.ts:730-762 | a driver that refuses everything changes nothing in any mode, and the call throws |
| JoinTables.Store.Execute | packages/database/src/orm.ts:734 | one statement: rejected beyond the parameter limit, else applied, refused or lost |
| JoinTables.Store.RunInOrder | packages/database/src/orm.ts:733-735 | statements in order up to the first that throws |
| JoinTables.Store.RunInTransaction | packages/database/src/orm.ts:738 | all statements' effects or none |
| JoinTables.Store.RunInBatch | packages/database/src/orm.ts:739-760 | a batch is rejected beyond its limits, else all or none |
| JoinTables.Store.ExecuteAtomically | packages/database/src/orm.ts:730-762 | picks the mode by depth, capabilities and statement count, and does what that mode does |
| JoinTables.Store.SyncJoinTables | packages/database/src/orm.ts:687-724 | where replacements are atomic, every relation's table is wholly replaced or untouched, in order; a normal return has replaced them all, and on a healthy driver the call returns normally exactly when no batch exceeds its limits |
| DirtyTracking.CloneIsEqual | packages/database/src/orm.ts:815-836 | a value compares equal to its own snapshot exactly when it is no invalid date and holds no bigint inside an object |
| DirtyTracking.CloneExactly | packages/database/src/orm.ts:815-825 | a snapshot is a faithful copy exactly of a value that holds no ArrayBuffer at any depth; each of those is copied as `{}` |
| DirtyTracking.EqualExactly | packages/database/src/orm.ts:827-836 | the verdict for every pair of values: dates by time, byte arrays by their bytes, other objects by their JSON, throwing exactly when one holds a bigint, anything else only as itself |
| DirtyTracking.LeavesJson | packages/database/src/orm.ts:829-834 | what JSON.stringify makes of dates, numbers, byte arrays and undefined |
| DirtyTracking.ItemsJsonAt | packages/database/src/orm.ts:829-834 | an array keeps its length in JSON, undefined items become null |
| DirtyTracking.FieldsJsonJoin | packages/database/src/orm.ts:829-834 | an object keeps the order of its fields in JSON |
| DirtyTracking.UnchangedStoresSame | packages/database/src/codec.ts:29-55 | a column left out of the changes would have stored what its snapshot stores: always in JSON and boolean columns, else exactly when the two are the same value, both empty in a binary column, or give the same or no allowed text in an enum column |
| DirtyTracking.EnumChangeMissed | packages/database/src/codec.ts:47-51 | in an enum column an array of NaN turned into an array of null is missed, when the first has an allowed text and the second another |
| DirtyTracking.EncodeFailsExactly | packages/database/src/codec.ts:29-55 | encoding throws exactly for an invalid date in a date column, a bigint inside a JSON column and a text an enum column does not allow |
| DirtyTracking.StoredAsIs | packages/database/src/codec.ts:29-55 | which values each column kind stores as they are, per dialect, and which it converts |
| DirtyTracking.TruthyExactly | packages/database/src/codec.ts:32-33 | a boolean column takes null, false, zeros, NaN and the empty text for false and everything else for true |
| DirtyTracking.JsonReadsBack | packages/database/src/codec.ts:36-37 | every value JSON has a form for, however deep, reads back from its JSON as it was |
| DirtyTracking.BooleanReadsBack | packages/database/src/codec.ts:32-62 | a boolean reads back as itself from every dialect's storage, any other value as whether it counts as true |
| DirtyTracking.DateTimeReadsBack | packages/database/src/codec.ts:11-34 | a stored timestamp is parsed from the very ISO text of its time, on every dialect |
| DirtyTracking.BlobReadsBack | packages/database/src/codec.ts:44-74 | byte arrays and buffers read back as the same bytes |
| DirtyTracking.NullStored | packages/database/src/codec.ts:29-30 | null and undefined, and nothing else, are stored as NULL in every column |
| DirtyTracking.BinaryChangeMissedExactly | packages/database/src/codec.ts:44-46 | a changed binary value is missed exactly when both values serialize to `{}` |
| DirtyTracking.SameThroughSnapshots | packages/database/src/orm.ts:827-836 | comparison chains through snapshots |
| DirtyTracking.BytesJson | packages/database/src/orm.ts:829-834 | byte arrays have the same JSON only when they are the same |
| VersionLock.ChangesAre | packages/database/src/orm.ts:340-345 | unless a comparison throws, the changes are exactly the compared columns whose value differs from the snapshot, with their present values |
| VersionLock.DetectionFailsExactly | packages/database/src/orm.ts:340-345 | detecting changes fails exactly when the comparison of some compared column throws |
| VersionLock.OutcomeExactly | packages/database/src/orm.ts:335-367 | the outcome of every save under every driver fault: it fails when a comparison throws, writes nothing when none differs, fails when a changed value or the update date does not encode or the driver does, and else is written exactly when the row still has the entity's version |
| VersionLock.WrittenExactly | packages/database/src/orm.ts:340-362 | a written save stores exactly the edited columns that may be updated, and the update date in its column; primary keys and all others keep their cells |
| VersionLock.WrittenDateAndVersion | packages/database/src/orm.ts:346-366 | a written save stores and sets the update date, counts the row's version up by one and leaves the entity at it |
| VersionLock.WrittenCells | packages/database/src/orm.ts:340-362 | an UPDATE touches no compared column but the changed ones and stores their encoding |
| VersionLock.RunsKeep | packages/database/src/orm.ts:272-294 | over any interleaving of hydrates, edits and saves the stored version is the first plus the number of updates, and each snapshot stands for the content at its version |
| VersionLock.WinnerHadLatest | packages/database/src/orm.ts:352-366 | a save that goes through was based on the row's present content and changes only what was really changed |
| VersionLock.StaleNeverWrites | packages/database/src/orm.ts:354-365 | a save from an outdated snapshot leaves the row alone, throws unless it had nothing to write, and stays outdated |
| VersionLock.StaleStays | packages/database/src/orm.ts:354-366 | staleness lasts through any retries until the entity is read again |
| VersionLock.QuietExactly | packages/database/src/orm.ts:340-361 | an unedited entity issues no UPDATE exactly when its compared values equal their own snapshots |
| VersionLock.CopiedAfterLoad | packages/database/src/orm.ts:282-284 | after loading, the snapshot is a copy of the values |
| VersionLock.LoadedAt | packages/database/src/orm.ts:272-285 | a loaded column has the decoded cell of the row as its value and a copy as its snapshot, any other column is unassigned |
| VersionLock.LoadedAfterSave | packages/database/src/orm.ts:272-366 | a changed column that was written is what the next load gives, with the new version, wherever its stored form reads back as the value |
| VersionLock.CopiedAfterSave | packages/database/src/orm.ts:625-631 | after a save, too, so a second save without edits is quiet |
| VersionLock.UnloadedNotWritten | packages/database/src/orm.ts:276-281 | a column that was not loaded and not assigned keeps its stored value in a save, also after earlier saves, and stays unassigned |
| VersionLock.UnloadedNeverWritten | packages/database/src/orm.ts:276-294 | over any run in which the column is neither loaded into the entity nor edited in it, every save of the entity leaves that cell alone |
| VersionLock.Table.UpdateWhere | packages/database/src/orm.ts:362 | the UPDATE with the version in its condition: affected rows and new content |
| VersionLock.Record.DetectChanges | packages/database/src/orm.ts:340-345 | the loop over the columns computes the changes, or throws with the first comparison that does |
| VersionLock.Record.RefreshSnapshot | packages/database/src/orm.ts:625-631 | the snapshot becomes a copy of every column |
| VersionLock.Record.Prepare | packages/database/src/orm.ts:346-359 | update date and next version are set on the entity and in the changes |
| VersionLock.Record.Send | packages/database/src/orm.ts:361-366 | the UPDATE, the lock failure at zero affected rows, and the new snapshot |
| VersionLock.Record.Save | packages/database/src/orm.ts:335-367 | a save in place has the entity, the row and the outcome its specification gives, which the rows above state in terms of comparisons, encodings and the row |
| Relations.ChunkedMatching | packages/database/src/orm.ts:764-793 | chunking changes no group of rows and no order in it when no key sits in two chunks |
| Relations.NumbersSeparable | packages/database/src/orm.ts:428-434 | integer keys and null are told apart by `String` |
| Relations.ManyToManyExactly | packages/database/src/orm.ts:489-521 | many-to-many lists are those of the plain join, whatever the tables hold, exactly when no owner key sits in two chunks |
| Relations.LocalLoadsJoin | packages/database/src/orm.ts:489-521 | then each owner's list is the join's, in junction order |
| Relations.SplitLoadsTwice | packages/database/src/orm.ts:489-502 | a key in two chunks has its only target listed twice |
| Relations.ChunkedFind | packages/database/src/orm.ts:764-778 | the chunked query returns each chunk's rows in order, for every limit; its queries ask for all values once, in order, each within the limit |
| Relations.IndexByKey | packages/database/src/orm.ts:428-431 | looking up a text gives the last row whose key has it |
| Relations.GroupByKey | packages/database/src/orm.ts:449-455 | looking up a text gives the rows whose key has it, in order |
| Relations.FirstMatching | packages/database/src/orm.ts:456-460 | the single child is that of the first row holding the key in table order, none when no row does |
| Relations.LastMatching | packages/database/src/orm.ts:422-435 | the referenced row is the last one holding the key, none when no row does |
| Relations.LoadToOne | packages/database/src/orm.ts:422-435 | for every parameter limit every entity gets the last fetched row with the text of its key, null for a null key; where `String` tells the entities' keys apart, the row its key references |
| Relations.LoadInverse | packages/database/src/orm.ts:436-460 | every entity gets the fetched rows with the text of its key, in order, or the first of them; where `String` tells the keys apart, the rows holding its key |
| Relations.ByTextExactly | packages/database/src/orm.ts:422-460 | rows fetched and found by text are the rows with the key, whatever the table holds, exactly when `String` tells the keys apart |
| Relations.LoadManyToMany | packages/database/src/orm.ts:461-521 | every entity gets, by text, the targets of its junction rows in order; where `String` tells owner and target keys apart, the chunked join's list, which is the plain join's when no key sits in two chunks |
| Relations.TextLoadsJoin | packages/database/src/orm.ts:489-521 | joining by text is the chunked join where `String` tells owner and target keys apart |
| Relations.LoadsJoinsExactly | packages/database/src/orm.ts:461-521 | the lists are the plain join's for all tables whose target keys `String` tells apart, exactly when it tells the owner keys apart and no owner key sits in two chunks |
| Preview.RunsKeep | packages/cossack/src/preview-service.js:185-269 | every run with crashes, lost replies and other actors keeps the protocol invariant |
| Preview.ProtocolIsSafe | packages/cossack/src/preview-service.js:185-269 | with a separate creation call only previews of this journal's own creation are ever removed; saved identities never change; a save of "cleaned" follows a read in the same call that found the name absent exactly when it records no new proof, and else an already cleaned journal |
| Preview.CleanedExactly | packages/cossack/src/preview-service.js:252-266 | in every run "cleaned" is saved without a read in that call exactly when the save records a preview or deployment the journal did not have |
| Preview.OwnIsNew | packages/cossack/src/preview-service.js:187-196 | in every run no id is given out twice: those in use lie below the first unused one, and those of the creation call were in nobody's use before |
| Preview.SaveKeeps | packages/cossack/src/preview-service.js:85-90 | every save keeps earlier identities and backs a new "cleaned" with evidence |
| Preview.OwnershipMatches | packages/cossack/src/preview-service.js:211-228 | ownership accepted from the latest deployment is of the preview the journal recorded, and with a separate creation call only if one was recorded |
| Preview.OwnershipExactly | packages/cossack/src/preview-service.js:211-228 | a truthful read of the latest deployment grants ownership exactly when the preview found bears the name, is the recorded one if one is recorded, and its latest deployment has the tag and is the recorded one if one is recorded; or, never deployed to, when its creation is recorded and no deployment is |
| Preview.RemovalsRestOnProof | packages/cossack/src/preview-service.js:211-268 | every removal in every run is of one preview for which a read in the same call gave that proof, by the latest deployment or, without recovery, by the recorded deployment itself |
| Preview.SharedPreviewRemoved | packages/cossack/src/preview-service.js:187-205 | without a separate creation call, with or without deployment recovery, another actor's preview can be removed |
| Preview.RemovesOnlyOwnExactly | packages/cossack/src/preview-service.js:187-269 | every removal in every run from a world without the tag is of an own preview exactly when there is a separate creation call |
| Preview.CleanedRewritten | packages/cossack/src/preview-service.js:252-257 | a later cleanup can save "cleaned" again without such a read |
| Preview.CleanupReaches | packages/cossack/src/preview-service.js:245-268 | with a saved proof that still holds, some continuation of the run removes that preview and no other |
| PreviewClient.Client.CreatePreview | packages/cossack/src/preview-service.js:185-206 | the creating command takes the protocol from its start to where it ends, without a step skipped; success leaves a deployed journal with preview and deployment; an existing journal is never overwritten |
| PreviewClient.Client.CleanupPreview | packages/cossack/src/preview-service.js:245-268 | the cleaning command takes the protocol from its start to where it ends; it removes exactly the preview found, when the read made then proves ownership, and else nothing; success leaves "cleaned" saved on evidence of absence from this call |
| PreviewClient.Client.RemoveOwned | packages/cossack/src/preview-service.js:253-268 | recovered proof is saved first and only when needed; one removal, by the id in that proof; then one last save, "cleaned" on evidence of absence read in this call or "unknown" |
| PreviewClient.Client.ReadLatest | packages/cossack/src/preview-service.js:214-228 | ownership of the preview found with its latest deployment exactly when that read is served and proves it against the journal, else refused |
| PreviewClient.Client.ReadLegacy | packages/cossack/src/preview-service.js:230-236 | without recovery, ownership exactly when the deployment read has the saved id and the tag |
| PreviewClient.Client.PostPreview | packages/cossack/src/preview-service.js:190-196 | a heard creation is recorded, any other is "unknown" |
| PreviewClient.Client.DeployOnce | packages/cossack/src/preview-service.js:197-202 | known exactly when the receipt is heard and names the preview created before, if one was; then preview and deployment are recorded, else the journal is "unknown" |
| PreviewClient.Client.DeployAndSmoke | packages/cossack/src/preview-service.js:197-206 | deployed and smoke-checked, else saved as "unknown" or "smoke-failed" for that reason |
| PreviewClient.Provider.CreateEmpty | packages/cossack/src/cloudflare-preview-provider.js:255-264 | POST makes a preview under a fresh id or nothing; its reply may be lost |
| PreviewClient.Provider.Deploy | packages/cossack/src/cloudflare-preview-provider.js:306-318 | a deployment goes to the preview bearing the name or a new one; its receipt may be lost |
| PreviewClient.Provider.LatestDeployment | packages/cossack/src/cloudflare-preview-provider.js:288-305 | the latest deployment of the preview, or its absence, or a failed read |
| PreviewClient.ClientIsSafe | packages/cossack/src/preview-service.js:148-269 | in every sequence of completed commands only own previews are removed and the invariant holds of the client's history |
| AppModel.CheckDecides | packages/core/src/app-model.ts:276-305 | `check` terminates on every value and well-founded schema, returns true exactly for values that satisfy the schema, and false exactly when it appended an error |
| AppModel.OptionsDecide | packages/core/src/app-model.ts:286-291 | anyOf and oneOf are decided by counting satisfied options |
| AppModel.ClosestReports | packages/core/src/app-model.ts:310-328 | when no option is satisfied, re-reporting appends at least one error |
| AppModel.RequiredReports | packages/core/src/app-model.ts:298-299 | every missing required key is reported, at its path, and nothing else |
| AppModel.ItemsReport | packages/core/src/app-model.ts:292-294 | every error of every item is reported, and nothing else |
| AppModel.FieldsReport | packages/core/src/app-model.ts:300-305 | every error of every field is reported, and nothing else |
| AppModel.ItemsMean | packages/core/src/app-model.ts:292-294 | items holds exactly when every item satisfies the schema |
| AppModel.OptionsMean | packages/core/src/app-model.ts:286-291 | anyOf asks for a satisfied option, oneOf for one and no second |
| AppModel.Validator.CheckSchema | packages/core/src/app-model.ts:275-305 | the imperative check returns its verdict and appends exactly its errors to the shared list |
| AppModel.Validator.CheckAllRules | packages/core/src/app-model.ts:276-286 | keywords in order, stopping at the first that fails |
| AppModel.Validator.CheckExactlyOne | packages/core/src/app-model.ts:287-291 | oneOf counts matches and reports too many or none |
| AppModel.Validator.Quiet | packages/core/src/app-model.ts:330-335 | trying an option returns its verdict and leaves the error list as it was |
| AppModel.Validator.AnyPasses | packages/core/src/app-model.ts:286 | some option passes, with the list unchanged |
| AppModel.Validator.CountPasses | packages/core/src/app-model.ts:288 | how many options pass, with the list unchanged |
| AppModel.Validator.ReportClosest | packages/core/src/app-model.ts:316-328 | reports inside the option that stands out, else that no shape matches |
| AppModel.Validator.CheckEachItem | packages/core/src/app-model.ts:292-294 | every item is checked, also after a failure |
| AppModel.Validator.CheckRequiredKeys | packages/core/src/app-model.ts:299 | each missing required key is reported |
| AppModel.Validator.CheckEachField | packages/core/src/app-model.ts:300-305 | every field is checked against its property or the rule for additional fields |
| AppModel.Validate | packages/core/src/app-model.ts:272-338 | a document is valid exactly when it satisfies the schema, and then there are no errors |
| AppModelErrors.ErrorsPoint | packages/core/src/app-model.ts:268-338 | every reported path is a pointer into the document: it leads to the value complained about or, for a missing key, to the object that lacks it, also when errors are re-reported inside another shape |
| AppModelSchema.SchemaIsWellFounded | packages/core/src/app-model.ts:206-261 | every reference in the app-model schema is defined and none loops without consuming data, so validation against it terminates |
| AppModelSchema.NodeNeverTwice | packages/core/src/app-model.ts:247-259 | for all data at most one node shape is satisfied, so oneOf over nodes never matches twice |
| AppModelSchema.NodeCheckedAsItsKind | packages/core/src/app-model.ts:312-328 | a value of a node kind gets exactly the verdict and errors of the shape of that kind |
| AppModelSchema.ShapeMeansKind | packages/core/src/app-model.ts:248-259 | satisfying a node shape fixes the value of `kind` |
| AppModelSchema.TagMeans | packages/core/src/app-model.ts:248-259 | an object schema with a required constant `kind` is only satisfied by objects of that kind |
| AppModelSchema.OnlyKindIsTarget | packages/core/src/app-model.ts:317-323 | the only option of the data's kind is the one reported inside |
| AppModelSchema.NamesExactly | packages/core/src/app-model.ts:200-203 | exactly the properties not listed as optional are required |
| AppModelMeaning.TypesMean | packages/core/src/app-model.ts:265-283 | a list of types admits exactly the values of one of them, an integer being a number without a fraction and a number too |
| AppModelMeaning.LeavesMean | packages/core/src/app-model.ts:197-220 | text, truth values, counts from 1 on, constants and lists of words accept exactly those values |
| AppModelMeaning.NullableMeans | packages/core/src/app-model.ts:198 | a nullable schema accepts null besides |
| AppModelMeaning.ArrayMeans | packages/core/src/app-model.ts:199 | an array schema accepts exactly the arrays all of whose items its item schema accepts |
| AppModelMeaning.ObjectMeans | packages/core/src/app-model.ts:201-204 | an object schema accepts exactly the objects that have every property not listed as optional and no field but those named, each with a value its property's schema accepts |
| AppModelMeaning.EveryValueIsJson | packages/core/src/app-model.ts:219 | every JSON value, however deep, passes for the recursive definition `json` |
| AppModelMeaning.FirstBrokenReported | packages/core/src/app-model.ts:276-284 | of const, enum, type and minimum the first that the value breaks is reported at its own path, and only that |
| AppModelMeaning.NullableReports | packages/core/src/app-model.ts:316-328 | a faulty value of the type a nullable schema names gets that schema's own errors, any other is said to match no shape |
| ExportTargets.Flatten | packages/cossack/src/export-discovery.js:5-26 | the loops with early returns compute the flattening |
| ExportTargets.ExportTargets | packages/cossack/src/export-discovery.js:4-28 | for every value the first enabled row selects what resolution returns that does not look past a value called final |
| ExportTargets.RowsSelectKept | packages/cossack/src/export-discovery.js:5-26 | at every depth, the listed rows select what resolution returns that does not look past a value called final |
| ExportTargets.MarksExactly | packages/cossack/src/export-discovery.js:5-26 | for every value the walk calls it final exactly when it is a target, null, a fallback array or an object with a final value under `default`, and says that it ended in an invalid target exactly when it did: no entry of an array settles it and the last one fails, or the first final `default` of an object fails |
| ExportTargets.FaithfulExactly | packages/cossack/src/export-discovery.js:4-28 | for every value with valid or null targets the listed rows select what resolution returns under all conditions exactly when they select what the complete enumeration does under each union of the keys that two rows need |
| ExportTargets.SameExactly | packages/cossack/src/export-discovery.js:4-28 | two lists of rows select the same under all conditions exactly when they do under each union of the keys that two of the rows need |
| ExportTargets.Lossless | packages/cossack/src/export-discovery.js:5-26 | where each skipped part follows a total value the rows at every depth select what resolution returns, and without any condition for the enumeration that skips nothing |
| ExportTargets.EnumerateMarks | packages/cossack/src/export-discovery.js:5-26 | marking each row of the complete enumeration as listed or left out: all of them are the enumeration that skips nothing, the listed ones the program's rows, in order |
| ExportTargets.LeftOutExactly | packages/cossack/src/export-discovery.js:15-22 | a row left out is never the first enabled one exactly when each row left out has an earlier one whose keys other than `default` are among its own |
| ExportTargets.CoveredIsFaithful | packages/cossack/src/export-discovery.js:15-22 | when every row left out has such an earlier row, the listed rows select what resolution returns under all conditions |
| ExportTargets.PruningExactly | packages/cossack/src/export-discovery.js:15-22 | as an earlier fallback, or as `default` before an unmentioned key, a value called final may be skipped past exactly when it always resolves |
| ExportTargets.TotalExactly | packages/cossack/src/export-discovery.js:6-24 | a value resolves under every set of conditions exactly when it is total |
| ExportTargets.BlockedReadingDiffers | packages/cossack/src/export-discovery.js:10-18 | reading an exhausted fallback array as null blocks what the rows resolve |
| ExportTargets.BothReadingsFaithful | packages/cossack/src/export-discovery.js:10-18 | when every array inside always resolves, the rows agree with both readings under every set of conditions |
| ExportTargets.BlockedReadingExactly | packages/cossack/src/export-discovery.js:5-26 | for every value: with exhausted arrays blocking, the listed rows select what resolution returns under all conditions exactly when they select what the rows with a null behind every array do under each union of the keys that two rows need |
| ExportTargets.BlockingSelects | packages/cossack/src/export-discovery.js:10-18 | those rows select, under every set of conditions, what resolution with blocking arrays returns |
| ExportPatterns.MatchesExactly | packages/cossack/src/export-discovery.js:52-55 | a file is matched with capture c exactly when c is a non-empty single line and filling every star with it gives the file |
| ExportPatterns.CaptureUnique | packages/cossack/src/export-discovery.js:52-55 | a file comes from at most one capture |
| ExportPatterns.MatcherSpells | packages/cossack/src/export-discovery.js:52-55 | the pieces of the expression, with the capture repeated, spell the filled target |
| ExportPatterns.SubstitutesExactly | packages/cossack/src/export-discovery.js:61-66 | substitution fills the stars of every value exactly when the capture has no special `$` pair |
| ExportPatterns.ResolvesReplaced | packages/cossack/src/export-discovery.js:61-66 | for every capture, substituting and then resolving is resolving and then substituting in the resolved target |
| ExportPatterns.ResolvesSubstituted | packages/cossack/src/export-discovery.js:61-66 | substituting and then resolving is resolving and then filling in the capture, for every value and conditions, exactly when the capture has no special `$` pair |
| ExportPatterns.ReplacementExactly | packages/cossack/src/export-discovery.js:56-60 | a subpath matches a key with c exactly when c is not empty and the subpath is the key filled with c |
| ExportPatterns.NeverTie | packages/cossack/src/export-discovery.js:73-74 | of two distinct keys matching one subpath exactly one comes first |
| ExportPatterns.SelectsMostSpecific | packages/cossack/src/export-discovery.js:120-124 | the selected key matches, and every other matching key has a shorter text before its star or, with one as long, is shorter, whatever the map's order |
| ExportPatterns.SortKeysSorts | packages/cossack/src/export-discovery.js:73-74 | the keys sorted: same keys, in that order |
| ExportPatterns.DeclarationFills | packages/cossack/src/export-discovery.js:110 | the declaration of a filled target is the filled declaration of the target |
| ExportPatterns.CapturedExactly | packages/cossack/src/export-discovery.js:108-113 | for every pattern target and file the capture is c exactly when c is not empty, on one line, and the file is the target filled with c or, no filling of the target, the target's declaration filled with c |
| ExportPatterns.DiscoveryExactly | packages/cossack/src/export-discovery.js:112-124 | for every key, target and file an advertised subpath leads back, through its key and capture, to the file it was found from or to the script that file declares, exactly when the capture has no special `$` pair |
| ExportPatterns.CollectFrom | packages/cossack/src/export-discovery.js:112-117 | a subpath is collected exactly when some file and capture with a supported name give it, the file being the filled target or, no filling of it, the filled declaration; the file-name reason exactly when some capture has another name |
| ExportPatterns.CollectCandidates | packages/cossack/src/export-discovery.js:102-119 | exactly the subpaths so given under the valid pattern targets of some key, and exactly the reasons that some key, target or file gives |
| ExportPatterns.CollectTarget | packages/cossack/src/export-discovery.js:102-119 | one target: null is passed over, an invalid or constant one skipped for its reason, any other collected from its files as above |
| Sessions.AtMostOneLive | packages/auth/src/sessions.ts:93-122 | in every interleaving each lineage has at most one live record |
| Sessions.GoneForever | packages/auth/src/sessions.ts:101-122 | a replaced or revoked id never validates again |
| Sessions.OneSuccessor | packages/auth/src/sessions.ts:113-114 | of concurrent replacements one wins, once |
| Sessions.UserNeverChanges | packages/auth/src/sessions.ts:77-118 | in every interleaving all stored and pending sessions of a lineage have the one user its first session was created for |
| Sessions.OwnerIsCreator | packages/auth/src/sessions.ts:94-100 | that is the user the creation was called with |
| Sessions.CreatedValidates | packages/auth/src/sessions.ts:84-105 | a session created and not refused validates under its id exactly within its lifetime, and gives its user |
| Sessions.ValidExactly | packages/auth/src/sessions.ts:84-90 | a stored record is usable exactly when id, kind, user and the times around now say so, and then as it is |
| Sessions.ReplacementExactly | packages/auth/src/sessions.ts:112-114 | a replacement that the store does not refuse and that finds the session it read puts the successor in its place; any other changes nothing stored |
| Sessions.RevocationExactly | packages/auth/src/sessions.ts:119-120 | a revocation that is not refused removes its session; no other session is touched |
| Sessions.ClockExactly | packages/auth/src/sessions.ts:63-68 | the clock is accepted exactly when what would be created now lies in the Date range |
| Sessions.HexIsIdentifier | packages/auth/src/sessions.ts:48-82 | generated identifiers are usable ones; none is empty, longer than 191 or with another sign |
| Sessions.StepKeeps | packages/auth/src/sessions.ts:93-122 | every atomic step keeps the invariant behind these |
| Sessions.CookieCoversSession | packages/auth/src/sessions.ts:97-99 | the cookie ends at expiry or less than a second after, within the Date range; nothing is issued exactly when the record expired meanwhile |
| Sessions.ValidExactlyUntilExpiry | packages/auth/src/sessions.ts:84-90 | a new record is usable exactly from its creation until its lifetime is over |
| Sessions.SessionManager.Create | packages/auth/src/sessions.ts:94-100 | issued exactly when clock, user, identifier, store and second clock reading allow and the remaining age is one a cookie takes; the session issued is for that user, under the new identifier, from now for the lifetime; the store's new state |
| Sessions.SessionManager.Validate | packages/auth/src/sessions.ts:101-105 | the stored record exactly when it is valid now, else which failure |
| Sessions.SessionManager.Rotate | packages/auth/src/sessions.ts:106-118 | wins exactly when the record is still the one it read, whatever others did between; the session issued has the user of the one it replaces, a new identifier and a full lifetime |
| Sessions.SessionManager.Revoke | packages/auth/src/sessions.ts:119-122 | after a revocation that returns, the id is gone |
| SnapshotFraming.QuoteReadsBack | packages/cossack/src/test-results-service.js:114 | one character of a JSON string in UTF-8 is read back from the front of anything it starts |
| SnapshotFraming.QuoteExactly | packages/cossack/src/test-results-service.js:114 | exactly quotes, backslashes, control characters and unpaired surrogates are escaped, seven of them by a letter, everything else has its UTF-8 length |
| SnapshotFraming.FrameCancels | packages/cossack/src/test-results-service.js:114 | one file's header and bytes determine the file and the rest of the stream |
| SnapshotFraming.StreamDecodesUniquely | packages/cossack/src/test-results-service.js:112-115 | equal streams imply equal lists of paths and contents |
| SnapshotWalk.CompleteExactly | packages/cossack/src/test-results-service.js:93-122 | a snapshot is complete exactly when the tree is clean and within every limit; then it covers the whole listing, at most 4096 files and 64 MiB |
| SnapshotWalk.CoveredExactly | packages/cossack/src/test-results-service.js:93-122 | in terms of the tree: complete exactly when the root is a readable folder with nothing but regular files and readable folders, at most 24 deep, at most 4096 files and 8192 entries, each file of at most 8 MiB and, with those before it, 64 MiB |
| SnapshotWalk.ExcludedExactly | packages/cossack/src/test-results-service.js:90-106 | left out are exactly the listed folders, `.env` and `.dev.vars` alone or before a dot, and key files |
| SnapshotWalk.DigestDetermines | packages/cossack/src/test-results-service.js:119-121 | two complete snapshots have one digest exactly when they cover the same files with the same contents |
| SnapshotWalk.JudgesContents | packages/cossack/src/test-results-service.js:178-182 | "unfinished" exactly while it runs; "unknown" exactly when finished without three complete snapshots; "matches" exactly when the files were the same before, after and now; a difference is dated to the run exactly when it was there at its end |
| SnapshotWalk.JudgesWithoutEnd | packages/cossack/src/test-results-service.js:178-179 | without a snapshot of its end a run is unfinished while it runs and else unknown |
| SnapshotWalk.Walker.WalkFolder | packages/cossack/src/test-results-service.js:97-118 | the recursive walk in place does what its specification says |
| SnapshotWalk.Walker.VisitOne | packages/cossack/src/test-results-service.js:107-115 | one entry: folder, file within limits, link or anything else |
| SnapshotWalk.SourceSnapshot | packages/cossack/src/test-results-service.js:93-122 | the snapshot taken, complete exactly for coverable trees |
| TestReports.ReadResults | packages/cossack/src/test-results-service.js:162-176 | the recorded report is one that no other started after, the greater id deciding between equal starts, whatever the order of files; missing and invalid exactly when they are |
| TestReports.LaterOrder | packages/cossack/src/test-results-service.js:174 | the comparison of reports is a strict total order |
| TestReports.GreaterExactly | packages/cossack/src/test-results-service.js:174 | texts are ordered by the first place where they differ, a prefix being the lesser |
| TranslationExports.FindsExactly | packages/cossack/src/localization-service.js:73-104 | also through cycles, an answer of true is right, and when tokens tell the program's places apart the search answers true exactly when a re-export path reaches `__` in a framework module |
| TranslationExports.ExactExactly | packages/cossack/src/localization-service.js:73-104 | over given files and names, `__` and another among them, the search is exact for every program and place exactly when tokens tell the places apart |
| TranslationExports.CollisionHides | packages/cossack/src/localization-service.js:74-75 | for every two places of one token there is a program in which visiting the first hides the translation export behind the second |
| TranslationExports.NoColonTells | packages/cossack/src/localization-service.js:74 | names without colons are always told apart |
| TranslationExports.TreeLinksMean | packages/cossack/src/localization-service.js:79-103 | the search follows exactly the value re-exports of the name: of everything, of that name, or of a local bound by a value import |
| TranslationExports.NotFoundExplores | packages/cossack/src/localization-service.js:74-76 | when tokens tell places apart, after an unsuccessful search everything newly seen is explored, which makes the shared set sound |
| TranslationExports.ColonHides | packages/cossack/src/localization-service.js:74-75 | for instance, over two files and three names of which one has a colon the search is not exact |
| TranslationExports.Visit | packages/cossack/src/localization-service.js:73-104 | the search terminates and only adds to the seen set |
| TranslationExports.Finder.Find | packages/cossack/src/localization-service.js:73-104 | the search in place over the shared set |
| TranslationExports.Finder.VisitStatement | packages/cossack/src/localization-service.js:79-103 | one statement's re-exports are followed in order |
| TranslationExports.Finder.VisitElements | packages/cossack/src/localization-service.js:80-92 | local exports are followed through the imports they name |
| TranslationExports.Finder.VisitImports | packages/cossack/src/localization-service.js:83-90 | imports of that local name, in order |
| TranslationExports.IsTranslationExport | packages/cossack/src/localization-service.js:73-104 | the answer is right whenever true, and exact when tokens tell the program's places apart |
| JsonProcess.OneTerminalEnvelope | packages/cossack/src/json-process.js:24-88 | every run up to the close writes validated progress, then exactly one terminal envelope, and exits 0 exactly when that says ok |
| JsonProcess.SilentAfterTerminal | packages/cossack/src/json-process.js:52-65 | after a terminal message nothing is written before the close |
| JsonProcess.ProgressInOrder | packages/cossack/src/json-process.js:52-65 | as long as nothing breaks the protocol or the deadline, exactly the progress received is written, in order |
| JsonProcess.NothingRetracted | packages/cossack/src/json-process.js:65-86 | what was written stays written, through the close |
| JsonProcess.StartupDeadline | packages/cossack/src/json-process.js:45-65 | until the close the deadline is set exactly when it was not reached and nothing was written, so after the first progress it can never be reached |
| JsonProcess.OwnResultExactly | packages/cossack/src/json-process.js:52-77 | the child's result is passed on exactly when the run was calm, that result was the only final one, valid and last, and the exit code agrees |
| JsonProcess.FailureExactly | packages/cossack/src/json-process.js:78-86 | a failure names the deadline if it passed, else the shutdown deadline, else the interruption, else the process; exit code 130 exactly for an interrupted command that stopped in time |
| JsonProcess.Supervisor.Receive | packages/cossack/src/json-process.js:52-65 | the message handler's effect on flags and output |
| JsonProcess.Supervisor.Stop | packages/cossack/src/json-process.js:38-43 | the signal handler's effect |
| JsonProcess.Supervisor.Close | packages/cossack/src/json-process.js:67-87 | the close handler's envelope and exit code |
| JsonProcess.Supervisor.Supervise | packages/cossack/src/json-process.js:24-88 | all handlers over a whole run, with the promises above |
| DevelopmentLoader.NeverStale | packages/desktop/src/development-runtime.ts:51-98 | in every interleaving a cached entry was imported wholly at the present revision with nothing dirty, and at most one loop is in flight |
| DevelopmentLoader.StepKeeps | packages/desktop/src/development-runtime.ts:51-98 | every step keeps the invariant behind this |
| DevelopmentLoader.PassExactly | packages/desktop/src/development-runtime.ts:57-76 | a pass yields an entry exactly when no relevant change arrived during it |
| DevelopmentLoader.LoadStarts | packages/desktop/src/development-runtime.ts:51-54 | after a load call something is cached or exactly one loop runs, unless the loader was stopped |
| DevelopmentLoader.LoadReaches | packages/desktop/src/development-runtime.ts:54-80 | from there one undisturbed pass caches an entry of the present revision |
| DevelopmentLoader.Loader.Load | packages/desktop/src/development-runtime.ts:51-54 | starts a loop only when none runs and nothing is cached |
| DevelopmentLoader.Loader.HotUpdate | packages/desktop/src/development-runtime.ts:87-98 | a relevant change drops the entry, marks the cache dirty and counts a revision |
| DevelopmentLoader.Loader.RunLoop | packages/desktop/src/development-runtime.ts:54-80 | the retry loop returns only the cached entry, whole at the present revision |
| JsoncEdit.Editor.Set | packages/cossack/src/jsonc-edit.js:36-53 | the edits after setting one key: an existing value that differs is to be replaced by the new JSON, a new key is joined to an insertion or inserted |
| JsoncEdit.Editor.Apply | packages/cossack/src/jsonc-edit.js:54-65 | refuses exactly equal starts, else splices from the end; for separate edits that is substituting all at once |
| JsoncEdit.SpliceStep | packages/cossack/src/jsonc-edit.js:63 | one splice keeps the text before it and the work done after it |
| JsoncEdit.SortedFalls | packages/cossack/src/jsonc-edit.js:63 | the sort keeps the edits and orders them by falling start |
| JsoncEdit.SetsApply | packages/cossack/src/jsonc-edit.js:36-65 | setting different keys of one object is never ambiguous and its edits are separate |
| JsoncEdit.SettingsApplied | packages/cossack/src/jsonc-edit.js:36-65 | for any settings of different keys of one object, old and new mixed: the edited text is the authored text with the value of each set property replaced by its own JSON, the entries of the new ones at the insertion point and every other character as it was |
| JsoncEdit.ValueIs | packages/cossack/src/jsonc-edit.js:36-43 | the value put in for an existing property is the JSON of the setting of its name |
| JsoncEdit.ValueReplaced | packages/cossack/src/jsonc-edit.js:36-43 | setting one existing key gives the text before its value, the new JSON and the text behind it |
| JsoncEdit.InsertedInside | packages/cossack/src/jsonc-edit.js:45-47 | new entries stand inside the braces, behind every property |
| JsoncEdit.EntryExactly | packages/cossack/src/jsonc-edit.js:24-49 | a new entry is on its own line, indented like the last property, or two blanks deeper than the line an empty object begins on, and reads as key, colon, value and comma |
| JsoncEdit.IndentationExactly | packages/cossack/src/jsonc-edit.js:24-27 | an indentation is all the blanks that begin the line of an offset, up to the offset |
| JsoncEdit.SetKeepsSeparate | packages/cossack/src/jsonc-edit.js:36-53 | a further key keeps the edits separate |
| JsoncEdit.NewKeysJoin | packages/cossack/src/jsonc-edit.js:44-52 | several new properties make one insertion: a comma only where the authored object has no trailing one, then the entries in order |
| JsoncEdit.NewKeysApplied | packages/cossack/src/jsonc-edit.js:44-65 | the edited text is then the authored text with those entries at the insertion point |
| JsoncEdit.NewKeysSeparated | packages/cossack/src/jsonc-edit.js:44-65 | the edited text around that place: authored text up to the last property, what separates it, the entries, the rest |
| JsoncEdit.CommaBetween | packages/cossack/src/jsonc-edit.js:44-52 | just one comma stands between the last authored property and the new entries exactly when there was no trailing comma or it stands directly behind the property |
| JsoncEdit.DetachedComma | packages/cossack/src/jsonc-edit.js:44-52 | a trailing comma behind a blank ends up after the new entry, which follows its neighbour without one and ends in two |
| JsoncEdit.NestedEditsExactly | packages/cossack/src/jsonc-edit.js:54-65 | two edits, one inside the range of the other and starting later, set in either order, are not refused; the outer text comes out in place with everything around it as it was exactly when the inner edit keeps the length, or shortens the text and the outer range reaches to its end |
| JsoncEdit.NestedEditsGarble | packages/cossack/src/jsonc-edit.js:56-63 | for instance, the tail of a longer inner text survives the outer replacement |

## Left out

- ExportTargets.FaithfulExactly: of values holding invalid targets it is stated what their rows select (`ExportTargets.RowsSelectKept`), not when that is what resolution returns.
- TranslationExports.IsTranslationExport: for one program in which tokens coincide only "true is right" is stated; the exact condition is about all programs over its files and names.
- Relations.TextLoadsJoin: for one pair of tables it goes one way; the exact condition, LoadsJoinsExactly, is about all of them.
- Sessions.GoneForever: nobody names an identifier before it is stored; identifiers are 256 random bits.
- Concurrent sibling transactions, and scopes kept by unfinished promises: they share a savepoint name and the code does not order them.
- Aliasing between an entity and its snapshot other than through the modelled copies; entities are separate objects, snapshots are values.
- Cascaded saves, hooks, soft deletion and reassigned owning relations around a save; the update date is the only generated column.
- The SQL text, the query builder, the dialects and the drivers: statements are taken by their effect on tables.
- JSON text of snapshots is compared as a tree; number formatting and key escaping are taken to be injective.
- Tables with several rows under one primary key, and multi-column keys.
- Stale-lock takeover at `packages/cossack/src/preview-service.js:73-82`: the lock is taken to exclude other commands.
- Preview configuration, secrets, smoke requests and the private build directory; creating and inspecting fail without effect there.
- The provider's HTTP calls and record validation: a read returns the truth about the moment it is served, or fails; POST makes a new id or nothing; nobody else uses the nonce tag.
- Paths and messages of validation errors as text: a path is a list of keys and indices, a message is its reason.
- Inherited property names such as `constructor` looked up in the schema's property tables: they are taken as plain maps of own keys.
- Escaping in the regular expressions built for targets, URL decoding in target classification, and reading directories: pieces, classifications and file lists are given.
- The cookie helper's limits, 400 days for the age among them, are taken as given.
- The conversion of a session store's failures to error codes beyond which operation failed, cookie text, and other stored fields.
- SHA-256: a digest is taken to be as good as the stream it is made of.
- File names that are not valid Unicode before they become strings; growth of a file while it is read is a failed read.
- The TypeScript parser: files are given as the import and export statements that matter.
- Process groups, timer lengths and the text of diagnostics in the JSON supervisor; a command that cannot be started.
- The microtask between caching an entry and forgetting the loading promise: one step.
- Rendering of values and keys as JSON, and locating properties in JSON text: both are given.
- The member dispatch table and the password hash format.
