# Verification of the YLX transfer client and backend

The program keeps copies of state in agreement: the catalog of a recorder's sessions between the
Rust backend and the TypeScript client, requests in flight and the newest intent of the user, and
the library directory and its metadata store. This project models that code in Dafny, as explicit
steps over state, and proves what those copies keep over every run.

`dafny verify dfyconfig.toml` checks everything. Where the source changes fields in place the model
is a class whose methods are proved against a value-level rule or an invariant; the results are
lemmas about those rules and about every sequence of steps.

- **Session catalogs.** `SessionTypes`, `ServerCatalog` (rules), `ServerStore` (the backend's mutable
  resources), `ServerRuns` (every run), `ServerLaws` (what is answered and stored, in plain fields),
  `ClientCatalog` (rules), `ClientStore` (the client's store), `CommitLaws` (what each action does, in plain
  fields), `LoadMore`, `Agreement`, `DetailStates` and `Paging`. Both sides share one abstract timestamp parser:
  a date label carries its instant, or is unreadable.
- **Library delete.** `DeleteWorld` (files and tables), `DeleteMachine` (durable steps that may fail and
  between which the process may die), `DeletePlan` (every state one delete can be in, described from
  the state it began in), `DeleteSteps`, `DeleteStaging`, `DeleteRollback`, `DeleteCleanup`,
  `DeleteRecovery` and `LibraryDelete`. The phases are Opening (nothing recorded), Staging (intents
  recorded), Cleaning (metadata committed) and Closed.
- **Boot and intent ordering.** `Boot`, `OperationRunner`, `Confirm` and `Navigation`. Each is a class
  whose methods are the atomic steps between two awaits, an invariant over its history, and a driver
  that takes an arbitrary list of steps.
- **Media and transfers.** `MediaPublication`, `MediaLifecycle` (a state machine over single loads and
  stores, and serial use), `MediaFence` (every run of it), `MediaHistory` (what a run
  has been through), `BatchOutcome` and `Scheduler`.

What the proofs found, beyond the promises that hold:

- `publish_session_detail` does not compare dates, so an accepted detail can put a live catalog out of
  order (`ServerRuns.DetailCanBreakOrder`); order survives exactly when the new date fits.
- A detail reply keeps client and backend in agreement exactly when the client already agreed with the
  cache the detail was published over (`DetailStates.DetailReplyKeepsAgreementIff`), which nothing checks.
  One that overtakes an earlier append leaves the client at the newest revision with a spent cursor and
  every further page refused, whatever the append brought (`DetailStates.OvertakenAppendNeverAgrees`),
  until a newer event arrives (`DetailStates.EventBringsAgreement`).
- Recovery of a delete refuses a marker whose write was cut short, and every successful delete passes
  through such a state; without faults recovery succeeds exactly when no marker is torn and the trash
  root is a directory or absent (`DeleteRecovery.RecoverPendingDeletes`, `LibraryDelete.DeleteEntries`).
- That no `start` is called while a `stop` runs does not make the fence hold, because a start may be
  half-way when the stop is called. Either a stop takes its early return, and a task begun before that
  return starts the workers after it (`MediaFence.OverlappingStartPassesFence`); or a stop relies on a
  completed stop that the start has outlived, and returns Ok with the workers running
  (`MediaFence.StaleCompletionLeavesWorkers`). What decides, over every run, is whether a start bumped
  the epoch last (`MediaFence.ReturnFencesIff`) and whether workers were started since the last complete
  stop (`MediaFence.EarlyReturnIffNoneStarted`).
- A success toast comes from a superseded call exactly when a call of its scope was started between its
  commit and the toast, that is by its own commit callback (`OperationRunner.ToastsComeFromLatest`,
  `OperationRunner.CallbackSupersedesItself`).
- The scheduler is not first come, first served: a retried row overtakes rows that were queued before it,
  and a new row takes a free slot at once while an older one waits for a queue loop that is under way
  (`Scheduler.RequeuedRowGoesNextIff`, `Scheduler.LateRowsOvertake`).

## Model

| member | source | states |
|---|---|---|
| ServerStore.MergeSessionViews | src-tauri/src/application.rs:1308-1328 | the merge succeeds exactly when no incoming id repeats (in the page or against the cache) and the append is newest-first; then the rows are the old ones followed by the page |
| ServerStore.ValidateSessionPageOrder | src-tauri/src/application.rs:1330-1355 | accepts exactly the pages that keep every neighbouring pair strictly newest-first, boundary included |
| ServerStore.MergeSessionDiagnostics | src-tauri/src/application.rs:1357-1374 | succeeds exactly when no quarantine id repeats; then the page's diagnostics follow the old ones |
| ServerStore.PublishedResources.PublishSessionPage | src-tauri/src/application.rs:1073-1210 | the new state and the answer of the whole state are those of the page publication rule, refusals and retirements included |
| ServerStore.PublishedResources.PublishSessionDetail | src-tauri/src/application.rs:1212-1275 | a detail replaces the first row of its id under a fresh revision, or the state is left as it was |
| ServerStore.PublishedResources.PublishFullList | src-tauri/src/application.rs:912-950 | a full list replaces the rows and retires the catalog, under a fresh revision |
| ServerStore.PublishedResources.InvalidateSessionCatalog | src-tauri/src/application.rs:1294-1305 | drops one device's catalog and nothing else, and spends the next revision on that device |
| ServerStore.PublishedResources.ValidateSessionPageRequest | src-tauri/src/application.rs:952-991 | a page request is allowed exactly with both tokens absent, or with both matching the live catalog |
| ServerStore.PublishedResources.ValidateSessionDetailRequest | src-tauri/src/application.rs:993-1034 | a detail request is granted exactly for a loaded, unchanged and verified row of the live catalog revision, and then bound to the connection, revision and verification of that row |
| ServerStore.PublishedResources.AuthorizeSessionArtifactRequest | src-tauri/src/application.rs:1036-1071 | an artifact is authorised exactly for a loaded, verified row of a live catalog that permits downloads, and then bound to the connection, revision and verification of that row |
| ServerRuns.AppendEffect | src-tauri/src/application.rs:1096-1210 | an accepted append continues the live chain under the stored connection, authority, pagination and capabilities, brings only new ids, quarantine ids and an unused cursor, and extends rows, diagnostics and used cursors by exactly its own |
| ServerRuns.CursorChainInvariant | src-tauri/src/application.rs:1096-1210 | over every run: a live catalog has distinct row and quarantine ids, is the concatenation of the pages accepted since its last first page up to detail replacement, each page was asked for with the cursor its predecessor offered and read under the connection the catalog shows, no cursor is used twice, and the next cursor is not a used one |
| ServerRuns.DetailKeepsOrderIffItFits | src-tauri/src/application.rs:1239-1256 | replacing a row keeps the list strictly newest-first if and only if the new date fits between its neighbours, which the publisher does not check |
| ServerRuns.CatalogStaysNewestFirst | src-tauri/src/application.rs:1330-1355 | over every run whose accepted details fit, every pair of rows of every live catalog is strictly newest-first by date and id |
| ServerRuns.DetailCanBreakOrder | src-tauri/src/application.rs:1239-1256 | a concrete first page and a concrete accepted detail after which a live catalog is out of order |
| ServerRuns.RefusedPageIsAtomic | src-tauri/src/application.rs:1096-1169 | a refused page changes no rows, no revision and no other device's catalog; its own catalog goes exactly when a continuation of the live chain fails its merge |
| ServerRuns.AbsentCatalogGrantsNothing | src-tauri/src/application.rs:952-1071 | without a catalog no continuation, detail request, artifact or detail publication is granted |
| ServerRuns.AuthorizedDetailIsPublishedIff | src-tauri/src/application.rs:1212-1256 | a detail read under an authorisation is published if and only if it brings the authorised revision and verification, as long as the catalog has not moved |
| ServerRuns.RetirementIsFinal | src-tauri/src/application.rs:1281-1305 | a catalog that is gone stays gone and grants nothing through every run without an accepted first page |
| ServerRuns.SessionRevisionsAreBounded | src-tauri/src/application.rs:453-467 | over every run no cached rows are beyond their device's last revision, nor that beyond the global one |
| ServerRuns.PublicationsTakeFreshRevisions | src-tauri/src/application.rs:453-467 | every accepted publication carries the next global revision, on its event and on the cached rows |
| SessionTypes.NeighboursOrderEveryPair | src-tauri/src/application.rs:1330-1355 | checking neighbours is enough: the list is strictly newest-first for every pair if and only if each neighbouring pair descends |
| ServerLaws.PageAcceptedIff | src-tauri/src/application.rs:1083-1188 | a page is accepted if and only if it is consistent in itself and either carries no tokens, or was read under the revision, connection, authority, capabilities and cursor of the live catalog and goes on from its rows and diagnostics; all in plain fields |
| ServerLaws.AcceptedPageIsStored | src-tauri/src/application.rs:1155-1210 | an accepted page leaves the old rows and its own, its catalog fields, one more used cursor and one revision spent on its device; the event shows exactly what is stored, and no other device changes |
| ServerLaws.DetailAcceptedIff | src-tauri/src/application.rs:1212-1275 | a detail is accepted if and only if catalog revision and connection are the live ones and the first row of its id has its revision and verification; it replaces that row only, and a refused one changes nothing |
| ServerLaws.InvalidationDropsCatalog | src-tauri/src/application.rs:1289-1305 | a connection transition drops the catalog of its device, keeps all rows and other devices, and spends one revision |
| ServerLaws.FullListDropsCatalog | src-tauri/src/application.rs:912-950 | a full list replaces the rows and drops the catalog, and its event offers no cursor, diagnostics or catalog revision and keeps the capabilities |
| ServerLaws.FullListClearsClient | src/runtime/reducer.ts:532-569 | the client that hears a full list shows its rows and has no catalog revision, cursor, diagnostics or details left |
| ServerLaws.NothingGrantedAfterRetirement | src-tauri/src/application.rs:1289-1305 | after a transition or a full list nothing that needs the catalog is granted, through every run without an accepted first page |
| ServerLaws.DetailGrantedIff | src-tauri/src/application.rs:993-1034 | a detail read is granted if and only if the live catalog has the asked revision and supports details, and the first loaded row of the id has the asked revision and is trusted: always under the old profile, by a usable verification whose valid digest is the revision under the lab profile, never under an unknown one |
| ServerLaws.ArtifactGrantedIff | src-tauri/src/application.rs:1036-1071 | an artifact read is granted if and only if downloads and details are supported and the first loaded row of the id is trusted in that sense |
| ServerLaws.ReaderIsBound | src-tauri/src/application.rs:1029-1033 | a granted reader is bound to the connection of the catalog and to revision and verification of the row as loaded |
| ServerLaws.PageRequestAllowedIff | src-tauri/src/application.rs:952-991 | over every run a page request is allowed if and only if it has no tokens, or the very cursor and revision that the live catalog shows |
| ServerLaws.ChainIsOfOneConnection | src-tauri/src/application.rs:1113-1130 | over every run all pages of a live chain were read under the connection and revision that the catalog shows |
| ClientStore.MergeSessionViews | src/runtime/reducer.ts:440-454 | the loop over the position map computes the row-by-row merge: an unknown id goes to the end, a known one is replaced in place, keeping fetched files under the retention rule |
| ClientStore.MergingFreshRowsAppends | src/runtime/reducer.ts:440-454 | for a page that repeats no id, the only kind its caller lets through, the merge is an append |
| ClientStore.MergingKeepsOtherRows | src/runtime/reducer.ts:440-454 | for any page the merge keeps ids distinct and known rows at their places, changes no row whose id the page does not name, and shows every id of the page |
| ClientStore.HasDuplicateSessionIdentity | src/runtime/reducer.ts:386-393 | true exactly when two rows share an id |
| ClientStore.HasDuplicateDiagnosticIdentity | src/runtime/reducer.ts:395-402 | true exactly when two diagnostics share a quarantine id |
| ClientStore.RepeatsSessionIdentity | src/runtime/reducer.ts:456-463 | true exactly when an incoming id is known or occurs twice in the page |
| ClientStore.MergeCatalogDiagnostics | src/runtime/reducer.ts:368-384 | succeeds exactly when no quarantine id repeats; then the page's diagnostics follow the old ones |
| ClientStore.ReplaceSessionViews | src/runtime/reducer.ts:480-488 | the loop over the id map computes row retention: fetched files are kept only for the same id, revision and usable manifest |
| ClientStore.RetainMatchingDetailStates | src/runtime/reducer.ts:490-511 | exactly the details of the current catalog revision that match a present row survive |
| ClientStore.AppStore.CommitCatalogSnapshot | src/runtime/reducer.ts:532-569 | an accumulated event changes its device as the commit rule says, and no other device |
| ClientStore.AppStore.CommitSessionPage | src/runtime/reducer.ts:571-633 | a page reply changes its device as the commit rule says, and no other device |
| ClientStore.AppStore.CommitAction | src/runtime/reducer.ts:975-1113 | every session action changes its device as the commit rule says, and no other device |
| CommitLaws.ReplacingKeepsFetchedFiles | src/runtime/reducer.ts:356-366 | of every replaced list, a row has the files of the row shown before with its id if and only if revision and usable manifest are equal, the incoming files are empty and the shown ones are not; otherwise it is the incoming row |
| CommitLaws.MergedRowIsReplaced | src/runtime/reducer.ts:440-454 | merging one row changes only the row of its id, under the same retention rule, or appends it |
| CommitLaws.RetentionKeepsFittingDetails | src/runtime/reducer.ts:490-511 | exactly the details survive that belong to the new catalog revision and to a row of their id with their revision and manifest |
| CommitLaws.EventIsTakenIff | src/runtime/reducer.ts:532-569 | an event is taken if and only if it is newer and repeats no id, and then rows (with files kept), diagnostics, catalog and details are the ones it brings; any other changes nothing |
| CommitLaws.PageIsTakenIff | src/runtime/reducer.ts:571-633 | a page is taken if and only if it is newer, repeats no id and, for an append, goes on from what the client shows; an append is added to rows and diagnostics, a first page replaces them |
| CommitLaws.KnownExactlyWhenShown | src/runtime/reducer.ts:513-604 | under the revision already shown an event is known, not stale, if and only if the client shows all of it, and a page if and only if it shows its end |
| CommitLaws.DetailIsTakenIff | src/runtime/reducer.ts:653-692 | a fetched detail is taken if and only if it is not older and is of the very row and manifest asked for, still shown; it replaces that row and nothing else |
| CommitLaws.DetailProgressIsNoted | src/runtime/reducer.ts:1067-1113 | asking for a detail marks it as loading and a failure keeps its error, exactly while the client shows the row asked for |
| CommitLaws.LoadMoreIsNoted | src/runtime/reducer.ts:1041-1066 | a request for more is marked exactly for the cursor shown and with more to come; a failure or a moved catalog ends it, for that cursor only |
| CommitLaws.LoadingIsNoted | src/runtime/reducer.ts:306-346 | a load marks the rows and forgets requests and details; a failure that is not older shows its error over the last good rows; bare rows replace not newer ones |
| LoadMore.EventSettles | src/runtime/reducer.ts:532-569 | from agreement up to files the client has fetched, the event of an accepted append brings the client to the settled state, those files kept |
| LoadMore.ReplySettles | src/runtime/reducer.ts:571-633 | from the same agreement, the reply of the append brings it to the very same state |
| LoadMore.ReplyIsTaken | src/app/transferApp.ts:791-820 | the reply of an accepted append is never taken for an invalid page, whether its event came first or not |
| LoadMore.DetailsSurviveAppend | src/runtime/reducer.ts:490-511 | no consistent detail is lost by an append |
| LoadMore.LoadMoreConfluence | src/runtime/reducer.ts:532-633 | any non-empty sequence of the two announcements of one accepted append, in any order, repeated or with one lost, ends in one and the same client, which agrees with the backend's new cache on rows (up to files it has fetched for the same manifest), diagnostics, catalog revision and cursor and keeps its consistent details |
| Agreement.RunKeepsAgreement | src/runtime/reducer.ts:532-633 | over every run of backend actions and of events, first-page, append and detail replies delivered in any order, duplicated or dropped, where an append or detail reply that is news finds the client on the rows it was published over, the two-sided invariant holds |
| Agreement.ClientShowsWhatWasPublished | src/runtime/reducer.ts:480-488 | rows held at revision r are the rows announced at r, except that a row published without files may show files some received row carried for the same id, revision and usable manifest; at the backend's newest revision they are its cached rows |
| Agreement.FirstPageOrdersAgreeUpToFiles | src/runtime/reducer.ts:542-604 | the two arrival orders of a first page give the same revision and the same catalog, details included, and rows that are pairwise equal except for files; the clients are the same if and only if nothing could be retained |
| DetailStates.DetailsStayConsistent | src/runtime/reducer.ts:635-692 | over every action sequence without `sessions/loaded`, each detail carries the current catalog revision and matches a present row by id, revision and usable manifest |
| DetailStates.DetailReplyKeepsAgreementIff | src/runtime/reducer.ts:653-692 | a detail reply that lands leaves the client in agreement with the backend if and only if the client already agreed with the cache the detail was published over, up to the row it brings: same length, that id at the same place, every other row, the diagnostics and the cursor agreeing |
| DetailStates.AgreementWaitsForNews | src/runtime/reducer.ts:542-569 | that condition at delivery also decides agreement after any number of events no newer than the reply |
| DetailStates.EventBringsAgreement | src/runtime/reducer.ts:532-569 | the event of any accepted page or detail that is news to the client brings it into agreement, whatever it showed before |
| DetailStates.OvertakenAppendNeverAgrees | src/runtime/reducer.ts:653-692 | for every accepted append, empty or not: a client that hears of a later detail first sits at the newest revision, disagrees with the cache through any older events, holds the spent cursor, and is refused every further page |
| DetailStates.OvertakenDetailAgreesIff | src/runtime/reducer.ts:653-692 | of two details whose replies arrive in the wrong order the client ends in agreement if and only if both were of one row or the first told it nothing new |
| DetailStates.DetailReplyCanHideAnAppend | src/runtime/reducer.ts:653-692 | a concrete agreeing client, append and detail for which the appended row is missing afterwards |
| Paging.ReachableIsWellFormed | src-tauri/src/application.rs:1138-1155 | every live catalog of every backend run meets what the paging loop relies on |
| Paging.BeginLoadMore | src/app/transferApp.ts:764-779 | a request is made if and only if there is more and none is under way, and is marked before anything else happens, so that a second one is not made |
| Paging.LoadMoreSessions | src/app/transferApp.ts:764-846 | a request is made exactly if more is offered and none is under way; if the backend refuses it or the device does not answer, no row changes and the cursor stays with an error or the catalog is dropped; otherwise the backend has the page, and the client too as soon as one announcement of it is heard |
| Paging.Turn | src/app/transferApp.ts:1119-1125 | one turn asks exactly if it may, goes on if and only if catalog revision and a moved cursor say that a page came, and then the backend has one more used cursor and the client exactly its rows |
| Paging.DownloadAllPages | src/app/transferApp.ts:1114-1125 | the loop terminates (measure: cursors the backend has not consumed), requests no cursor twice and at most one per distinct cursor; when it ends without more to load the client agrees, up to files it has fetched, with a backend that has no further cursor and its rows grew by exactly the pages in between; when it gives up, the last request brought nothing or none could be made |
| DeletePlan.NothingLeftIsKept | src-tauri/src/library_delete.rs:380-430 | with the contents kept and nothing of the operation left in the trash, the files are those the operation began with |
| DeletePlan.NothingLeftIsDeleted | src-tauri/src/library_delete.rs:434-472 | with every named directory away and nothing left in the trash, the files are those of an uninterrupted delete |
| DeletePlan.ClosingStagedRestores | src-tauri/src/library_delete.rs:236-260 | closing an uncommitted operation gives back exactly the tables it began with |
| DeleteMachine.Machine.WriteMarker | src-tauri/src/library_delete.rs:1171-1184 | a marker exists before its contents do, so a crash or an error in between leaves one that cannot be read |
| DeleteMachine.Machine.CreateDirectory | src-tauri/src/library_delete.rs:309-310 | creates a directory where nothing exists, or changes nothing |
| DeleteMachine.Machine.Rename | src-tauri/src/library_delete.rs:344-350 | moves one node whole, or changes nothing |
| DeleteMachine.Machine.RemoveFile | src-tauri/src/library_delete.rs:1205-1216 | removes a file, is content if there is none, and refuses a symlink or a directory |
| DeleteMachine.Machine.RemoveEmptyDirectory | src-tauri/src/library_delete.rs:1259-1266 | removes a directory without children and reports one that has some |
| DeleteMachine.Machine.AcquireLeases | src-tauri/src/library_delete.rs:196-208 | every key gets a delete lease of the operation, or none does, and none if any key is leased |
| DeleteMachine.Machine.RecordIntents | src-tauri/src/library_delete.rs:236-236 | all intents or none |
| DeleteMachine.Machine.CloseDelete | src-tauri/src/library_delete.rs:469-471 | exactly the intents and leases of one operation go, or nothing changes |
| DeleteMachine.Machine.RemoveTree | src-tauri/src/library_delete.rs:1218-1238 | a recursive removal may stop with part of the tree left |
| DeleteMachine.Machine.CommitDelete | src-tauri/src/library_delete.rs:246-260 | the compare-and-set changes nothing unless the revision is the expected one; then exactly the named rows are gone, the revision has moved if there were any, and the operation's intents are committed |
| DeleteRollback.RemoveEmptyTree | src-tauri/src/library_delete.rs:1240-1269 | removes the operation directory exactly when it is empty, and nothing else |
| DeleteRollback.RollbackPath | src-tauri/src/library_delete.rs:382-419 | on success the directory is home as it was and its marker is gone; nothing but its three paths changes, and it strands exactly if its payload is still in the trash at the end |
| DeleteRollback.RollbackStaged | src-tauri/src/library_delete.rs:380-430 | every durable state of a rollback stays in its phase unless a directory is stranded; a clean rollback leaves nothing in the trash, and a rollback without faults is clean |
| DeleteStaging.StageRoot | src-tauri/src/library_delete.rs:303-311 | on success the operation directory exists and nothing is staged yet; with a file or link in place of the trash root it fails and changes nothing; without faults it succeeds if and only if the trash root is absent or a directory |
| DeleteStaging.StageEntry | src-tauri/src/library_delete.rs:314-376 | one entry is staged, or the state stays one that markers can restore; without faults it succeeds exactly when its identifiers and path are valid and the path is a directory or absent |
| DeleteStaging.StageEntries | src-tauri/src/library_delete.rs:298-378 | every durable state of the staging can be restored from its markers; on success every named directory is away with its marker; without faults it succeeds if and only if the batch is stageable |
| DeleteRecovery.RecoverMarker | src-tauri/src/library_delete.rs:896-952 | in any library a marker that is torn or not genuine (operation, payload in its directory, reachable paths, source outside the trash) is refused and nothing touched; one that an intent knows is left alone; any other brings its payload home and goes; without faults it succeeds if and only if nothing is in the way |
| DeleteRecovery.RecoverOperation | src-tauri/src/library_delete.rs:893-953 | whatever the order of the markers, success leaves nothing of the operation; without faults it succeeds if and only if none is torn |
| DeleteRecovery.RestoreIntent | src-tauri/src/library_delete.rs:992-1030 | in any library paths that are not genuine are refused and nothing touched; otherwise success means the payload, if any, is home as it was; without faults it succeeds if and only if nothing is in the way |
| DeleteRecovery.RemoveIntents | src-tauri/src/library_delete.rs:694-702 | the payloads and markers of committed intents are gone on success, through states of the same phase |
| DeleteRecovery.ReleaseOrphanLeases | src-tauri/src/library_delete.rs:712-730 | no delete lease is left on success, and nothing changes if there was none |
| DeleteRecovery.RecoverOrphanMarkers | src-tauri/src/library_delete.rs:864-956 | success leaves nothing in the trash; without faults it succeeds if and only if no marker is torn and the trash root is usable; an empty trash is left as it is |
| DeleteRecovery.RecoverPendingDeletes | src-tauri/src/library_delete.rs:652-733 | from any durable state of one delete, through states of the same side of the commit only: success means everything kept before the commit, and exactly the deleted world after it; without faults it succeeds if and only if no marker is torn and the trash root is usable; run again it changes nothing |
| DeleteCleanup.ValidateCleanup | src-tauri/src/library_delete.rs:448-458 | passes only if every path, marker and payload of the batch is still the operation's own; without faults exactly then |
| DeleteCleanup.OwnPathsAllowed | src-tauri/src/library_delete.rs:474-528 | nothing the operation itself did makes validation refuse |
| DeleteCleanup.RemoveStaged | src-tauri/src/library_delete.rs:459-471 | the removals after validation touch nothing outside the operation directory and close exactly this operation on success; from the operation's own state they end in the deleted world or in a state that can be retried |
| DeleteCleanup.CleanupCommittedDelete | src-tauri/src/library_delete.rs:434-472 | in any library: if validation refuses any path of the batch nothing is removed, otherwise nothing outside the operation directory is touched, success means every marker and payload gone and this operation closed, and failure the tables as they were; from the operation's own state success means the deleted world |
| DeleteCleanup.RetryCommittedDelete | src-tauri/src/library_delete.rs:568-644 | in any library: an operation without committed intents, or whose paths are no longer as recorded, is refused and nothing is touched; otherwise nothing outside the operation directory changes, success closes exactly this operation under the current revision with its markers and payloads gone, and failure leaves the tables as they were; without faults it succeeds if and only if the intents are committed and valid; from the operation's own state success means the deleted world with the committed revision |
| DeleteCleanup.RetryAllowedIff | src-tauri/src/library_delete.rs:474-528 | a retry is allowed if and only if the operation has intents, all committed, whose paths are genuine, payloads directories and markers exactly as recorded; file by file |
| DeleteCleanup.RetryUntilDone | src-tauri/src/library_delete.rs:568-644 | any number of failed cleanups and one that succeeds end in the world of an uninterrupted delete, and after each the named metadata rows are gone and the revision is the committed one |
| LibraryDelete.UniqueEntries | src-tauri/src/library_delete.rs:172-188 | the batch is refused exactly when one key names two different entries; otherwise the first entry of each key is kept, in order |
| LibraryDelete.AgreeingKeysLoseNothing | src-tauri/src/library_delete.rs:172-188 | without conflicting keys de-duplication loses no entry the caller named |
| LibraryDelete.AbandonStaging | src-tauri/src/library_delete.rs:210-223 | a failed staging is undone from its markers: what is reported restored is restored |
| LibraryDelete.UndoUnrecorded | src-tauri/src/library_delete.rs:236-244 | after intents could not be recorded the files are back, or the state can be restored, unless moving a directory back failed as well |
| LibraryDelete.UndoUncommitted | src-tauri/src/library_delete.rs:246-260 | a failed commit restores files and tables, or keeps the intents that recovery needs |
| LibraryDelete.DeleteEntries | src-tauri/src/library_delete.rs:163-283 | Ok or incomplete: exactly the named metadata rows and session directories are gone, the revision has moved if there were rows, and it was the expected one; Ok also closes leases and intents, incomplete leaves every key leased with a committed intent; any other error, stranded or not, leaves all rows and the revision, and unless stranded every session at home or whole in the trash; all keys are leased in every state between; without faults it is Ok if and only if revision, leases, identifiers and paths allow it; every durable state passed is a crash state, and every Ok run passes one with a torn marker |
| LibraryDelete.CrashAndRecover | src-tauri/src/library_delete.rs:652-733 | a crash in any durable state of a delete, then any number of recoveries that crash in any durable state of their own: a recovery that ends leaves everything kept if the crash came before the commit, and the deleted world if it came after, the named metadata rows gone exactly then |
| Boot.HighestWins | src/runtime/reducer.ts:306-322 | whatever the order of revisions, a resource keeps the highest one, the last to arrive among equals |
| Boot.BackendSession.Arrive | src/runtime/start.ts:101-113 | the subscriber buffers, delivers or ignores an event, and the session invariant holds |
| Boot.BackendSession.Drain | src/runtime/start.ts:229-240 | the drain terminates; the listener is called once per delivery, the queue grows by exactly what it emits, the session is disposed exactly if it asks for that, and otherwise the events delivered are those the reads did not include, once each and in arrival order |
| Boot.BackendSession.Commit | src/runtime/start.ts:179-196 | one answered read changes its own resource only: a successful one that is not older replaces it, a failed one shows its error over the last good value, and either ends the loading |
| Boot.BackendSession.FailSnapshot | src/runtime/start.ts:135-147 | a failure that names no resource shows its error on all four over their last good values and disposes the session with nothing delivered |
| Boot.BackendSession.ReadSnapshot | src/runtime/start.ts:210-227 | a snapshot is committed to all four resources, its revisions become the replay boundary, and the buffer waits for the drain |
| Boot.BackendSession.FinishFallback | src/runtime/start.ts:197-201 | the boundary of a recovery holds the revisions of the successful reads only |
| Boot.LiveHoldsNewest | src/runtime/start.ts:94-247 | once live, for each resource no read, no arrived event and no earlier state is newer than what the store holds, and that is the state after the reads or the last delivered event of its revision |
| Boot.DeliveredExactlyWhatReadsLack | src/runtime/start.ts:229-240 | a live session has delivered each early event exactly as often as it arrived if no successful read of its resource is as new, and otherwise not at all, and every later one |
| Boot.DeliveredInOrder | src/runtime/start.ts:229-240 | what was delivered was delivered in the order of arrival |
| Boot.FailedReadCatchesUp | src/runtime/start.ts:184-196 | a resource whose read failed shows a value again, without an error, as soon as one event at least as new as before has arrived, buffered or live |
| Boot.LiveShowsHighestPublished | src/runtime/start.ts:94-247 | when a revision determines its value, boot ends with the value of the highest revision seen |
| Boot.RunBoot | src/runtime/start.ts:94-247 | for every interleaving of events, reads, fallback answers and a disposal the invariant holds, and a live session holds the newest of everything |
| OperationRunner.Runner.Start | src/runtime/operations.ts:89-121 | a call is shared exactly when an unsettled call of the same key is the latest intent of the scope; otherwise a new intent becomes the latest |
| OperationRunner.CurrentIffLatest | src/runtime/operations.ts:99-105 | a token is current exactly when no newer intent of its scope has started |
| OperationRunner.Runner.Resolve | src/runtime/operations.ts:123-130 | a fulfilled call commits if and only if no newer intent of its scope has started |
| OperationRunner.Runner.Announce | src/runtime/operations.ts:127-130 | a committed call toasts its success at most once, and its call is then still the latest of its scope if and only if no call of the scope was started since its commit |
| OperationRunner.Runner.Catch | src/runtime/operations.ts:131-141 | a failure is reported at most once, and only by the latest intent of its scope |
| OperationRunner.Runner.Cleanup | src/runtime/operations.ts:142-149 | settling drops the call's own slot and its share of the busy count, and the invariant holds |
| OperationRunner.CommitsFollowIntents | src/runtime/operations.ts:54-163 | within a scope, calls commit in the order in which their intents were started |
| OperationRunner.ToastsComeFromLatest | src/runtime/operations.ts:123-141 | over every run: a toast comes from the call that is the latest of its scope when it appears, if and only if it reports a failure or no call of the scope was started between the commit and the toast |
| OperationRunner.ToastedAtMostOnce | src/runtime/operations.ts:123-141 | over every run no call is toasted twice |
| OperationRunner.CallbackSupersedesItself | src/runtime/operations.ts:125-130 | a concrete run in which a commit callback starts a newer call of its scope and the success of the older one is toasted afterwards |
| OperationRunner.BusyIffUnsettled | src/runtime/operations.ts:72-87 | a key is busy exactly while a call with it has not settled |
| OperationRunner.QuietRunnerIsEmpty | src/runtime/operations.ts:142-149 | with every call settled both maps are empty |
| OperationRunner.RunCalls | src/runtime/operations.ts:54-163 | the invariant (slots are exactly the unsettled newest calls of their scope and key, busy counts are unsettled calls, commits are ordered) holds over every interleaving |
| Confirm.ArmingKeeps | src/runtime/reducer.ts:851-860 | arming a target that is not running keeps the machine consistent with its history |
| Confirm.ConfirmingKeeps | src/runtime/reducer.ts:861-866 | confirming an armed target before its expiry keeps it consistent |
| Confirm.Controller.ConfirmArm | src/runtime/reducer.ts:851-860 | arms any target that is not running |
| Confirm.Controller.ConfirmRun | src/runtime/reducer.ts:861-866 | runs a target only under the id it is armed with |
| Confirm.Controller.ConfirmExpire | src/runtime/reducer.ts:867-873 | disarms a target only under the id it is armed with |
| Confirm.Controller.Request | src/runtime/confirm.ts:100-125 | a click on a running target answers with its id; on an armed one before its expiry it confirms that id; on any other it arms with a fresh id and a whole ttl; no other target changes |
| Confirm.Controller.Fire | src/runtime/confirm.ts:115-122 | a timer, however late or early, disarms nothing but the arming it was set for |
| Confirm.Controller.Settle | src/runtime/reducer.ts:874-879 | only the id that is running on a target settles it |
| Confirm.Controller.Clear | src/store.ts:120-128 | clearing drops exactly the armed targets under the prefix and leaves running ones alone |
| Confirm.ClickAgain | src/runtime/confirm.ts:47-58 | two clicks on a free target, with any steps in between that leave it alone: the second confirms the first one's id if it comes before the end of the ttl and arms a new id otherwise, and a third click finds the confirmed one running |
| Confirm.ConfirmedAtMostOnce | src/runtime/confirm.ts:47-58 | no id is confirmed twice |
| Confirm.ConfirmedBeforeExpiry | src/runtime/confirm.ts:47-58 | every confirmation, the last one included, is of exactly one arming, on the same target and before its expiry |
| Confirm.OneRunningPerTarget | src/runtime/reducer.ts:861-879 | of all operations ever confirmed on a target at most one has not settled |
| Confirm.RunConfirmations | src/runtime/confirm.ts:85-144 | the machine is consistent with its history over every interleaving of clicks, timers, clears, settlements and a disposal |
| Navigation.Controller.Begin | src/ui/navigationController.ts:46-54 | a call enters with a generation of its own, under the current invalidation generation |
| Navigation.Controller.Invalidate | src/ui/navigationController.ts:92-96 | an invalidation supersedes every call that has begun |
| Navigation.Controller.Painted | src/ui/navigationController.ts:54-66 | a call asks for sessions if and only if it was the last to begin and is shown; it then waits for the entry of its device, and no other call changes |
| Navigation.Controller.ClearRequest | src/ui/navigationController.ts:39-42 | a settled request removes its own entry and no newer one |
| Navigation.Controller.LoadSessionsOnce | src/ui/navigationController.ts:32-44 | the entry of the device is shared exactly if it was made under the current invalidation generation, and otherwise replaced by one new request |
| Navigation.Controller.Resume | src/ui/navigationController.ts:63-87 | a call reports a load or a failure if and only if its device is shown and it was the last focus, refresh or invalidation to begin |
| Navigation.ReportsOnlyWhenNewest | src/ui/navigationController.ts:46-87 | the generation checks mean exactly that nothing was entered after the call and its device is shown |
| Navigation.OneRequestInFlight | src/ui/navigationController.ts:32-44 | never two requests in flight for one device under one invalidation generation |
| Navigation.RunNavigation | src/ui/navigationController.ts:25-98 | the invariant holds over every interleaving of calls, invalidations, frames and answers |
| MediaPublication.MediaApplication.Publish | src-tauri/src/media.rs:780-868 | one delta has exactly the effect of the join on all five resources, and returns one event for each accepted resource |
| MediaPublication.EventsTellTheSnapshot | src-tauri/src/media.rs:818-868 | there is an event for a resource if and only if it was accepted, with what a reader finds there, under the one new revision |
| MediaPublication.NoNewsNoRevision | src-tauri/src/media.rs:788-815 | a delta spends a revision, and sends an event, if and only if it brings some newer version |
| MediaPublication.EventsAreOrdered | src-tauri/src/media.rs:818-868 | the events of a delta come in the one order of the resources, each at most once |
| MediaPublication.NothingNewer | src-tauri/src/media.rs:788-807 | after any sequence of deltas no observation is newer than what is shown |
| MediaPublication.HighestVersionWins | src-tauri/src/media.rs:788-860 | what a resource shows is its seed, or the first observation of its highest version |
| MediaPublication.OrderIsIrrelevant | src-tauri/src/media.rs:780-868 | if versions determine values, two sequences with the same observations end with the same version and value, whatever their order and repetition |
| MediaPublication.AcceptedTogetherShareRevision | src-tauri/src/media.rs:818-860 | resources accepted from one delta share one new revision and all others keep theirs |
| MediaPublication.RevisionNamesItsDelta | src-tauri/src/media.rs:777-780 | resources that show the same new revision were published by the same delta |
| MediaPublication.SnapshotsAreBounded | src-tauri/src/media.rs:292-308 | no snapshot of any run shows an inner revision beyond its outer one |
| MediaLifecycle.StepKeepsInvariant | src-tauri/src/media.rs:387-475 | every single step of every thread keeps the lifecycle invariant when starts and stops do not overlap |
| MediaLifecycle.RunKeepsInvariant | src-tauri/src/media.rs:387-475 | the invariant holds over every such interleaving |
| MediaLifecycle.StopReturnedMeansStopped | src-tauri/src/media.rs:440-475 | in every run without such overlaps: when a stop returns Ok the workers are stopped and every recovery task begun so far has a stale epoch |
| MediaLifecycle.FencedTasksNeverStart | src-tauri/src/media.rs:419-433 | in every run without such overlaps: whenever a task is about to start the workers it was begun after the last stop that returned Ok |
| MediaLifecycle.FenceIsKept | src-tauri/src/media.rs:440-475 | the fence never moves back |
| MediaFence.ReturnFencesIff | src-tauri/src/media.rs:440-475 | in every run, however starts and stops overlap: a returning stop has fenced every task begun so far if and only if no start has bumped the epoch after the last bump of a stop |
| MediaFence.CanStartIffNotOut | src-tauri/src/media.rs:404-433 | in every run, for every task: some continuation lets it start the workers if and only if it is not finished, not stale before its second check, and not kept from the gate by a stop that has stopped the workers and not yet bumped the epoch |
| MediaFence.FencedReturnLeavesPassed | src-tauri/src/media.rs:419-433 | in every run: after a return that fences every task, exactly a task already past its second check can still start the workers |
| MediaFence.EarlyReturnIffNoneStarted | src-tauri/src/media.rs:440-450 | in every run: a stop that returns early finds the workers down if and only if no task has started them since the completed stop it relies on |
| MediaFence.FullStopLeavesWorkersDown | src-tauri/src/media.rs:451-475 | in every run: a stop that goes all the way leaves the workers down when it lets go of the gate |
| MediaFence.SerialReturnsFence | src-tauri/src/media.rs:387-475 | runs without overlapping starts and stops meet the condition, and no task begun before a return can start the workers in any continuation, overlapping or not |
| MediaFence.SerialEarlyReturnsAreSafe | src-tauri/src/media.rs:440-450 | in such runs no early return relies on a completed stop after which workers were started |
| MediaFence.StaleCompletionLeavesWorkers | src-tauri/src/media.rs:387-450 | a concrete run in which no start is called while a stop runs and a stop returns Ok with the workers running |
| MediaFence.OverlappingStartPassesFence | src-tauri/src/media.rs:387-450 | a concrete run in which no start is called while a stop runs, a stop takes its early return while a start is half-way, and a task begun before that return starts the workers after it |
| MediaHistory.RegistersTellTheRun | src-tauri/src/media.rs:387-475 | over every run each flag, and the workers, are up if and only if the last step that touched them put them up, and the epoch is the number of its bumps |
| MediaHistory.OneStartPerClearing | src-tauri/src/media.rs:387-391 | over every run at most one start goes ahead for each time that a stop clears the flag, and one more |
| MediaHistory.StarterWentAllTheWay | src-tauri/src/media.rs:404-433 | over every run a task about to start the workers has had a successful recovery and found the flag set and its epoch current twice, the second time under the gate |
| MediaHistory.ErrorIffWorkersWouldNotStop | src-tauri/src/media.rs:451-456 | over every run a stop has answered with an error if and only if it found that the workers would not stop |
| BatchOutcome.Collect | src-tauri/src/media.rs:1185-1205 | the first pass knows of every item whether it was answered, by what, and whether more than once, and whether a foreign item or a repetition was seen |
| BatchOutcome.Assemble | src-tauri/src/media.rs:1207-1225 | the second pass builds the results item by item and reports exactly the missing ones |
| BatchOutcome.NormalizeOutcome | src-tauri/src/media.rs:1181-1233 | the two passes compute the normal form of the outcome |
| BatchOutcome.ExactlyTheRequest | src-tauri/src/media.rs:1207-1225 | the output lists the requested items in order, each with the single result the backend returned for it, success or failure, or a contract violation if there was none or more than one |
| BatchOutcome.ContractMeansPermutation | src-tauri/src/media.rs:1192-1205 | the contract is kept if and only if the returned items are a permutation of the request |
| BatchOutcome.ErrorUnlessPermutation | src-tauri/src/media.rs:1226-1230 | there is no operation error if and only if the backend reported none and returned a permutation; a reported one is kept |
| BatchOutcome.NormalizingTwice | src-tauri/src/media.rs:1181-1233 | normalising twice is normalising once |
| Scheduler.Scheduler.StartTransfer | src-tauri/src/sim.rs:234-278 | a new row goes to the front and runs at once if and only if fewer than three are active |
| Scheduler.Scheduler.Revive | src-tauri/src/sim.rs:319-333 | the failed row is prepared or queued and loses its error, and nothing else changes |
| Scheduler.Scheduler.RetryTransfer | src-tauri/src/sim.rs:289-333 | a retry succeeds exactly for a failed row, which runs again at its old place if fewer than three are active and waits there otherwise |
| Scheduler.Scheduler.FinishTransfer | src-tauri/src/sim.rs:415-516 | a finished transfer becomes failed or succeeded; only a failed one keeps its context |
| Scheduler.Scheduler.QueueTurn | src-tauri/src/sim.rs:556-596 | a turn promotes the queued row inserted first, unless the cap is reached or nothing waits |
| Scheduler.Scheduler.ProcessQueue | src-tauri/src/sim.rs:556-596 | the loop terminates (measure: queued rows) and ends only with the cap reached or nothing queued |
| Scheduler.DrainedFillsOldestFirst | src-tauri/src/sim.rs:570-584 | everything the loop promotes was inserted before everything it leaves waiting, it changes nothing else, and never exceeds the cap |
| Scheduler.RequeuedRowGoesNextIff | src-tauri/src/sim.rs:319-333 | a row queued again at its old place is promoted next if and only if no row inserted before it waits, however long others have been waiting |
| Scheduler.LateRowsOvertake | src-tauri/src/sim.rs:234-584 | a concrete run in which the row started last and the row queued last both run while two rows that were waiting before them still wait |
| Scheduler.RunTransfers | src-tauri/src/sim.rs:234-596 | over every interleaving of starts, retries, finishes and queue turns at most three rows are preparing or running, the spawned tasks are exactly those rows, and with no queue loop under way nothing waits below three |

## Left out

- Commands, event sinks, the transport and JSON: events and replies are values that arrive, in any order, or do not.
- `src/runtime/decoder.ts`, `src/runtime/tauriTransport.ts`, rendering, toasts' texts, themes and the update dialog: field checks and display only.
- SQLite, the key ring, the object store and device HTTP are not part of this model; the application store of a delete has the contract of its calls: leases all or none, intents recorded at once, a compare-and-set on the revision, abort and finalise clearing intents and leases.
- Error texts are reduced to enumerated reasons; the `retryable` flag of an incomplete delete, which the source derives from its text, is not modelled.
- Session rows carry the fields that the merge, retention and verification rules look at; sizes, durations and sample counts, the shortened digest check and the defaults that `eventAction` fills in for old events are not modelled.
- Text is ordered lexicographically by character on both sides; byte order and UTF-16 order differ only outside the basic multilingual plane.
- Revisions, versions and epochs are unbounded naturals, so the source's saturation is not reached.
- Drivers such as Boot.RunBoot only feed an arbitrary list of steps to the methods: what they show is that each step, whenever it comes, keeps the invariant.
- `ensureSessionDetail`, device switching inside `loadMoreSessions` beyond the active-device check, and the downloads that follow the paging loop: they add no state to the catalog protocol.
- Paging.DownloadAllPages: assumes that no other client action touches the device meanwhile, as the source's generation counter does; a refresh in between, also the one after a moved catalog, ends its claims.
- Agreement.ClientShowsWhatWasPublished: an append or detail reply that is news is delivered only to a client on the rows it was published over; without that it fails for details (DetailStates.OvertakenAppendNeverAgrees).
- LibraryDelete.DeleteEntries: excludes the double fault in which recording the intents fails and moving a directory back fails too (the result is then `stranded`); the source drops the marker in that case.
- LibraryDelete.CrashAndRecover: one delete in flight and no leftover operation, since the scan of the trash walks every operation directory; `reconcile_upload_leases` and the lease reaper are not modelled.
- DeleteRecovery.RecoverPendingDeletes: the counts of the report and the reconciliation of upload leases are not modelled; the source compiles this recovery for its tests only and leaves production to the explicit retry.
- DeleteMachine.Machine.Rename: a session directory is one node, so a rename is atomic and a recursive removal leaves some other tree or none; durability of a completed step, mount points and a symlink swapped in between a check and its use are not modelled, beyond that each check may fail.
- DeleteCleanup.RetryCommittedDelete: an operation id is one path component; blank ids and trailing separators, which the source refuses or normalises, are not told apart, and the checks of the library root itself are left out.
- Identifiers are safe when they form one path component; `derive_target_path` is not part of this model.
- MediaLifecycle.FencedTasksNeverStart: holds for starts and stops that do not overlap, and fails without that; MediaFence has the exact conditions. A recovery error only ends its task, and what the workers do is not modelled.
- MediaPublication.OrderIsIrrelevant: event delivery and its failures are left out; the model ends with the events to deliver.
- Boot.LiveShowsHighestPublished: session and pairing events are delivered like all others here, and what they do to the store is modelled in ClientCatalog or is display only.
- OperationRunner.Runner.Announce: callbacks are steps of their own, so that calls started inside them interleave freely; what they compute is not modelled.
- Confirm.Controller.Request: ids are kept as their sequence numbers, and clocks are arbitrary integers, not assumed to advance.
- Scheduler.Scheduler.FinishTransfer: random failures, speeds and progress ticks are a nondeterministic finish; library, device and notification effects are left out.
- `memoryBackend.ts`, fixtures, fake clocks and test doubles.
