# Kernel-record reconciliation of jupyter_server_synchronizer, in Dafny

jupyter_server_synchronizer keeps three views of a Jupyter server's kernels in
line:
- the kernels a remote kernel gateway reports as running;
- the kernels recorded in an SQLite kernel table;
- the kernels the server's multi-kernel manager runs.

Each sync pass builds a fresh workspace of kernel records. It then runs four steps:
1. **Fetch**: merge one record per kernel from each source. A record merges into the first member that compares equal to it.
2. **Prune**: drop members that are not alive, and delete their table rows.
3. **Hydrate**: start the alive kernels the manager does not run.
4. **Record**: save the alive, fully identified kernels not yet in the table.

A session pass then drops server sessions whose kernel is unknown and shuts
down kernels no session uses.

The project models this core:
- `kernel_records.dfy`, module `KernelRecords`.
  - Records are the value `KernelRecord`. There are two schemas: the plain record, and the record with a `remote_id`.
  - It models equality, including its conflict rule, and the "positive update" merge.
  - The class `KernelRecordList` is the merge-on-insert workspace, with `update`, `__contains__`, `get` and `remove`.
- `kernel_db.dfy`, module `KernelDb`.
  - It defines the table columns and the statements `save`, `exists`, `update`, `delete`, `get` and `list`, as functions on a sequence of rows.
  - The class `KernelTable` changes its rows through those functions.
  - It also holds the database-path validator.
- `reconciliation.dfy`, module `Reconciliation`. Each pass is a function of the state it reads and writes. One definition serves both synchronisers, through the `Variant` parameter.
  - `SessionManager`: the synchroniser in `manager.py`. It catches and logs per-record errors.
  - `Extension`: the older server extension in `extension.py`. Any error ends its pass.
- `manager.dfy` and `extension.dfy`: the classes `SynchronizerSessionManager` and `SynchronizerExtension`.
  - Their methods run the loops of the source step by step: index-based walks that change the workspace while walking it.
  - Each method is proved equal to the pass function above.
- `properties.dfy`, module `Properties`: what the passes guarantee, and where they fall short.

The model follows the code, including these behaviours:
- Fetch merges the table rows before the managed kernels.
- A fetch failure ends the whole `sync_kernels` pass.
- The prune walk skips the member after one it removes. `PruneSkipsSuccessor` shows a dead member that survives.
- Equality is checked against any earlier member, not only the visited one. With a `remote_id`, the workspace can hold the same kernel twice. The prune can then remove the live copy and delete a running kernel's row (`RemoteIdFetchRepeatsKernel`, `RemoteIdPruneDropsLiveCopy`).
- Under the plain schema the workspace is always distinct, so the prune keeps every alive member (`PlainPruneKeepsAlive`).
- Only the remote listing sets `alive`. A kernel that the manager runs but no gateway lists is therefore never hydrated or recorded (`SyncWithoutRemoteKernels`).
- In the session manager's `sync_managers`, the session pass runs right after the kernel pass. Unless the kernel manager uses pending kernels, a kernel the kernel pass has just started is ready. So when no session uses it, it is shut down again in the same call (`HydratedKernelShutDown`).

## Model

| member | source | states |
|---|---|---|
| KernelRecords.IdentifierFieldsEndInId | jupyter_server_synchronizer/kernel_records.py:50-57 | the identifier fields are the declared fields whose names end in "_id", in declaration order: kernel_id, plus remote_id for the remote-id record |
| KernelRecords.IdentifierValues | jupyter_server_synchronizer/kernel_records.py:59-65 | one value per identifier field, in the same order, None included |
| KernelRecords.ActiveIdentifiers | jupyter_server_synchronizer/kernel_records.py:67-74 | exactly the identifier fields whose value is not None (an empty string counts), with their values |
| KernelRecords.ActiveFields | jupyter_server_synchronizer/kernel_records.py:76-83 | exactly the declared fields whose value is truthy, with their values |
| KernelRecords.Equals | jupyter_server_synchronizer/kernel_records.py:85-112 | raises a conflict iff one identifier populated on the left matches the right's truthy value and another differs; true iff some identifier matches and none differs; false iff none matches |
| KernelRecords.ReflexiveWhenIdentified | jupyter_server_synchronizer/kernel_records.py:85-112 | a record equals itself iff some identifier is truthy; a record with no truthy identifier compares unequal to every record, whichever side of `==` it is on |
| KernelRecords.EquivalenceSymmetric | jupyter_server_synchronizer/kernel_records.py:85-112 | without empty-string identifiers, equality and conflict do not depend on which side is `self` |
| KernelRecords.Merge | jupyter_server_synchronizer/kernel_records.py:114-126 | a conflict iff both kernel ids are truthy and differ; otherwise every declared field takes the incoming value when it is truthy and keeps its own otherwise, so a differing remote_id is overwritten |
| KernelRecords.UpdateRecord | jupyter_server_synchronizer/kernel_records.py:114-126 | the field-by-field `setattr` loop leaves exactly the record `Merge` describes |
| KernelRecords.MergeIdempotent | jupyter_server_synchronizer/kernel_records.py:114-126 | merging a record into itself, or merging the same record a second time, changes nothing |
| KernelRecords.EquivalentMergesCleanly | jupyter_server_synchronizer/kernel_records.py:174-180 | a member found equal to the incoming record always merges without a conflict |
| KernelRecords.EquivalentMergeKeepsIdentifiers | jupyter_server_synchronizer/kernel_records.py:174-180 | that merge never rewrites an identifier the member already has and never clears a truthy field or set flag |
| KernelRecords.FromManager | jupyter_server_synchronizer/kernel_records.py:38-48 | the identifiers come from the kernel manager, the record is managed, and it is never alive or recorded |
| KernelRecords.IndexOf | jupyter_server_synchronizer/kernel_records.py:174-180 | `list.index`: the first member equal to the argument with every earlier one unequal; none exactly when all are unequal; a conflict only when some member's comparison raises it with every earlier one unequal |
| KernelRecords.IndexOfMember | jupyter_server_synchronizer/kernel_records.py:182-187 | `remove(k)` for the member k at position i removes position i, or an earlier member equal to k, or raises a conflict |
| KernelRecords.Inserted | jupyter_server_synchronizer/kernel_records.py:174-180 | `update` merges into the first equal member and keeps the length, appends when no member is equal, and raises a conflict when a comparison does |
| KernelRecords.InsertIdempotent | jupyter_server_synchronizer/kernel_records.py:174-180 | inserting the same identified record twice leaves the list as one insert did |
| KernelRecords.InsertPreservesMembers | jupyter_server_synchronizer/kernel_records.py:174-180 | an insert adds at most one member and keeps every member's identifiers, truthy fields and set flags |
| KernelRecords.InsertAllPreservesMembers | jupyter_server_synchronizer/kernel_records.py:136-140 | a sequence of inserts only enriches the members already present |
| KernelRecords.KernelRecordList.constructor | jupyter_server_synchronizer/kernel_records.py:136-140 | a new list is empty |
| KernelRecords.KernelRecordList.Index | jupyter_server_synchronizer/kernel_records.py:177 | the member-first scan returns what `IndexOf` specifies |
| KernelRecords.KernelRecordList.Update | jupyter_server_synchronizer/kernel_records.py:174-180 | the list becomes `Inserted`, or stays as it was with the conflict reported |
| KernelRecords.KernelRecordList.UpdateEach | jupyter_server_synchronizer/kernel_records.py:136-140 | updating with each record in turn equals `InsertAll`, stopping at the first conflict |
| KernelRecords.KernelRecordList.Contains | jupyter_server_synchronizer/kernel_records.py:146-155 | by string: true iff some member's identifier values include it; by record: true iff some member compares equal, and a conflict propagates |
| KernelRecords.KernelRecordList.Get | jupyter_server_synchronizer/kernel_records.py:161-172 | by string: the first member holding that identifier, else not found; by record: the argument itself when a member equals it (argument compared first), else not found |
| KernelRecords.KernelRecordList.Remove | jupyter_server_synchronizer/kernel_records.py:182-187 | removes the first member equal to the argument, keeping the others in order; does nothing when none is equal |
| KernelRecords.KernelRecordList.RemoveMember | jupyter_server_synchronizer/kernel_records.py:182-187 | removing the member at position i removes the position `IndexOfMember` names |
| KernelDb.Columns | jupyter_server_synchronizer/kernel_db.py:74-76 | the columns are the declared fields minus alive, managed and recorded |
| KernelDb.SavedRow | jupyter_server_synchronizer/kernel_db.py:97-103 | the row `save` writes holds exactly the record's truthy column fields; with none, `save` fails on the empty value tuple |
| KernelDb.KernelTable.Save | jupyter_server_synchronizer/kernel_db.py:97-103 | appends exactly that row and leaves the existing rows alone, duplicates included |
| KernelDb.Exists | jupyter_server_synchronizer/kernel_db.py:105-114 | fails iff a keyword is not a declared field; otherwise true iff some row's kernel_id equals the kernel_id text of the keywords ("None" when there is none) |
| KernelDb.ExistsOnlyReadsKernelId | jupyter_server_synchronizer/kernel_db.py:105-114 | keywords with the same kernel_id text get the same answer, whatever other identifiers they carry |
| KernelDb.RemoteIdExistsAsksForNone | jupyter_server_synchronizer/kernel_db.py:105-114 | `exists(remote_id=...)` ignores the remote id and is true exactly when some row holds the kernel_id text "None" |
| KernelDb.Selector | jupyter_server_synchronizer/kernel_db.py:78-95 | no keyword naming a column is refused, more than one keyword fails in the statement, and one keyword is the WHERE column and value |
| KernelDb.Unmatched | jupyter_server_synchronizer/kernel_db.py:142-144 | keeps exactly the rows the WHERE clause does not match, each as often as the table holds it, and no copy of a matching row |
| KernelDb.Deleted | jupyter_server_synchronizer/kernel_db.py:142-144 | `delete` fails exactly when the selector does, with the selector's error |
| KernelDb.KernelTable.Delete | jupyter_server_synchronizer/kernel_db.py:142-144 | the table becomes `Deleted`, or is unchanged when the statement is refused |
| KernelDb.RowToRecord | jupyter_server_synchronizer/kernel_db.py:146-149 | every column read back, NULL as None, and the status flags unset |
| KernelDb.ListRecords | jupyter_server_synchronizer/kernel_db.py:151-155 | one record per row, in row order |
| KernelDb.Get | jupyter_server_synchronizer/kernel_db.py:157-164 | the record of the first matching row, as `fetchone` returns it, even when `save` has stored duplicates; no match when no row matches; the selector's error when refused |
| KernelDb.SaveThenGet | jupyter_server_synchronizer/kernel_db.py:157-164 | after saving a record with a truthy kernel_id that no row holds yet, getting by that kernel_id returns the stored columns |
| KernelDb.SavedColumnsRoundTrip | jupyter_server_synchronizer/kernel_db.py:146-149 | reading back a saved row gives the record's truthy column values and None for the others |
| KernelDb.DeleteThenGet | jupyter_server_synchronizer/kernel_db.py:142-164 | after a delete by one value, getting by the same value finds nothing |
| KernelDb.UpdateField | jupyter_server_synchronizer/kernel_db.py:116-131 | the identifier `update` settles on is the first truthy one that `exists` reports |
| KernelDb.Updated | jupyter_server_synchronizer/kernel_db.py:116-140 | `update` fails iff no identifier is found, and never changes the number of rows |
| KernelDb.KernelTable.Update | jupyter_server_synchronizer/kernel_db.py:116-140 | the loop finds the same identifier and the table becomes `Updated`, or is unchanged on failure |
| KernelDb.UpdateKeepsOtherRows | jupyter_server_synchronizer/kernel_db.py:133-140 | rows the WHERE clause does not match are left unchanged |
| KernelDb.UpdateAddsRemoteId | jupyter_server_synchronizer/kernel_db.py:116-140 | updating the row of kernel k with a remote_id fills that column in |
| KernelDb.ValidateDatabasePath | jupyter_server_synchronizer/kernel_db.py:33-51 | an accepted value is returned unchanged; only a non-memory path that exists can be refused |
| KernelDb.ValidatedFileIsDatabase | jupyter_server_synchronizer/kernel_db.py:44-50 | an existing file is accepted iff it is empty or begins with "SQLite format 3" (the 100-byte header loses nothing) |
| KernelDb.PathStatesDecide | jupyter_server_synchronizer/kernel_db.py:35-43 | ":memory:" and missing paths are accepted; a directory is refused |
| KernelDb.KernelTable.constructor | jupyter_server_synchronizer/kernel_db.py:23-31 | the table opens at its configured `database_filepath`, a path the validator accepts. It holds the rows stored there, and none for ":memory:", a file still to be created or an empty file |
| KernelDb.KernelTable.SetDatabaseFilepath | jupyter_server_synchronizer/kernel_db.py:33-51 | a refused path leaves the old value and reports the validator's error |
| Reconciliation.RemoteRecord | jupyter_server_synchronizer/gateway.py:19-23 | a remote kernel's record is alive, neither recorded nor managed |
| Reconciliation.TableRecord | jupyter_server_synchronizer/manager.py:69-73 | a listed row's record is marked recorded and keeps the row's kernel_id and (unset) flags |
| Reconciliation.ManagedRecord | jupyter_server_synchronizer/manager.py:75-81 | a managed kernel's record is managed, never alive or recorded, with the manager's kernel id |
| Reconciliation.KnownIds | jupyter_server_synchronizer/manager.py:151 | the known kernel ids are exactly the running and the pending ones |
| Reconciliation.WithoutKernels | jupyter_server_synchronizer/manager.py:159 | `DELETE FROM session WHERE kernel_id=?` keeps exactly the sessions of other kernels |
| Reconciliation.WithoutKernelsCounts | jupyter_server_synchronizer/manager.py:159 | the DELETE keeps each session of another kernel as often as it occurs, and no copy of the others |
| Reconciliation.WithKnownKernels | jupyter_server_synchronizer/manager.py:149-159 | the session rows left after the sweep: exactly those whose kernel is running or pending, each as often as before, and no copy of the others |
| Reconciliation.WithoutSession | jupyter_server_synchronizer/extension.py:168 | the DELETE of `delete_session` keeps exactly the other sessions, each as often as before, and no copy of the deleted one |
| Reconciliation.WithKernelId | jupyter_server_synchronizer/manager.py:130-132 | a member without a truthy kernel_id gets the fresh one; others keep theirs |
| Reconciliation.ToRecordSaves | jupyter_server_synchronizer/manager.py:93-110 | a member chosen for recording always yields a row holding its kernel_id, so `save` cannot fail on it |
| Reconciliation.DeleteSession | jupyter_server_synchronizer/extension.py:168 | `delete_session` fails when the session row is gone. For a found session it succeeds exactly when its kernel shuts down, and then removes the row; otherwise it reports the shutdown failure |
| Reconciliation.StartKernel | jupyter_server_synchronizer/manager.py:135 | `start_kernel` fails exactly for a kernel that fails to start. Otherwise the kernel runs and no other kernel starts or stops. A newly started kernel is ready, or pending when the manager uses pending kernels; a running one is reused |
| Reconciliation.ShutdownKernel | jupyter_server_synchronizer/manager.py:193 | `shutdown_kernel` fails exactly for an unknown or failing kernel; otherwise exactly that kernel stops and leaves the ready and pending sets |
| Manager.SynchronizerSessionManager.constructor | jupyter_server_synchronizer/manager.py:44-51 | the kernel table is created with the configured schema at the manager's `database_filepath`; the workspace and pending sessions start empty |
| Manager.SynchronizerSessionManager.FetchRunningKernels | jupyter_server_synchronizer/gateway.py:13-23 | an unreachable gateway fails before any merge; otherwise each listed kernel is merged as (kernel_id, kernel_name, alive) |
| Manager.SynchronizerSessionManager.FetchRecordedKernels | jupyter_server_synchronizer/manager.py:69-73 | every listed table row is merged, marked recorded |
| Manager.SynchronizerSessionManager.FetchManagedKernels | jupyter_server_synchronizer/manager.py:75-81 | every kernel of the manager is merged via `from_manager` |
| Manager.SynchronizerSessionManager.FetchKernelRecords | jupyter_server_synchronizer/manager.py:83-91 | remote, then table, then managed, stopping at the first failure |
| Manager.SynchronizerSessionManager.RemoveStaleKernels | jupyter_server_synchronizer/manager.py:112-122 | the index walk, with removal during iteration and errors logged, leaves exactly the workspace and table of `PruneFrom` |
| Manager.SynchronizerSessionManager.HydrateKernelManagers | jupyter_server_synchronizer/manager.py:124-139 | leaves exactly the workspace and kernel manager of `HydrateFrom`, start failures logged |
| Manager.SynchronizerSessionManager.RecordKernels | jupyter_server_synchronizer/manager.py:93-110 | leaves exactly the workspace and table of `RecordFrom` |
| Manager.SynchronizerSessionManager.SyncKernels | jupyter_server_synchronizer/manager.py:198-207 | a fresh workspace, then fetch, prune, hydrate and record; a fetch failure ends the pass |
| Manager.SynchronizerSessionManager.DeleteStaleSessions | jupyter_server_synchronizer/manager.py:141-174 | keeps exactly the sessions whose kernel is running or pending, in order; the content check is disabled |
| Manager.SynchronizerSessionManager.ShutdownKernelsWithoutSessions | jupyter_server_synchronizer/manager.py:176-196 | walks the kernel ids and shuts down each one with no session, ready and not pending for a session; failures are ignored |
| Manager.SynchronizerSessionManager.SyncSessions | jupyter_server_synchronizer/manager.py:209-221 | stale sessions are deleted, then sessionless kernels shut down |
| Manager.SynchronizerSessionManager.SyncManagers | jupyter_server_synchronizer/manager.py:223-230 | the kernel pass, then (when it passes) the session pass |
| Manager.WithoutUnknownKernels | jupyter_server_synchronizer/manager.py:149-159 | deleting the rows of each unknown kernel, one kernel at a time, keeps exactly the sessions of known kernels |
| Manager.WithoutKernelsTwice | jupyter_server_synchronizer/manager.py:159 | two successive session deletes equal one delete of both kernels |
| Extension.SynchronizerExtension.constructor | jupyter_server_synchronizer/extension.py:248-258 | the table uses the remote-id record at the extension's `database_filepath`; the workspace starts empty |
| Extension.SynchronizerExtension.SetDatabaseFilepath | jupyter_server_synchronizer/extension.py:33-51 | the extension's validator accepts and refuses exactly as the table's |
| Extension.SynchronizerExtension.FetchRemoteKernels | jupyter_server_synchronizer/extension.py:84-91 | each listed kernel is merged as (remote_id, alive); an unreachable gateway fails |
| Extension.SynchronizerExtension.FetchRecordedKernels | jupyter_server_synchronizer/extension.py:97-103 | each row is merged as (kernel_id, remote_id, recorded) |
| Extension.SynchronizerExtension.FetchManagedKernels | jupyter_server_synchronizer/extension.py:105-112 | each managed kernel is merged as (remote_id, kernel_id, managed) |
| Extension.SynchronizerExtension.FetchKernelRecords | jupyter_server_synchronizer/extension.py:114-119 | the remote kernels only when a gateway client exists, then the table, then the managed kernels |
| Extension.SynchronizerExtension.RecordKernels | jupyter_server_synchronizer/extension.py:121-125 | with no error handling, still leaves exactly the workspace and table of `RecordFrom` and never fails |
| Extension.SynchronizerExtension.RemoveStaleKernels | jupyter_server_synchronizer/extension.py:127-132 | the same walk as the session manager's, ended by the first error |
| Extension.SynchronizerExtension.HydrateKernelManagers | jupyter_server_synchronizer/extension.py:134-143 | starts only alive, unmanaged members with a remote_id, passing kernel_id and remote_id; the first failure ends the pass |
| Extension.SynchronizerExtension.DeleteStaleSessions | jupyter_server_synchronizer/extension.py:145-168 | per listed session: drop its kernel's rows when the kernel is unknown, then delete the session when its path is missing; a failed delete ends the pass |
| Extension.SynchronizerExtension.SweepListedSession | jupyter_server_synchronizer/extension.py:152-168 | one listed session's turn: drop its kernel's rows when the kernel is unknown, then delete it when its path is missing; a failed delete is reported and ends the pass |
| Extension.SynchronizerExtension.ShutdownKernelsWithoutSessions | jupyter_server_synchronizer/extension.py:170-193 | as the session manager's |
| Extension.SynchronizerExtension.SyncKernels | jupyter_server_synchronizer/extension.py:195-204 | a fresh workspace, then fetch, prune, hydrate and record, ended by the first error |
| Extension.SynchronizerExtension.SyncSessions | jupyter_server_synchronizer/extension.py:206-218 | the session delete, then (when it passes) the shutdown |
| Extension.SynchronizerExtension.SyncManagers | jupyter_server_synchronizer/extension.py:220-225 | only the kernel pass runs |
| Extension.ExtensionRecordCondition | jupyter_server_synchronizer/extension.py:123 | the extension's test (kernel_id, remote_id and alive truthy, not recorded) is the session manager's "fully identified" test for the remote-id record |
| Properties.RecordMarksChosen | jupyter_server_synchronizer/manager.py:93-110 | recording never fails: exactly the not-yet-recorded, fully identified, alive members are marked recorded. The table gains exactly their saved rows, one each, in workspace order, after the rows it had |
| Properties.ChosenRows | jupyter_server_synchronizer/manager.py:103-106 | the rows `save` writes for the chosen members: a row for every chosen member, and only rows saved from chosen members |
| Properties.HydrateStartsChosen | jupyter_server_synchronizer/manager.py:124-139 | other members are unchanged; running kernels stay, and every new one is a chosen member's kernel, ready (or pending with pending kernels). On success each chosen member keeps its kernel_id or gets the fresh uuid, and nothing else of it changes but `managed`. It is managed exactly when its start succeeded, and then its kernel runs. In the extension a failed start ends the pass |
| Properties.ShutdownStopsUnclaimed | jupyter_server_synchronizer/manager.py:176-196 | a kernel still runs afterwards iff it ran before and was not a listed kernel with no session, ready, not pending, and able to shut down |
| Properties.DeleteStaleClears | jupyter_server_synchronizer/extension.py:145-168 | only sessions are removed and no kernel becomes known; on success no session survives with the id of a listed session whose path is missing, and a surviving session that shares a listed session's kernel has a kernel known before the pass |
| Properties.DeadSkipKeepsAlive | jupyter_server_synchronizer/manager.py:114-117 | the skip-after-removal walk keeps every alive member and adds none |
| Properties.DistinctFindsItself | jupyter_server_synchronizer/kernel_records.py:182-187 | in a workspace where no member equals a later one, `remove(k)` removes k itself |
| Properties.DistinctPrune | jupyter_server_synchronizer/manager.py:112-122 | on such a workspace the prune never fails and keeps each alive member, dropping a dead one and keeping the member after it unvisited |
| Properties.PlainEquivalence | jupyter_server_synchronizer/kernel_records.py:85-112 | for the plain record two records are equal iff they hold the same truthy kernel_id, and never conflict |
| Properties.PlainInsertAllDistinct | jupyter_server_synchronizer/kernel_records.py:174-180 | for the plain record, merge-on-insert keeps a workspace free of equal members |
| Properties.PlainFetchDistinct | jupyter_server_synchronizer/manager.py:83-89 | for the plain record, the fetched workspace is free of equal members |
| Properties.PlainPruneKeepsAlive | jupyter_server_synchronizer/manager.py:112-122 | for the plain record, the prune never fails and keeps every alive member |
| Properties.HydratedKernelShutDown | jupyter_server_synchronizer/manager.py:124-139 | a listed kernel k1 with an empty table is started and recorded by the kernel pass. The session pass then shuts it down iff pending kernels are off, since it has no session |
| Properties.PruneSkipsSuccessor | jupyter_server_synchronizer/manager.py:114-117 | of two dead members in a row, the first is removed and the second survives the walk |
| Properties.PruneOnlyRemoves | jupyter_server_synchronizer/manager.py:112-122 | the prune only removes members and rows, and every row it deletes holds the kernel_id of a recorded member that is not alive |
| Properties.DistinctPruneDeletesRows | jupyter_server_synchronizer/manager.py:112-122 | on a distinct workspace, no row left holds the kernel_id of a recorded member the prune removed; with `PruneOnlyRemoves` this fixes exactly which rows go |
| Properties.FetchNoneAlive | jupyter_server_synchronizer/manager.py:69-81 | without remote kernels no fetched member is alive: table and manager records never are |
| Properties.SyncWithoutRemoteKernels | jupyter_server_synchronizer/manager.py:198-207 | with no remote kernel listed, a sync starts no kernel and records no row, whatever the manager runs |
| Properties.RecordedOnlyRowDeleted | jupyter_server_synchronizer/manager.py:198-207 | a row for k1 with no remote or managed kernel is deleted by the session manager's sync, and nothing is started |
| Properties.RemoteIdFetchRepeatsKernel | jupyter_server_synchronizer/extension.py:84-119 | a remote r1, a row k1 without remote_id and a managed k1/r1 fetch into a live member k1/r1 and a recorded member k1 |
| Properties.RemoteIdPruneDropsLiveCopy | jupyter_server_synchronizer/extension.py:127-132 | pruning that workspace removes the live member and deletes the row of the running kernel k1 |

## Left out

- The SQLite engine is left out: connections, cursors, lazy creation and the SQL text with its quoting. The table is a sequence of rows (column to text, an absent column is NULL), and row order is insertion order.
- The gateway's HTTP request is left out. Its answer is a parameter: a listing of (id, name) pairs, or an unreachable gateway.
- Only the gateway fetcher is modelled as `fetch_running_kernels`; the configurable coroutine is not.
- Async scheduling is left out: `_regular_syncing`, `start_regular_syncing`, `run_sync`, `initialize_settings` and `initialize_configurables`. These are event-loop wiring; the constructors stand in for the last.
- `list_sessions` of the session manager is left out. It only wraps `sync_managers` in a try and then lists the sessions.
- The session manager's own pruning of rows inside `get_session` and `list_sessions` is left out. Sessions are plain rows (id, kernel_id, path).
- The multi-kernel manager is modelled only as the state the passes use: its running kernels in order, pending ids, ready ids, ids whose start or shutdown fails, a default kernel name and whether it uses pending kernels. Its starting and stopping mechanics are left out.
- Reconciliation.StartKernel: the multi-kernel manager is not part of this model. What a start does to the ready and pending sets follows jupyter_client's `MultiKernelManager`: without pending kernels the start is awaited, so the kernel is ready; with them it stays pending.
- Reconciliation.ManagedRecord: the extension's `fetch_managed_kernels` reads `km.remote_id` directly, and a kernel manager without that attribute raises AttributeError. The model gives every managed kernel an optional remote id, so a missing attribute reads as None instead of ending the fetch.
- KernelDb.KernelTable.constructor: a configured `database_filepath` that the validator refuses raises TraitError while constructing. The constructors take only a path it accepts; `SetDatabaseFilepath` models the refusal.
- `uuid.uuid4()` is a parameter: a supply of non-empty strings, one per workspace position. Its uniqueness is not assumed, and no property needs it.
- Logging is left out. A logged error is modelled as the loop going on.
- `KernelRecord.fields` and `dataclasses` reflection are replaced by the two fixed schemas.
- `KernelRecordList.__str__` is left out.
- `__len__` is `Length`, which has no contract of its own beyond its value.
- The `KernelRecordList(*records)` constructor is covered by `UpdateEach` on an empty list.
- `update` with a non-record argument (the TypeError) is left out: the model only ever passes records.
- Python object identity is represented by list position. In the passes, this matters only where `remove_stale_kernels` removes the member being visited.
- In-place updates of shared record objects are modelled as replacing the workspace entry.
- The extension's `fetch_local_kernels` does nothing and has no model.
- Extension.SynchronizerExtension.constructor: the extension is modelled with the remote-id record only. With the plain record, its fetches read and pass a `remote_id` the record does not have, so they raise on the first table row, managed kernel or remote kernel.
- handlers.py, traits.py, _version.py and __init__.py are not part of this model: a thin HTTP handler, a trait type and metadata.
