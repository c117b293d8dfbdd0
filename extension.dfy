/*
 * The synchroniser as a server extension
 * (jupyter_server_synchronizer/extension.py): the older variant of the
 * passes in manager.dfy. It builds its records with a remote_id, hydrates
 * only kernels a gateway knows, lets every exception end the pass, also
 * deletes sessions whose document is gone, and syncs only kernels.
 */
module Extension {
  import opened KernelRecords
  import opened KernelDb
  import opened Reconciliation

  class SynchronizerExtension {
    var databaseFilepath: string       // `database_filepath`
    var workspace: KernelRecordList    // `_kernel_records`
    const table: KernelTable           // `kernel_table`
    var kernels: KernelManagerState    // `multi_kernel_manager`
    var sessions: seq<Session>         // the rows of `session_manager`
    var pendingSessions: set<string>   // the kernel ids of the session manager's `_pending_sessions`
    var paths: set<string>             // the paths `contents_manager.exists` reports

    /** The extension's records carry a remote_id. */
    predicate Valid()
      reads this, workspace, table
    {
      workspace.schema == WithRemoteId && table.schema == WithRemoteId && table.Valid()
    }

    /**
     * `initialize_configurables`, without its first sync: a table at the
     * extension's `database_filepath` over the rows stored there.
     */
    constructor (path: string, state: PathState, stored: seq<Row>, kernels: KernelManagerState,
                 sessions: seq<Session>, pendingSessions: set<string>, paths: set<string>)
      requires ValidateDatabasePath(path, state).Ok?
      requires NewDatabase(path, state) ==> stored == []
      requires forall i :: 0 <= i < |stored| ==> WellFormed(WithRemoteId, stored[i])
      ensures Valid()
      ensures databaseFilepath == path && table.databaseFilepath == path
      ensures workspace.records == [] && table.rows == stored
      ensures this.kernels == kernels && this.sessions == sessions && this.pendingSessions == pendingSessions
      ensures this.paths == paths
    {
      databaseFilepath := path;
      workspace := new KernelRecordList(WithRemoteId);
      table := new KernelTable(WithRemoteId, path, state, stored);
      this.kernels := kernels;
      this.sessions := sessions;
      this.pendingSessions := pendingSessions;
      this.paths := paths;
    }

    /** Assigning `database_filepath`: the extension's validator, the same rules as the table's. */
    method SetDatabaseFilepath(value: string, state: PathState) returns (res: Outcome)
      modifies this
      ensures workspace == old(workspace) && kernels == old(kernels) && sessions == old(sessions)
      ensures ValidateDatabasePath(value, state).Ok? ==> res == Pass && databaseFilepath == value
      ensures ValidateDatabasePath(value, state).Err? ==>
        res == Fail(ValidateDatabasePath(value, state).error) && databaseFilepath == old(databaseFilepath)
    {
      var checked := ValidateDatabasePath(value, state);
      if checked.Err? {
        return Fail(checked.error);
      }
      databaseFilepath := checked.value;
      return Pass;
    }

    /** `fetch_remote_kernels`: merge `(remote_id=id, alive=True)` per listed kernel. */
    method FetchRemoteKernels(listing: RemoteListing) returns (res: Outcome)
      requires Valid()
      modifies workspace
      ensures Valid()
      ensures listing.Unreachable? ==> res == Fail(RemoteFailure) && workspace.records == old(workspace.records)
      ensures listing.Listed? ==>
        (workspace.records, res) == InsertAll(WithRemoteId, old(workspace.records), RemoteRecords(Extension, listing.kernels))
    {
      if listing.Unreachable? {
        return Fail(RemoteFailure);
      }
      res := workspace.UpdateEach(RemoteRecords(Extension, listing.kernels));
    }

    /** `fetch_recorded_kernels`: merge `(kernel_id, remote_id, recorded=True)` per table row. */
    method FetchRecordedKernels() returns (res: Outcome)
      requires Valid()
      modifies workspace
      ensures Valid()
      ensures (workspace.records, res) ==
        InsertAll(WithRemoteId, old(workspace.records), TableRecords(Extension, ListRecords(WithRemoteId, table.rows)))
    {
      res := workspace.UpdateEach(TableRecords(Extension, ListRecords(WithRemoteId, table.rows)));
    }

    /** `fetch_managed_kernels`: merge `(remote_id, kernel_id, managed=True)` per running kernel. */
    method FetchManagedKernels() returns (res: Outcome)
      requires Valid()
      modifies workspace
      ensures Valid()
      ensures (workspace.records, res) ==
        InsertAll(WithRemoteId, old(workspace.records), ManagedRecords(Extension, WithRemoteId, kernels.kernels))
    {
      res := workspace.UpdateEach(ManagedRecords(Extension, WithRemoteId, kernels.kernels));
    }

    /** `fetch_kernel_records`: the remote kernels only when a gateway client is configured. */
    method FetchKernelRecords(gateway: Option<RemoteListing>) returns (res: Outcome)
      requires Valid()
      modifies workspace
      ensures Valid()
      ensures (workspace.records, res) ==
        Fetched(Extension, WithRemoteId, gateway, old(workspace.records), table.rows, kernels)
    {
      res := Pass;
      if gateway.Some? {
        res := FetchRemoteKernels(gateway.value);
        if res.Fail? {
          return;
        }
      }
      res := FetchRecordedKernels();
      if res.Fail? {
        return;
      }
      res := FetchManagedKernels();
    }

    /** `record_kernels`: no exception handling, and none is needed (`ToRecordSaves`). */
    method RecordKernels()
      requires Valid()
      modifies workspace, table
      ensures Valid()
      ensures RecordFrom(Extension, WithRemoteId, old(workspace.records), old(table.rows), 0) ==
        (workspace.records, table.rows, Pass)
    {
      var i := 0;
      while i < |workspace.records|
        invariant Valid()
        invariant RecordFrom(Extension, WithRemoteId, workspace.records, table.rows, i) ==
          RecordFrom(Extension, WithRemoteId, old(workspace.records), old(table.rows), 0)
      {
        var k := workspace.records[i];
        if !IsSet(k.recorded) && TruthyText(k.kernelId) && TruthyText(k.remoteId) && IsSet(k.alive) {
          ExtensionRecordCondition(k);
          ToRecordSaves(WithRemoteId, k);
          var saved := table.Save(k);
          workspace.records := workspace.records[i := k.(recorded := Some(true))];
        } else {
          ExtensionRecordCondition(k);
        }
        i := i + 1;
      }
    }

    /** `remove_stale_kernels`: the same walk as the session manager's, but an exception ends it. */
    method RemoveStaleKernels() returns (res: Outcome)
      requires Valid()
      modifies workspace, table
      ensures Valid()
      ensures PruneFrom(Extension, WithRemoteId, old(workspace.records), old(table.rows), 0) ==
        (workspace.records, table.rows, res)
    {
      var i := 0;
      while i < |workspace.records|
        invariant Valid()
        invariant PruneFrom(Extension, WithRemoteId, workspace.records, table.rows, i) ==
          PruneFrom(Extension, WithRemoteId, old(workspace.records), old(table.rows), 0)
        decreases |workspace.records| - i
      {
        var k := workspace.records[i];
        if !IsSet(k.alive) {
          res := workspace.RemoveMember(i);
          if res.Fail? {
            return;
          }
          if IsSet(k.recorded) {
            res := table.Delete(KernelIdKey(k));
            if res.Fail? {
              return;
            }
          }
        }
        i := i + 1;
      }
      return Pass;
    }

    /**
     * `hydrate_kernel_managers`: start every member that is alive, not
     * managed and has a remote_id, passing only kernel_id and remote_id.
     */
    method HydrateKernelManagers(uuids: nat -> string) returns (res: Outcome)
      requires Valid() && UuidSupply(uuids)
      modifies this, workspace
      ensures Valid() && workspace == old(workspace)
      ensures sessions == old(sessions) && paths == old(paths) && pendingSessions == old(pendingSessions)
      ensures HydrateFrom(Extension, WithRemoteId, old(workspace.records), old(kernels), uuids, 0) ==
        (workspace.records, kernels, res)
    {
      var i := 0;
      while i < |workspace.records|
        invariant Valid() && workspace == old(workspace)
        invariant sessions == old(sessions) && paths == old(paths) && pendingSessions == old(pendingSessions)
        invariant HydrateFrom(Extension, WithRemoteId, workspace.records, kernels, uuids, i) ==
          HydrateFrom(Extension, WithRemoteId, old(workspace.records), old(kernels), uuids, 0)
      {
        var k := workspace.records[i];
        if !IsSet(k.managed) && TruthyText(k.remoteId) && IsSet(k.alive) {
          ghost var before := workspace.records;
          if !TruthyText(k.kernelId) {
            k := k.(kernelId := Some(uuids(i)));
            workspace.records := workspace.records[i := k];
          }
          assert workspace.records == before[i := k];
          var started := StartKernel(kernels, k.kernelId.value, None, k.remoteId);
          if started.Err? {
            return Fail(started.error);
          }
          kernels := started.value;
          workspace.records := workspace.records[i := k.(managed := Some(true))];
          assert workspace.records == before[i := k.(managed := Some(true))];
        }
        i := i + 1;
      }
      return Pass;
    }

    /**
     * `delete_stale_sessions`: for every listed session, delete the rows of
     * its kernel when the kernel manager does not know it, then delete the
     * session through the session manager when its path does not exist.
     */
    method DeleteStaleSessions() returns (res: Outcome)
      modifies this
      ensures workspace == old(workspace) && paths == old(paths) && pendingSessions == old(pendingSessions)
      ensures DeleteStaleFrom(old(sessions), 0, old(sessions), old(kernels), paths) == (sessions, kernels, res)
    {
      var listed := sessions;
      var i := 0;
      while i < |listed|
        invariant 0 <= i <= |listed|
        invariant workspace == old(workspace) && paths == old(paths) && pendingSessions == old(pendingSessions)
        invariant DeleteStaleFrom(listed, i, sessions, kernels, paths) ==
          DeleteStaleFrom(listed, 0, old(sessions), old(kernels), paths)
      {
        res := SweepListedSession(listed[i]);
        if res.Fail? {
          return;
        }
        i := i + 1;
      }
      return Pass;
    }

    /** The body of the `delete_stale_sessions` loop for one listed session. */
    method SweepListedSession(x: Session) returns (res: Outcome)
      modifies this
      ensures workspace == old(workspace) && paths == old(paths) && pendingSessions == old(pendingSessions)
      ensures (sessions, kernels, res) == SweepSession(x, old(sessions), old(kernels), paths)
    {
      if x.kernelId !in KnownIds(kernels) {
        sessions := WithoutKernels(sessions, {x.kernelId});
      }
      res := Pass;
      if x.path !in paths {
        var deleted := DeleteSession(sessions, kernels, x.id);
        if deleted.Err? {
          return Fail(deleted.error);
        }
        sessions := deleted.value.0;
        kernels := deleted.value.1;
      }
    }

    /** `shutdown_kernels_without_sessions`: as the session manager's. */
    method ShutdownKernelsWithoutSessions()
      modifies this
      ensures sessions == old(sessions) && pendingSessions == old(pendingSessions) && workspace == old(workspace)
      ensures paths == old(paths)
      ensures kernels == ShutdownFrom(KernelIds(old(kernels)), 0, old(kernels), sessions, pendingSessions)
    {
      var ids := KernelIds(kernels);
      var i := 0;
      while i < |ids|
        invariant 0 <= i <= |ids|
        invariant sessions == old(sessions) && pendingSessions == old(pendingSessions) && workspace == old(workspace)
        invariant paths == old(paths)
        invariant ShutdownFrom(ids, i, kernels, sessions, pendingSessions) ==
          ShutdownFrom(ids, 0, old(kernels), sessions, pendingSessions)
      {
        var kid := ids[i];
        if !HasSession(sessions, kid) && Running(kernels, kid) && kid in kernels.ready && kid !in pendingSessions {
          var after := ShutdownKernel(kernels, kid);
          if after.Ok? {
            kernels := after.value;
          }
        }
        i := i + 1;
      }
    }

    /** `sync_kernels`: a new workspace, then fetch, prune, hydrate and record. */
    method SyncKernels(gateway: Option<RemoteListing>, uuids: nat -> string) returns (res: Outcome)
      requires Valid() && UuidSupply(uuids)
      modifies this, table
      ensures Valid()
      ensures sessions == old(sessions) && paths == old(paths) && pendingSessions == old(pendingSessions)
      ensures Reconciliation.SyncKernels(Extension, WithRemoteId, gateway, old(table.rows), old(kernels), uuids) ==
        KernelSync(workspace.records, table.rows, kernels, res)
    {
      workspace := new KernelRecordList(WithRemoteId);
      res := FetchKernelRecords(gateway);
      if res.Fail? {
        return;
      }
      res := RemoveStaleKernels();
      if res.Fail? {
        return;
      }
      res := HydrateKernelManagers(uuids);
      if res.Fail? {
        return;
      }
      RecordKernels();
    }

    /** `sync_sessions` (defined, but not called by `sync_managers`). */
    method SyncSessions() returns (res: Outcome)
      modifies this
      ensures workspace == old(workspace) && paths == old(paths) && pendingSessions == old(pendingSessions)
      ensures var (cleared, cleanedKernels, outcome) := DeleteStaleFrom(old(sessions), 0, old(sessions), old(kernels), paths);
        && res == outcome && sessions == cleared
        && kernels == if outcome.Fail? then cleanedKernels
                      else ShutdownFrom(KernelIds(cleanedKernels), 0, cleanedKernels, cleared, pendingSessions)
    {
      res := DeleteStaleSessions();
      if res.Fail? {
        return;
      }
      ShutdownKernelsWithoutSessions();
    }

    /** `sync_managers`: the session pass is commented out, so only kernels are synced. */
    method SyncManagers(gateway: Option<RemoteListing>, uuids: nat -> string) returns (res: Outcome)
      requires Valid() && UuidSupply(uuids)
      modifies this, table
      ensures Valid()
      ensures sessions == old(sessions) && paths == old(paths) && pendingSessions == old(pendingSessions)
      ensures Reconciliation.SyncKernels(Extension, WithRemoteId, gateway, old(table.rows), old(kernels), uuids) ==
        KernelSync(workspace.records, table.rows, kernels, res)
    {
      res := SyncKernels(gateway, uuids);
    }
  }

  /** The extension's test `kernel_id and remote_id and alive`, for a record not yet recorded, is `ToRecord`. */
  lemma ExtensionRecordCondition(k: KernelRecord)
    ensures ToRecord(WithRemoteId, k) <==>
      !IsSet(k.recorded) && TruthyText(k.kernelId) && TruthyText(k.remoteId) && IsSet(k.alive)
  {
    assert KernelId in IdentifierFields(WithRemoteId) && RemoteId in IdentifierFields(WithRemoteId);
    if TruthyText(k.kernelId) && TruthyText(k.remoteId) {
      forall f | f in IdentifierFields(WithRemoteId)
        ensures TruthyText(TextOf(k, f))
      {
        assert f == KernelId || f == RemoteId;
      }
    }
  }
}
