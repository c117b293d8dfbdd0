/*
 * The synchronising session manager (jupyter_server_synchronizer/manager.py):
 * a session manager that, on every pass, rebuilds its picture of the
 * server's kernels from the gateway, the kernel table and the multi-kernel
 * manager, and then brings the three back in line. Each method runs the
 * source's loop step by step and is proved to leave the state the matching
 * function of module Reconciliation describes.
 */
module Manager {
  import opened KernelRecords
  import opened KernelDb
  import opened Reconciliation

  class SynchronizerSessionManager {
    const schema: Schema                // `kernel_record_class`
    var workspace: KernelRecordList     // `_kernel_records`
    const table: KernelTable            // `kernel_table`
    var kernels: KernelManagerState     // `kernel_manager`
    var sessions: seq<Session>          // the session table this manager owns
    var pendingSessions: set<string>    // the kernel ids of `_pending_sessions`

    predicate Valid()
      reads this, workspace, table
    {
      workspace.schema == schema && table.schema == schema && table.Valid()
    }

    /**
     * `__init__`: an empty workspace, no pending sessions, a table at the
     * manager's `database_filepath` over the rows stored there.
     */
    constructor (schema: Schema, path: string, state: PathState, stored: seq<Row>, kernels: KernelManagerState,
                 sessions: seq<Session>)
      requires ValidateDatabasePath(path, state).Ok?
      requires NewDatabase(path, state) ==> stored == []
      requires forall i :: 0 <= i < |stored| ==> WellFormed(schema, stored[i])
      ensures Valid()
      ensures this.schema == schema && workspace.records == [] && table.rows == stored
      ensures table.databaseFilepath == path
      ensures this.kernels == kernels && this.sessions == sessions && pendingSessions == {}
    {
      this.schema := schema;
      workspace := new KernelRecordList(schema);
      table := new KernelTable(schema, path, state, stored);
      this.kernels := kernels;
      this.sessions := sessions;
      pendingSessions := {};
    }

    /** `fetch_gateway_kernels` (gateway.py): merge a record per listed kernel. */
    method FetchRunningKernels(listing: RemoteListing) returns (res: Outcome)
      requires Valid()
      modifies workspace
      ensures Valid()
      ensures listing.Unreachable? ==> res == Fail(RemoteFailure) && workspace.records == old(workspace.records)
      ensures listing.Listed? ==>
        (workspace.records, res) == InsertAll(schema, old(workspace.records), RemoteRecords(SessionManager, listing.kernels))
    {
      if listing.Unreachable? {
        return Fail(RemoteFailure);
      }
      res := workspace.UpdateEach(RemoteRecords(SessionManager, listing.kernels));
    }

    /** `fetch_recorded_kernels`: merge every table row, marked recorded. */
    method FetchRecordedKernels() returns (res: Outcome)
      requires Valid()
      modifies workspace
      ensures Valid()
      ensures (workspace.records, res) ==
        InsertAll(schema, old(workspace.records), TableRecords(SessionManager, ListRecords(schema, table.rows)))
    {
      res := workspace.UpdateEach(TableRecords(SessionManager, ListRecords(schema, table.rows)));
    }

    /** `fetch_managed_kernels`: merge `from_manager` of every running kernel. */
    method FetchManagedKernels() returns (res: Outcome)
      requires Valid()
      modifies workspace
      ensures Valid()
      ensures (workspace.records, res) ==
        InsertAll(schema, old(workspace.records), ManagedRecords(SessionManager, schema, kernels.kernels))
    {
      res := workspace.UpdateEach(ManagedRecords(SessionManager, schema, kernels.kernels));
    }

    /** `fetch_kernel_records`: remote, then table, then managed; an exception ends it. */
    method FetchKernelRecords(listing: RemoteListing) returns (res: Outcome)
      requires Valid()
      modifies workspace
      ensures Valid()
      ensures (workspace.records, res) ==
        Fetched(SessionManager, schema, Some(listing), old(workspace.records), table.rows, kernels)
    {
      res := FetchRunningKernels(listing);
      if res.Fail? {
        return;
      }
      res := FetchRecordedKernels();
      if res.Fail? {
        return;
      }
      res := FetchManagedKernels();
    }

    /**
     * `remove_stale_kernels`: walk the workspace by index, removing members
     * that are not alive and deleting the table rows of recorded ones; an
     * exception is logged and the walk goes on.
     */
    method RemoveStaleKernels()
      requires Valid()
      modifies workspace, table
      ensures Valid()
      ensures PruneFrom(SessionManager, schema, old(workspace.records), old(table.rows), 0) ==
        (workspace.records, table.rows, Pass)
    {
      var i := 0;
      while i < |workspace.records|
        invariant Valid()
        invariant PruneFrom(SessionManager, schema, workspace.records, table.rows, i) ==
          PruneFrom(SessionManager, schema, old(workspace.records), old(table.rows), 0)
        decreases |workspace.records| - i
      {
        var k := workspace.records[i];
        if !IsSet(k.alive) {
          var removed := workspace.RemoveMember(i);
          if removed == Pass && IsSet(k.recorded) {
            var deleted := table.Delete(KernelIdKey(k));
          }
        }
        i := i + 1;
      }
    }

    /**
     * `hydrate_kernel_managers`: start a kernel for every member that is
     * alive and not managed, giving it a new id from `uuids` when it has
     * none; `managed` is set only when the start succeeds.
     */
    method HydrateKernelManagers(uuids: nat -> string)
      requires Valid() && UuidSupply(uuids)
      modifies this, workspace
      ensures Valid() && workspace == old(workspace)
      ensures sessions == old(sessions) && pendingSessions == old(pendingSessions)
      ensures HydrateFrom(SessionManager, schema, old(workspace.records), old(kernels), uuids, 0) ==
        (workspace.records, kernels, Pass)
    {
      var i := 0;
      while i < |workspace.records|
        invariant Valid() && workspace == old(workspace)
        invariant sessions == old(sessions) && pendingSessions == old(pendingSessions)
        invariant HydrateFrom(SessionManager, schema, workspace.records, kernels, uuids, i) ==
          HydrateFrom(SessionManager, schema, old(workspace.records), old(kernels), uuids, 0)
      {
        var k := workspace.records[i];
        if !IsSet(k.managed) && IsSet(k.alive) {
          ghost var before := workspace.records;
          if !TruthyText(k.kernelId) {
            k := k.(kernelId := Some(uuids(i)));
            workspace.records := workspace.records[i := k];
          }
          assert workspace.records == before[i := k];
          var started := StartKernel(kernels, k.kernelId.value, StartName(SessionManager, k), StartRemote(k));
          if started.Ok? {
            kernels := started.value;
            workspace.records := workspace.records[i := k.(managed := Some(true))];
            assert workspace.records == before[i := k.(managed := Some(true))];
          }
        }
        i := i + 1;
      }
    }

    /**
     * `record_kernels`: save every member not yet recorded, fully identified
     * and alive; mark it recorded once the save went through.
     */
    method RecordKernels()
      requires Valid()
      modifies workspace, table
      ensures Valid()
      ensures RecordFrom(SessionManager, schema, old(workspace.records), old(table.rows), 0) ==
        (workspace.records, table.rows, Pass)
    {
      var i := 0;
      while i < |workspace.records|
        invariant Valid()
        invariant RecordFrom(SessionManager, schema, workspace.records, table.rows, i) ==
          RecordFrom(SessionManager, schema, old(workspace.records), old(table.rows), 0)
      {
        var k := workspace.records[i];
        if !IsSet(k.recorded) && FullyIdentified(schema, k) && IsSet(k.alive) {
          var saved := table.Save(k);
          if saved == Pass {
            workspace.records := workspace.records[i := k.(recorded := Some(true))];
          }
        }
        i := i + 1;
      }
    }

    /** `sync_kernels`: a new workspace, then fetch, prune, hydrate and record. */
    method SyncKernels(listing: RemoteListing, uuids: nat -> string) returns (res: Outcome)
      requires Valid() && UuidSupply(uuids)
      modifies this, table
      ensures Valid()
      ensures sessions == old(sessions) && pendingSessions == old(pendingSessions)
      ensures Reconciliation.SyncKernels(SessionManager, schema, Some(listing), old(table.rows), old(kernels), uuids) ==
        KernelSync(workspace.records, table.rows, kernels, res)
    {
      workspace := new KernelRecordList(schema);
      res := FetchKernelRecords(listing);
      if res.Fail? {
        return;
      }
      RemoveStaleKernels();
      HydrateKernelManagers(uuids);
      RecordKernels();
    }

    /**
     * `delete_stale_sessions`: for every session row (read before the
     * first delete), delete the rows of its kernel when the kernel manager
     * neither runs nor is starting that kernel.
     */
    method DeleteStaleSessions()
      modifies this
      ensures kernels == old(kernels) && pendingSessions == old(pendingSessions) && workspace == old(workspace)
      ensures sessions == WithKnownKernels(old(sessions), KnownIds(kernels))
    {
      var listed := sessions;
      var known := KnownIds(kernels);
      ghost var gone: set<string> := {};
      WithoutNoKernels(listed);
      var i := 0;
      while i < |listed|
        invariant 0 <= i <= |listed|
        invariant kernels == old(kernels) && pendingSessions == old(pendingSessions) && workspace == old(workspace)
        invariant sessions == WithoutKernels(listed, gone)
        invariant StaleCovered(listed[..i], gone, known)
      {
        var kid := listed[i].kernelId;
        StaleCoveredExtends(listed, i, gone, known);
        if kid !in known {
          WithoutKernelsTwice(listed, gone, kid);
          sessions := WithoutKernels(sessions, {kid});
          gone := gone + {kid};
        }
        i := i + 1;
      }
      assert listed[..|listed|] == listed;
      WithoutUnknownKernels(listed, gone, known);
    }

    /**
     * `shutdown_kernels_without_sessions`: shut down every running kernel
     * that has no session, is ready and is not waiting for a session;
     * failures are logged and the loop goes on.
     */
    method ShutdownKernelsWithoutSessions()
      modifies this
      ensures sessions == old(sessions) && pendingSessions == old(pendingSessions) && workspace == old(workspace)
      ensures kernels == ShutdownFrom(KernelIds(old(kernels)), 0, old(kernels), sessions, pendingSessions)
    {
      var ids := KernelIds(kernels);
      var i := 0;
      while i < |ids|
        invariant 0 <= i <= |ids|
        invariant sessions == old(sessions) && pendingSessions == old(pendingSessions) && workspace == old(workspace)
        invariant ShutdownFrom(ids, i, kernels, sessions, pendingSessions) ==
          ShutdownFrom(ids, 0, old(kernels), sessions, pendingSessions)
      {
        var kid := ids[i];
        if !HasSession(sessions, kid) && Running(kernels, kid) && kid in kernels.ready && kid !in pendingSessions {
          var after := ShutdownKernel(kernels, kid);
          if after.Ok? {
            kernels := after.value;
          }
        }
        i := i + 1;
      }
    }

    /** `sync_sessions` */
    method SyncSessions()
      modifies this
      ensures pendingSessions == old(pendingSessions) && workspace == old(workspace)
      ensures sessions == WithKnownKernels(old(sessions), KnownIds(old(kernels)))
      ensures kernels == ShutdownFrom(KernelIds(old(kernels)), 0, old(kernels), sessions, pendingSessions)
    {
      DeleteStaleSessions();
      ShutdownKernelsWithoutSessions();
    }

    /** `sync_managers`: kernels, then sessions; an exception from the kernel pass skips the sessions. */
    method SyncManagers(listing: RemoteListing, uuids: nat -> string) returns (res: Outcome)
      requires Valid() && UuidSupply(uuids)
      modifies this, table
      ensures Valid()
      ensures var k := Reconciliation.SyncKernels(SessionManager, schema, Some(listing), old(table.rows), old(kernels), uuids);
        && res == k.outcome && workspace.records == k.workspace && table.rows == k.rows
        && (res.Fail? ==> kernels == k.kernels && sessions == old(sessions))
        && (res.Pass? ==> (sessions == WithKnownKernels(old(sessions), KnownIds(k.kernels)) &&
              kernels == ShutdownFrom(KernelIds(k.kernels), 0, k.kernels, sessions, pendingSessions)))
    {
      res := SyncKernels(listing, uuids);
      if res.Fail? {
        return;
      }
      SyncSessions();
    }
  }

  /** Deleting the rows of no kernel changes nothing. */
  lemma {:induction false} WithoutNoKernels(xs: seq<Session>)
    ensures WithoutKernels(xs, {}) == xs
  {
    if xs != [] {
      WithoutNoKernels(xs[1..]);
      assert xs == [xs[0]] + xs[1..];
    }
  }

  /** Deleting one more kernel's rows extends the set of deleted kernels. */
  lemma {:induction false} WithoutKernelsTwice(xs: seq<Session>, gone: set<string>, kid: string)
    ensures WithoutKernels(WithoutKernels(xs, gone), {kid}) == WithoutKernels(xs, gone + {kid})
  {
    if xs != [] {
      WithoutKernelsTwice(xs[1..], gone, kid);
      if xs[0].kernelId !in gone {
        assert ([xs[0]] + WithoutKernels(xs[1..], gone))[1..] == WithoutKernels(xs[1..], gone);
      }
    }
  }

  /**
   * `gone` holds only unknown kernels, and the kernel of every session of
   * `xs` whose kernel is unknown.
   */
  ghost predicate StaleCovered(xs: seq<Session>, gone: set<string>, known: set<string>) {
    (forall kid :: kid in gone ==> kid !in known) &&
    (forall j :: 0 <= j < |xs| && xs[j].kernelId !in known ==> xs[j].kernelId in gone)
  }

  lemma StaleCoveredExtends(xs: seq<Session>, i: nat, gone: set<string>, known: set<string>)
    requires i < |xs| && StaleCovered(xs[..i], gone, known)
    ensures xs[i].kernelId in known ==> StaleCovered(xs[..i + 1], gone, known)
    ensures xs[i].kernelId !in known ==> StaleCovered(xs[..i + 1], gone + {xs[i].kernelId}, known)
  {
    assert forall j :: 0 <= j < i ==> xs[..i + 1][j] == xs[..i][j];
  }

  /** Deleting exactly the unknown kernels' rows keeps the rows of known kernels. */
  lemma {:induction false} WithoutUnknownKernels(xs: seq<Session>, gone: set<string>, known: set<string>)
    requires StaleCovered(xs, gone, known)
    ensures WithoutKernels(xs, gone) == WithKnownKernels(xs, known)
  {
    if xs != [] {
      assert forall j :: 0 <= j < |xs| - 1 ==> xs[1..][j] == xs[j + 1];
      WithoutUnknownKernels(xs[1..], gone, known);
    }
  }
}
