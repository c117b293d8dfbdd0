/*
 * The reconciliation passes of the two synchronisers
 * (jupyter_server_synchronizer/manager.py and the older
 * jupyter_server_synchronizer/extension.py), stated as functions of the
 * state they read and write: the workspace of kernel records, the rows of
 * the kernel table, the multi-kernel manager and the session table. The
 * classes in manager.dfy and extension.dfy run the same passes step by step
 * and are proved to agree with these functions.
 */
module Reconciliation {
  import opened KernelRecords
  import opened KernelDb

  /** Which synchroniser runs a pass. */
  datatype Variant = SessionManager | Extension

  /**
   * The session manager wraps its per-kernel steps in try/except and logs;
   * the extension lets the exception end the pass.
   */
  predicate Swallows(v: Variant) {
    v == SessionManager
  }

  /*
   * Collaborators. The gateway, the multi-kernel manager and the session
   * table are reduced to the state the passes read and change.
   */

  /** An entry of the kernel gateway's listing: its "id" and "name". */
  datatype RemoteKernel = RemoteKernel(id: string, name: string)

  /** The gateway's answer to the kernel listing request. */
  datatype RemoteListing = Unreachable | Listed(kernels: seq<RemoteKernel>)

  /** The multi-kernel manager. */
  datatype KernelManagerState = KernelManagerState(
    kernels: seq<ManagedKernel>,  // `_kernels`, in insertion order
    pending: set<string>,         // the keys of `_pending_kernels`
    ready: set<string>,           // kernels whose `ready` future is done
    failing: set<string>,         // kernels whose start or shutdown raises
    defaultName: string,          // the kernel name used when none is passed
    usePendingKernels: bool)      // `use_pending_kernels`: a start returns before the kernel is ready

  predicate Running(kms: KernelManagerState, id: string) {
    exists j :: 0 <= j < |kms.kernels| && kms.kernels[j].kernelId == id
  }

  /** `list_kernel_ids()` */
  function KernelIds(kms: KernelManagerState): (ids: seq<string>)
    ensures |ids| == |kms.kernels|
    ensures forall j :: 0 <= j < |ids| ==> ids[j] == kms.kernels[j].kernelId
  {
    seq(|kms.kernels|, j requires 0 <= j < |kms.kernels| => kms.kernels[j].kernelId)
  }

  /** `list(mkm._kernels.keys()) + list(mkm._pending_kernels.keys())`, as a set. */
  function KnownIds(kms: KernelManagerState): (known: set<string>)
    ensures forall id :: id in known <==> Running(kms, id) || id in kms.pending
  {
    (set j | 0 <= j < |kms.kernels| :: kms.kernels[j].kernelId) + kms.pending
  }

  /**
   * `start_kernel(kernel_id=id, ...)`: a kernel id already running is
   * reused, a new one is added with the given (or default) name. A new
   * kernel's start is awaited, so it is ready, unless the manager uses
   * pending kernels, in which case it stays pending.
   */
  function StartKernel(kms: KernelManagerState, id: string, name: Option<string>, remote: Option<string>)
    : (res: Result<KernelManagerState>)
    ensures res.Err? <==> id in kms.failing
    ensures res.Err? ==> res.error == StartFailure
    ensures res.Ok? ==> Running(res.value, id)
    ensures res.Ok? ==> forall k :: Running(res.value, k) <==> Running(kms, k) || k == id
    ensures res.Ok? ==> res.value.failing == kms.failing && res.value.usePendingKernels == kms.usePendingKernels
    ensures res.Ok? ==> forall k :: k in res.value.ready <==>
      k in kms.ready || (k == id && !Running(kms, id) && !kms.usePendingKernels)
    ensures res.Ok? ==> forall k :: k in res.value.pending <==>
      k in kms.pending || (k == id && !Running(kms, id) && kms.usePendingKernels)
  {
    if id in kms.failing then Err(StartFailure)
    else if Running(kms, id) then Ok(kms)
    else
      var started := ManagedKernel(id, if TruthyText(name) then name.value else kms.defaultName, remote);
      var after := if kms.usePendingKernels then kms.(kernels := kms.kernels + [started], pending := kms.pending + {id})
        else kms.(kernels := kms.kernels + [started], ready := kms.ready + {id});
      assert after.kernels[|kms.kernels|].kernelId == id;
      assert forall k :: Running(after, k) <==> Running(kms, k) || k == id by {
        forall k
          ensures Running(after, k) <==> Running(kms, k) || k == id
        {
          if Running(kms, k) {
            var j :| 0 <= j < |kms.kernels| && kms.kernels[j].kernelId == k;
            assert after.kernels[j] == kms.kernels[j];
          }
          if Running(after, k) {
            var j :| 0 <= j < |after.kernels| && after.kernels[j].kernelId == k;
            if j < |kms.kernels| {
              assert after.kernels[j] == kms.kernels[j];
            }
          }
        }
      }
      Ok(after)
  }

  /** The running kernels other than `id`, in order. */
  function WithoutKernel(ks: seq<ManagedKernel>, id: string): (rest: seq<ManagedKernel>)
    ensures forall k :: k in rest <==> k in ks && k.kernelId != id
  {
    if ks == [] then []
    else if ks[0].kernelId == id then WithoutKernel(ks[1..], id)
    else [ks[0]] + WithoutKernel(ks[1..], id)
  }

  /** `shutdown_kernel(id)`: refused for an unknown or failing kernel. */
  function ShutdownKernel(kms: KernelManagerState, id: string): (res: Result<KernelManagerState>)
    ensures res.Err? <==> id in kms.failing || !Running(kms, id)
    ensures res.Err? ==> res.error == ShutdownFailure
    ensures res.Ok? ==> forall k :: Running(res.value, k) <==> Running(kms, k) && k != id
    ensures res.Ok? ==> (res.value.ready == kms.ready - {id} && res.value.failing == kms.failing &&
      res.value.pending == kms.pending - {id})
  {
    if id in kms.failing || !Running(kms, id) then Err(ShutdownFailure)
    else
      var after := kms.(kernels := WithoutKernel(kms.kernels, id), ready := kms.ready - {id}, pending := kms.pending - {id});
      assert forall k :: Running(after, k) <==> Running(kms, k) && k != id by {
        forall k
          ensures Running(after, k) <==> Running(kms, k) && k != id
        {
          if Running(kms, k) && k != id {
            var j :| 0 <= j < |kms.kernels| && kms.kernels[j].kernelId == k;
            assert kms.kernels[j] in after.kernels;
          }
          if Running(after, k) {
            var j :| 0 <= j < |after.kernels| && after.kernels[j].kernelId == k;
            assert after.kernels[j] in kms.kernels;
          }
        }
      }
      Ok(after)
  }

  /** A row of the server's session table. */
  datatype Session = Session(id: string, kernelId: string, path: string)

  /** The sessions left by `DELETE FROM session WHERE kernel_id IN kids`. */
  function WithoutKernels(sessions: seq<Session>, kids: set<string>): (rest: seq<Session>)
    ensures |rest| <= |sessions|
    ensures forall x :: x in rest <==> x in sessions && x.kernelId !in kids
  {
    if sessions == [] then []
    else if sessions[0].kernelId in kids then WithoutKernels(sessions[1..], kids)
    else [sessions[0]] + WithoutKernels(sessions[1..], kids)
  }

  /** The DELETE keeps every other kernel's session as often as it occurs, and no copy of the rest. */
  lemma {:induction false} WithoutKernelsCounts(sessions: seq<Session>, kids: set<string>)
    ensures forall x :: multiset(WithoutKernels(sessions, kids))[x] == if x.kernelId in kids then 0 else multiset(sessions)[x]
  {
    if sessions != [] {
      WithoutKernelsCounts(sessions[1..], kids);
      assert sessions == [sessions[0]] + sessions[1..];
    }
  }

  /** The sessions whose kernel is known to the kernel manager, in order. */
  function WithKnownKernels(sessions: seq<Session>, known: set<string>): (rest: seq<Session>)
    ensures forall x :: x in rest <==> x in sessions && x.kernelId in known
    ensures forall x :: multiset(rest)[x] == if x.kernelId !in known then 0 else multiset(sessions)[x]
  {
    assert sessions != [] ==> sessions == [sessions[0]] + sessions[1..];
    if sessions == [] then []
    else if sessions[0].kernelId in known then [sessions[0]] + WithKnownKernels(sessions[1..], known)
    else WithKnownKernels(sessions[1..], known)
  }

  /** The sessions other than `id`: the DELETE of `delete_session`. */
  function WithoutSession(sessions: seq<Session>, id: string): (rest: seq<Session>)
    ensures |rest| <= |sessions|
    ensures forall x :: x in rest <==> x in sessions && x.id != id
    ensures forall x :: multiset(rest)[x] == if x.id == id then 0 else multiset(sessions)[x]
  {
    assert sessions != [] ==> sessions == [sessions[0]] + sessions[1..];
    if sessions == [] then []
    else if sessions[0].id == id then WithoutSession(sessions[1..], id)
    else [sessions[0]] + WithoutSession(sessions[1..], id)
  }

  /** `get_session(kernel_id=kid)` succeeds. */
  predicate HasSession(sessions: seq<Session>, kid: string) {
    exists j :: 0 <= j < |sessions| && sessions[j].kernelId == kid
  }

  /** The first session row with the given session id. */
  function FindSession(sessions: seq<Session>, id: string): (res: Option<Session>)
    ensures res.None? <==> forall j :: 0 <= j < |sessions| ==> sessions[j].id != id
    ensures res.Some? ==> res.value in sessions && res.value.id == id
  {
    if sessions == [] then None
    else if sessions[0].id == id then Some(sessions[0])
    else FindSession(sessions[1..], id)
  }

  /**
   * The session manager's `delete_session(id)`: its `get_session` fails
   * when the row is gone; otherwise the session's kernel is shut down and
   * the row deleted.
   */
  function DeleteSession(sessions: seq<Session>, kms: KernelManagerState, id: string)
    : (res: Result<(seq<Session>, KernelManagerState)>)
    ensures FindSession(sessions, id).None? ==> res == Err(SessionMissing)
    ensures res.Ok? ==> (FindSession(sessions, id).Some? &&
      ShutdownKernel(kms, FindSession(sessions, id).value.kernelId) == Ok(res.value.1) &&
      res.value.0 == WithoutSession(sessions, id))
    ensures FindSession(sessions, id).Some? ==>
      (res.Ok? <==> ShutdownKernel(kms, FindSession(sessions, id).value.kernelId).Ok?)
    ensures FindSession(sessions, id).Some? && res.Err? ==> res.error == ShutdownFailure
  {
    match FindSession(sessions, id)
    case None => Err(SessionMissing)
    case Some(row) =>
      match ShutdownKernel(kms, row.kernelId)
      case Err(e) => Err(e)
      case Ok(after) => Ok((WithoutSession(sessions, id), after))
  }

  /*
   * Fetch: the records each source contributes, merged into an empty
   * workspace in the order remote, table, managed.
   */

  /** The gateway's record of a remote kernel. */
  function RemoteRecord(v: Variant, k: RemoteKernel): (r: KernelRecord)
    ensures IsSet(r.alive) && !IsSet(r.recorded) && !IsSet(r.managed)
  {
    match v
    case SessionManager => KernelRecord(Some(k.id), Some(k.name), Some(true), None, None, None)
    case Extension => KernelRecord(None, None, Some(true), None, None, Some(k.id))
  }

  function RemoteRecords(v: Variant, ks: seq<RemoteKernel>): (rs: seq<KernelRecord>)
    ensures |rs| == |ks|
    ensures forall j :: 0 <= j < |ks| ==> rs[j] == RemoteRecord(v, ks[j])
  {
    seq(|ks|, j requires 0 <= j < |ks| => RemoteRecord(v, ks[j]))
  }

  /** A record listed from the table, marked recorded. */
  function TableRecord(v: Variant, r: KernelRecord): (t: KernelRecord)
    ensures IsSet(t.recorded) && t.alive == r.alive && t.managed == r.managed && t.kernelId == r.kernelId
  {
    match v
    case SessionManager => r.(recorded := Some(true))
    case Extension => KernelRecord(r.kernelId, None, r.alive, Some(true), r.managed, r.remoteId)
  }

  function TableRecords(v: Variant, listed: seq<KernelRecord>): (rs: seq<KernelRecord>)
    ensures |rs| == |listed|
    ensures forall j :: 0 <= j < |listed| ==> rs[j] == TableRecord(v, listed[j])
  {
    seq(|listed|, j requires 0 <= j < |listed| => TableRecord(v, listed[j]))
  }

  /** A record built from a kernel of the multi-kernel manager. */
  function ManagedRecord(v: Variant, s: Schema, km: ManagedKernel): (r: KernelRecord)
    ensures IsSet(r.managed) && !IsSet(r.alive) && !IsSet(r.recorded) && r.kernelId == Some(km.kernelId)
  {
    match v
    case SessionManager => FromManager(s, km)
    case Extension => KernelRecord(Some(km.kernelId), None, None, None, Some(true), km.remoteId)
  }

  function ManagedRecords(v: Variant, s: Schema, kms: seq<ManagedKernel>): (rs: seq<KernelRecord>)
    ensures |rs| == |kms|
    ensures forall j :: 0 <= j < |kms| ==> rs[j] == ManagedRecord(v, s, kms[j])
  {
    seq(|kms|, j requires 0 <= j < |kms| => ManagedRecord(v, s, kms[j]))
  }

  /**
   * `fetch_kernel_records` into the workspace `start`. `remote` is None when the
   * extension has no gateway client; an unreachable gateway raises before
   * anything is merged; a conflict raised by a merge ends the fetch.
   */
  function Fetched(v: Variant, s: Schema, remote: Option<RemoteListing>, start: seq<KernelRecord>, rows: seq<Row>,
                   kms: KernelManagerState)
    : (r: (seq<KernelRecord>, Outcome))
  {
    var (fromRemote, remoteOutcome) := match remote
      case None => (start, Pass)
      case Some(Unreachable) => (start, Fail(RemoteFailure))
      case Some(Listed(ks)) => InsertAll(s, start, RemoteRecords(v, ks));
    if remoteOutcome.Fail? then (fromRemote, remoteOutcome)
    else
      var (fromTable, tableOutcome) := InsertAll(s, fromRemote, TableRecords(v, ListRecords(s, rows)));
      if tableOutcome.Fail? then (fromTable, tableOutcome)
      else InsertAll(s, fromTable, ManagedRecords(v, s, kms.kernels))
  }

  /*
   * remove_stale_kernels: an index-based walk over the workspace that
   * removes the visited member when it is not alive, so the member after a
   * removed one moves into the visited slot and is not looked at.
   */

  /** The table delete issued for a removed member that was recorded. */
  function KernelIdKey(r: KernelRecord): seq<Keyword> {
    [Keyword(KernelId, r.kernelId)]
  }

  /** The walk from position `i`: (workspace, table rows, outcome). */
  function PruneFrom(v: Variant, s: Schema, rs: seq<KernelRecord>, rows: seq<Row>, i: nat)
    : (r: (seq<KernelRecord>, seq<Row>, Outcome))
    ensures |r.0| <= |rs|
    decreases |rs| - i
  {
    if i >= |rs| then (rs, rows, Pass)
    else if IsSet(rs[i].alive) then PruneFrom(v, s, rs, rows, i + 1)
    else match IndexOfMember(s, rs, i)
      case Err(e) =>
        if Swallows(v) then PruneFrom(v, s, rs, rows, i + 1) else (rs, rows, Fail(e))
      case Ok(j) =>
        var rest := RemoveAt(rs, j);
        if !IsSet(rs[i].recorded) then PruneFrom(v, s, rest, rows, i + 1)
        else match Deleted(s, rows, KernelIdKey(rs[i]))
          case Err(e) =>
            if Swallows(v) then PruneFrom(v, s, rest, rows, i + 1) else (rest, rows, Fail(e))
          case Ok(kept) => PruneFrom(v, s, rest, kept, i + 1)
  }

  /*
   * hydrate_kernel_managers: members that are alive and not managed (and,
   * for the extension, carry a remote_id) get a kernel id if they lack one
   * and are started in the multi-kernel manager.
   */

  predicate ToHydrate(v: Variant, r: KernelRecord) {
    !IsSet(r.managed) && IsSet(r.alive) && (v == Extension ==> TruthyText(r.remoteId))
  }

  /** `uuid.uuid4()` supplies only non-empty texts. */
  ghost predicate UuidSupply(uuids: nat -> string) {
    forall n :: uuids(n) != ""
  }

  /** `k.kernel_id = str(uuid.uuid4())` when the member has no kernel_id. */
  function WithKernelId(r: KernelRecord, id: string): (k: KernelRecord)
    requires id != ""
    ensures TruthyText(k.kernelId)
    ensures k == if TruthyText(r.kernelId) then r else r.(kernelId := Some(id))
  {
    if TruthyText(r.kernelId) then r else r.(kernelId := Some(id))
  }

  /**
   * The name and remote id `start_kernel` is given: the session manager
   * passes every truthy field, the extension only kernel_id and remote_id.
   */
  function StartName(v: Variant, k: KernelRecord): Option<string> {
    if v == SessionManager && TruthyText(k.kernelName) then k.kernelName else None
  }

  function StartRemote(k: KernelRecord): Option<string> {
    if TruthyText(k.remoteId) then k.remoteId else None
  }

  /** The walk from position `i`: (workspace, kernel manager, outcome). */
  function HydrateFrom(v: Variant, s: Schema, rs: seq<KernelRecord>, kms: KernelManagerState,
                       uuids: nat -> string, i: nat)
    : (r: (seq<KernelRecord>, KernelManagerState, Outcome))
    requires UuidSupply(uuids)
    ensures |r.0| == |rs|
    decreases |rs| - i
  {
    if i >= |rs| then (rs, kms, Pass)
    else if !ToHydrate(v, rs[i]) then HydrateFrom(v, s, rs, kms, uuids, i + 1)
    else
      var k := WithKernelId(rs[i], uuids(i));
      match StartKernel(kms, k.kernelId.value, StartName(v, k), StartRemote(k))
      case Err(e) =>
        if Swallows(v) then HydrateFrom(v, s, rs[i := k], kms, uuids, i + 1) else (rs[i := k], kms, Fail(e))
      case Ok(after) => HydrateFrom(v, s, rs[i := k.(managed := Some(true))], after, uuids, i + 1)
  }

  /*
   * record_kernels: members not yet recorded, fully identified and alive
   * are saved to the table and marked recorded.
   */

  predicate ToRecord(s: Schema, r: KernelRecord) {
    !IsSet(r.recorded) && FullyIdentified(s, r) && IsSet(r.alive)
  }

  /** The walk from position `i`: (workspace, table rows, outcome). */
  function RecordFrom(v: Variant, s: Schema, rs: seq<KernelRecord>, rows: seq<Row>, i: nat)
    : (r: (seq<KernelRecord>, seq<Row>, Outcome))
    ensures |r.0| == |rs|
    decreases |rs| - i
  {
    if i >= |rs| then (rs, rows, Pass)
    else if !ToRecord(s, rs[i]) then RecordFrom(v, s, rs, rows, i + 1)
    else match SavedRow(s, rs[i])
      case Err(e) => if Swallows(v) then RecordFrom(v, s, rs, rows, i + 1) else (rs, rows, Fail(e))
      case Ok(row) => RecordFrom(v, s, rs[i := rs[i].(recorded := Some(true))], rows + [row], i + 1)
  }

  /**
   * A member chosen for recording has a truthy kernel_id, which is a column,
   * so `save` always has something to write.
   */
  lemma ToRecordSaves(s: Schema, r: KernelRecord)
    requires ToRecord(s, r)
    ensures SavedRow(s, r).Ok? && SavedRow(s, r).value[KernelId] == r.kernelId.value
  {
    assert KernelId in IdentifierFields(s);
    assert Active(r, KernelId);
  }

  /** The state `sync_kernels` leaves behind. */
  datatype KernelSync = KernelSync(
    workspace: seq<KernelRecord>,
    rows: seq<Row>,
    kernels: KernelManagerState,
    outcome: Outcome)

  /** `sync_kernels`: reset, fetch, prune, hydrate, record; an exception ends the pass. */
  function SyncKernels(v: Variant, s: Schema, remote: Option<RemoteListing>, rows: seq<Row>,
                       kms: KernelManagerState, uuids: nat -> string)
    : (r: KernelSync)
    requires UuidSupply(uuids)
  {
    var (fetched, fetchOutcome) := Fetched(v, s, remote, [], rows, kms);
    if fetchOutcome.Fail? then KernelSync(fetched, rows, kms, fetchOutcome)
    else
      var (pruned, prunedRows, pruneOutcome) := PruneFrom(v, s, fetched, rows, 0);
      if pruneOutcome.Fail? then KernelSync(pruned, prunedRows, kms, pruneOutcome)
      else
        var (hydrated, started, hydrateOutcome) := HydrateFrom(v, s, pruned, kms, uuids, 0);
        if hydrateOutcome.Fail? then KernelSync(hydrated, prunedRows, started, hydrateOutcome)
        else
          var (recorded, recordedRows, recordOutcome) := RecordFrom(v, s, hydrated, prunedRows, 0);
          KernelSync(recorded, recordedRows, started, recordOutcome)
  }

  /*
   * Session passes.
   */

  /**
   * One listed session's turn in the extension's `delete_stale_sessions`:
   * when its kernel is unknown the rows of that kernel go, then when its
   * path does not exist the session is deleted through `delete_session`.
   */
  function SweepSession(x: Session, sessions: seq<Session>, kms: KernelManagerState, paths: set<string>)
    : (r: (seq<Session>, KernelManagerState, Outcome))
  {
    var cleared := if x.kernelId !in KnownIds(kms) then WithoutKernels(sessions, {x.kernelId}) else sessions;
    if x.path in paths then (cleared, kms, Pass)
    else match DeleteSession(cleared, kms, x.id)
      case Err(e) => (cleared, kms, Fail(e))
      case Ok((remaining, after)) => (remaining, after, Pass)
  }

  /** The extension's `delete_stale_sessions` over the listed sessions from position `i`; a failure ends it. */
  function DeleteStaleFrom(listed: seq<Session>, i: nat, sessions: seq<Session>, kms: KernelManagerState,
                           paths: set<string>)
    : (r: (seq<Session>, KernelManagerState, Outcome))
    decreases |listed| - i
  {
    if i >= |listed| then (sessions, kms, Pass)
    else
      var (swept, after, outcome) := SweepSession(listed[i], sessions, kms, paths);
      if outcome.Fail? then (swept, after, outcome) else DeleteStaleFrom(listed, i + 1, swept, after, paths)
  }

  /** A kernel `shutdown_kernels_without_sessions` tries to shut down. */
  predicate Unclaimed(kms: KernelManagerState, sessions: seq<Session>, pendingSessions: set<string>, kid: string) {
    !HasSession(sessions, kid) && kid in kms.ready && kid !in pendingSessions
  }

  /** `shutdown_kernels_without_sessions` over the listed kernel ids from position `i`. */
  function ShutdownFrom(ids: seq<string>, i: nat, kms: KernelManagerState, sessions: seq<Session>,
                        pendingSessions: set<string>)
    : (r: KernelManagerState)
    decreases |ids| - i
  {
    if i >= |ids| then kms
    else if !Unclaimed(kms, sessions, pendingSessions, ids[i]) then ShutdownFrom(ids, i + 1, kms, sessions, pendingSessions)
    else match ShutdownKernel(kms, ids[i])
      case Err(_) => ShutdownFrom(ids, i + 1, kms, sessions, pendingSessions)
      case Ok(after) => ShutdownFrom(ids, i + 1, after, sessions, pendingSessions)
  }
}
