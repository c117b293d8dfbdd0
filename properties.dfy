/*
 * What the reconciliation passes guarantee, stated over the functions of
 * reconciliation.dfy (and so over the classes proved equal to them).
 */
module Properties {
  import opened KernelRecords
  import opened KernelDb
  import opened Reconciliation

  /*
   * record_kernels
   */

  /**
   * The rows `save` writes for the members of `xs` chosen for recording, in
   * order: one per chosen member, and nothing else.
   */
  function ChosenRows(s: Schema, xs: seq<KernelRecord>): (rows: seq<Row>)
    ensures |rows| <= |xs|
    ensures forall row :: row in rows ==> exists x :: x in xs && ToRecord(s, x) && SavedRow(s, x) == Ok(row)
    ensures forall x :: x in xs && ToRecord(s, x) ==> SavedRow(s, x).Ok? && SavedRow(s, x).value in rows
    decreases |xs|
  {
    if xs == [] then []
    else
      assert forall x :: x in xs <==> x == xs[0] || x in xs[1..];
      if ToRecord(s, xs[0]) then
        ToRecordSaves(s, xs[0]);
        [SavedRow(s, xs[0]).value] + ChosenRows(s, xs[1..])
      else ChosenRows(s, xs[1..])
  }

  /** The members of `rs` from position `i` on, empty past the end. */
  function From(rs: seq<KernelRecord>, i: nat): seq<KernelRecord> {
    if i <= |rs| then rs[i..] else []
  }

  /**
   * `r` is what recording from position `i` leaves: no failure, exactly the
   * chosen members from `i` on marked recorded, and their saved rows
   * appended in order.
   */
  predicate MarksChosen(s: Schema, rs: seq<KernelRecord>, rows: seq<Row>, i: nat,
                        r: (seq<KernelRecord>, seq<Row>, Outcome)) {
    && r.2 == Pass
    && |r.0| == |rs|
    && (forall j :: 0 <= j < |rs| ==>
          r.0[j] == if i <= j && ToRecord(s, rs[j]) then rs[j].(recorded := Some(true)) else rs[j])
    && r.1 == rows + ChosenRows(s, From(rs, i))
  }

  /**
   * Recording never fails: every member chosen is marked recorded, nothing
   * else changes, and the table gains exactly the saved rows of the chosen
   * members, in workspace order, after the rows it had.
   */
  lemma RecordMarksChosen(v: Variant, s: Schema, rs: seq<KernelRecord>, rows: seq<Row>, i: nat)
    ensures var r := RecordFrom(v, s, rs, rows, i);
      && r.2 == Pass
      && (forall j :: 0 <= j < |rs| ==>
            r.0[j] == if i <= j && ToRecord(s, rs[j]) then rs[j].(recorded := Some(true)) else rs[j])
      && r.1 == rows + ChosenRows(s, From(rs, i))
  {
    MarksChosenFrom(v, s, rs, rows, i);
  }

  lemma {:induction false} MarksChosenFrom(v: Variant, s: Schema, rs: seq<KernelRecord>, rows: seq<Row>, i: nat)
    ensures MarksChosen(s, rs, rows, i, RecordFrom(v, s, rs, rows, i))
    decreases |rs| - i
  {
    if i < |rs| {
      if !ToRecord(s, rs[i]) {
        MarksChosenFrom(v, s, rs, rows, i + 1);
        ChosenRowsStep(s, rs, i);
      } else {
        ToRecordSaves(s, rs[i]);
        var rs' := rs[i := rs[i].(recorded := Some(true))];
        var rows' := rows + [SavedRow(s, rs[i]).value];
        MarksChosenFrom(v, s, rs', rows', i + 1);
        assert RecordFrom(v, s, rs, rows, i) == RecordFrom(v, s, rs', rows', i + 1);
        RecordSaveStep(s, rs, rows, i, RecordFrom(v, s, rs', rows', i + 1));
      }
    } else {
      assert ChosenRows(s, From(rs, i)) == [];
    }
  }

  /** A chosen member is saved and marked, and the rest of the walk goes on from there. */
  lemma RecordSaveStep(s: Schema, rs: seq<KernelRecord>, rows: seq<Row>, i: nat, r: (seq<KernelRecord>, seq<Row>, Outcome))
    requires i < |rs| && ToRecord(s, rs[i]) && SavedRow(s, rs[i]).Ok?
    requires MarksChosen(s, rs[i := rs[i].(recorded := Some(true))], rows + [SavedRow(s, rs[i]).value], i + 1, r)
    ensures MarksChosen(s, rs, rows, i, r)
  {
    var rs' := rs[i := rs[i].(recorded := Some(true))];
    forall j | 0 <= j < |rs|
      ensures r.0[j] == if i <= j && ToRecord(s, rs[j]) then rs[j].(recorded := Some(true)) else rs[j]
    {
      if j != i {
        assert rs'[j] == rs[j];
      }
    }
    RecordSaveRows(s, rs, rows, i, r.1);
  }

  /** The rows after saving member `i` are the rows before it plus the chosen rows from `i` on. */
  lemma RecordSaveRows(s: Schema, rs: seq<KernelRecord>, rows: seq<Row>, i: nat, after: seq<Row>)
    requires i < |rs| && ToRecord(s, rs[i]) && SavedRow(s, rs[i]).Ok?
    requires after == rows + [SavedRow(s, rs[i]).value] + ChosenRows(s, From(rs[i := rs[i].(recorded := Some(true))], i + 1))
    ensures after == rows + ChosenRows(s, From(rs, i))
  {
    FromUpdated(rs, i, rs[i].(recorded := Some(true)));
    ChosenRowsStep(s, rs, i);
    AppendAssociates(rows, [SavedRow(s, rs[i]).value], ChosenRows(s, From(rs, i + 1)));
  }

  /** Changing member `i` leaves the members after it alone. */
  lemma FromUpdated(rs: seq<KernelRecord>, i: nat, x: KernelRecord)
    requires i < |rs|
    ensures From(rs[i := x], i + 1) == From(rs, i + 1)
  {
    assert rs[i := x][i + 1..] == rs[i + 1..];
  }

  lemma AppendAssociates(a: seq<Row>, b: seq<Row>, c: seq<Row>)
    ensures a + b + c == a + (b + c)
  {
  }

  /** The chosen rows from position `i`: member `i`'s row when it is chosen, then the rest. */
  lemma ChosenRowsStep(s: Schema, rs: seq<KernelRecord>, i: nat)
    requires i < |rs|
    ensures ToRecord(s, rs[i]) ==>
      SavedRow(s, rs[i]).Ok? && ChosenRows(s, From(rs, i)) == [SavedRow(s, rs[i]).value] + ChosenRows(s, From(rs, i + 1))
    ensures !ToRecord(s, rs[i]) ==> ChosenRows(s, From(rs, i)) == ChosenRows(s, From(rs, i + 1))
  {
    assert rs[i..][0] == rs[i] && rs[i..][1..] == rs[i + 1..];
    if ToRecord(s, rs[i]) {
      ToRecordSaves(s, rs[i]);
    }
  }

  /*
   * hydrate_kernel_managers
   */

  /**
   * The kernel manager after hydrating from position `i`: the failing set
   * and the pending-kernels setting are kept, running kernels stay, every
   * new one is the kernel of a chosen member, and it is ready, or pending
   * when the manager uses pending kernels.
   */
  ghost predicate ManagerGrows(v: Variant, rs: seq<KernelRecord>, kms: KernelManagerState, i: nat,
                         ws: seq<KernelRecord>, after: KernelManagerState)
    requires |ws| == |rs|
  {
    && after.failing == kms.failing && after.usePendingKernels == kms.usePendingKernels
    && (forall k :: Running(kms, k) ==> Running(after, k))
    && (forall k :: Running(after, k) && !Running(kms, k) ==>
          exists j :: i <= j < |rs| && ToHydrate(v, rs[j]) && ws[j].kernelId == Some(k))
    && (forall k :: k in after.ready <==>
          k in kms.ready || (Running(after, k) && !Running(kms, k) && !kms.usePendingKernels))
    && (forall k :: k in after.pending <==>
          k in kms.pending || (Running(after, k) && !Running(kms, k) && kms.usePendingKernels))
  }

  /** Chosen member `j` after a successful start of its kernel, or after a start that failed. */
  ghost predicate MemberHydrated(r: KernelRecord, id: string, failing: set<string>, after: KernelManagerState, w: KernelRecord)
    requires id != ""
  {
    && w.kernelId == WithKernelId(r, id).kernelId
    && w == r.(kernelId := w.kernelId, managed := w.managed)
    && (IsSet(w.managed) <==> w.kernelId.value !in failing)
    && (IsSet(w.managed) ==> Running(after, w.kernelId.value))
  }

  /** The workspace after hydrating from position `i`. */
  ghost predicate MembersHydrated(v: Variant, rs: seq<KernelRecord>, kms: KernelManagerState, uuids: nat -> string, i: nat,
                            r: (seq<KernelRecord>, KernelManagerState, Outcome))
    requires UuidSupply(uuids) && |r.0| == |rs|
  {
    && (r.2.Fail? ==> !Swallows(v) && r.2.error == StartFailure)
    && (forall j :: 0 <= j < |rs| && (j < i || !ToHydrate(v, rs[j])) ==> r.0[j] == rs[j])
    && (r.2 == Pass ==> forall j :: i <= j < |rs| && ToHydrate(v, rs[j]) ==>
          MemberHydrated(rs[j], uuids(j), kms.failing, r.1, r.0[j]))
  }

  /**
   * Hydrating only starts kernels: the running kernels grow by kernels of
   * chosen members, each new one ready (or pending, when the manager uses
   * pending kernels), and the failing set is unchanged. Members not chosen
   * are untouched. On success every chosen member has a kernel id (its own
   * or a fresh uuid), nothing else of it changes but `managed`, and it is
   * marked managed exactly when its start succeeded, that is when its
   * kernel is not one that fails to start; a managed member's kernel runs.
   * In the extension a failed start ends the pass.
   */
  lemma HydrateStartsChosen(v: Variant, s: Schema, rs: seq<KernelRecord>, kms: KernelManagerState,
                            uuids: nat -> string, i: nat)
    requires UuidSupply(uuids)
    ensures var (ws, after, outcome) := HydrateFrom(v, s, rs, kms, uuids, i);
      && after.failing == kms.failing && after.usePendingKernels == kms.usePendingKernels
      && (forall k :: Running(kms, k) ==> Running(after, k))
      && (forall k :: Running(after, k) && !Running(kms, k) ==>
            exists j :: i <= j < |rs| && ToHydrate(v, rs[j]) && ws[j].kernelId == Some(k))
      && (forall k :: k in after.ready <==>
            k in kms.ready || (Running(after, k) && !Running(kms, k) && !kms.usePendingKernels))
      && (forall k :: k in after.pending <==>
            k in kms.pending || (Running(after, k) && !Running(kms, k) && kms.usePendingKernels))
      && (outcome.Fail? ==> !Swallows(v) && outcome.error == StartFailure)
      && (forall j :: 0 <= j < |rs| && (j < i || !ToHydrate(v, rs[j])) ==> ws[j] == rs[j])
      && (outcome == Pass ==> forall j :: i <= j < |rs| && ToHydrate(v, rs[j]) ==>
            && ws[j].kernelId == WithKernelId(rs[j], uuids(j)).kernelId
            && ws[j] == rs[j].(kernelId := ws[j].kernelId, managed := ws[j].managed)
            && (IsSet(ws[j].managed) <==> ws[j].kernelId.value !in kms.failing)
            && (IsSet(ws[j].managed) ==> Running(after, ws[j].kernelId.value)))
  {
    HydratesChosenFrom(v, s, rs, kms, uuids, i);
  }

  lemma {:induction false} HydratesChosenFrom(v: Variant, s: Schema, rs: seq<KernelRecord>, kms: KernelManagerState,
                                             uuids: nat -> string, i: nat)
    requires UuidSupply(uuids)
    ensures var r := HydrateFrom(v, s, rs, kms, uuids, i);
      ManagerGrows(v, rs, kms, i, r.0, r.1) && MembersHydrated(v, rs, kms, uuids, i, r)
    decreases |rs| - i
  {
    if i < |rs| {
      if !ToHydrate(v, rs[i]) {
        HydratesChosenFrom(v, s, rs, kms, uuids, i + 1);
        HydrateSkipStep(v, rs, kms, uuids, i, HydrateFrom(v, s, rs, kms, uuids, i + 1));
      } else {
        var k := WithKernelId(rs[i], uuids(i));
        match StartKernel(kms, k.kernelId.value, StartName(v, k), StartRemote(k))
        case Err(e) =>
          if Swallows(v) {
            HydratesChosenFrom(v, s, rs[i := k], kms, uuids, i + 1);
            HydrateFailStep(v, rs, kms, uuids, i, HydrateFrom(v, s, rs[i := k], kms, uuids, i + 1));
          } else {
            assert forall j :: 0 <= j < |rs| && j != i ==> rs[i := k][j] == rs[j];
          }
        case Ok(started) =>
          var rs' := rs[i := k.(managed := Some(true))];
          HydratesChosenFrom(v, s, rs', started, uuids, i + 1);
          HydrateStartStep(v, rs, kms, started, uuids, i, HydrateFrom(v, s, rs', started, uuids, i + 1));
      }
    }
  }

  /** A member not chosen for hydrating is passed over. */
  lemma HydrateSkipStep(v: Variant, rs: seq<KernelRecord>, kms: KernelManagerState, uuids: nat -> string, i: nat,
                        r: (seq<KernelRecord>, KernelManagerState, Outcome))
    requires UuidSupply(uuids) && i < |rs| && !ToHydrate(v, rs[i]) && |r.0| == |rs|
    requires ManagerGrows(v, rs, kms, i + 1, r.0, r.1) && MembersHydrated(v, rs, kms, uuids, i + 1, r)
    ensures ManagerGrows(v, rs, kms, i, r.0, r.1) && MembersHydrated(v, rs, kms, uuids, i, r)
  {
  }

  /** A chosen member whose start fails (in the session manager) keeps its new kernel id and stays unmanaged. */
  lemma HydrateFailStep(v: Variant, rs: seq<KernelRecord>, kms: KernelManagerState, uuids: nat -> string, i: nat,
                        r: (seq<KernelRecord>, KernelManagerState, Outcome))
    requires UuidSupply(uuids) && i < |rs| && ToHydrate(v, rs[i]) && |r.0| == |rs|
    requires WithKernelId(rs[i], uuids(i)).kernelId.value in kms.failing
    requires var rs' := rs[i := WithKernelId(rs[i], uuids(i))];
      ManagerGrows(v, rs', kms, i + 1, r.0, r.1) && MembersHydrated(v, rs', kms, uuids, i + 1, r)
    ensures ManagerGrows(v, rs, kms, i, r.0, r.1) && MembersHydrated(v, rs, kms, uuids, i, r)
  {
    var rs' := rs[i := WithKernelId(rs[i], uuids(i))];
    assert forall j :: 0 <= j < |rs| && j != i ==> rs'[j] == rs[j];
    assert r.0[i] == rs'[i];
  }

  /** A chosen member whose start succeeds is managed, and its kernel runs from then on. */
  lemma HydrateStartStep(v: Variant, rs: seq<KernelRecord>, kms: KernelManagerState, started: KernelManagerState,
                         uuids: nat -> string, i: nat, r: (seq<KernelRecord>, KernelManagerState, Outcome))
    requires UuidSupply(uuids) && i < |rs| && ToHydrate(v, rs[i]) && |r.0| == |rs|
    requires var k := WithKernelId(rs[i], uuids(i));
      StartKernel(kms, k.kernelId.value, StartName(v, k), StartRemote(k)) == Ok(started)
    requires var rs' := rs[i := WithKernelId(rs[i], uuids(i)).(managed := Some(true))];
      ManagerGrows(v, rs', started, i + 1, r.0, r.1) && MembersHydrated(v, rs', started, uuids, i + 1, r)
    ensures ManagerGrows(v, rs, kms, i, r.0, r.1) && MembersHydrated(v, rs, kms, uuids, i, r)
  {
    var k := WithKernelId(rs[i], uuids(i));
    var rs' := rs[i := k.(managed := Some(true))];
    assert forall j :: 0 <= j < |rs| && j != i ==> rs'[j] == rs[j];
    assert r.0[i] == rs'[i];
    assert Running(started, k.kernelId.value);
  }

  /*
   * shutdown_kernels_without_sessions
   */

  /**
   * A kernel is still running afterwards exactly when it was running and
   * was not one of the listed kernels that has no session, is ready, is not
   * being started for a session, and shuts down cleanly.
   */
  lemma {:induction false} ShutdownStopsUnclaimed(ids: seq<string>, i: nat, kms: KernelManagerState,
                                                 sessions: seq<Session>, pendingSessions: set<string>, k: string)
    requires i <= |ids|
    ensures ShutdownFrom(ids, i, kms, sessions, pendingSessions).failing == kms.failing
    ensures Running(ShutdownFrom(ids, i, kms, sessions, pendingSessions), k) <==>
      Running(kms, k) && !(k in ids[i..] && Unclaimed(kms, sessions, pendingSessions, k) && k !in kms.failing)
    decreases |ids| - i
  {
    if i < |ids| {
      assert forall x :: x in ids[i..] <==> x == ids[i] || x in ids[i + 1..] by {
        assert ids[i..] == [ids[i]] + ids[i + 1..];
      }
      if !Unclaimed(kms, sessions, pendingSessions, ids[i]) {
        ShutdownStopsUnclaimed(ids, i + 1, kms, sessions, pendingSessions, k);
      } else {
        match ShutdownKernel(kms, ids[i])
        case Err(_) =>
          ShutdownStopsUnclaimed(ids, i + 1, kms, sessions, pendingSessions, k);
        case Ok(after) =>
          ShutdownStopsUnclaimed(ids, i + 1, after, sessions, pendingSessions, k);
          assert k != ids[i] ==> (Unclaimed(after, sessions, pendingSessions, k) <==> Unclaimed(kms, sessions, pendingSessions, k));
      }
    }
  }

  /*
   * The extension's delete_stale_sessions
   */

  /** Shutting kernels down only makes the set of known kernel ids smaller. */
  lemma DeleteSessionForgets(sessions: seq<Session>, kms: KernelManagerState, id: string)
    requires DeleteSession(sessions, kms, id).Ok?
    ensures KnownIds(DeleteSession(sessions, kms, id).value.1) <= KnownIds(kms)
  {
  }

  /** One step of the walk: the rows of an unknown kernel are dropped. */
  lemma ClearedStep(x: Session, sessions: seq<Session>, kms: KernelManagerState)
    ensures var cleared := if x.kernelId !in KnownIds(kms) then WithoutKernels(sessions, {x.kernelId}) else sessions;
      forall y :: y in cleared ==> y in sessions && (y.kernelId == x.kernelId ==> x.kernelId in KnownIds(kms))
  {
  }

  /** `delete_session` keeps only other sessions, of the same table. */
  lemma DeletedStep(sessions: seq<Session>, kms: KernelManagerState, id: string)
    requires DeleteSession(sessions, kms, id).Ok?
    ensures forall y :: y in DeleteSession(sessions, kms, id).value.0 ==> y in sessions && y.id != id
  {
  }

  /**
   * After the walk has visited `listed[j]`, the surviving session `y` is not
   * the listed session when its document is missing, and its kernel is
   * known when it is the listed session's kernel.
   */
  predicate SweptBy(listed: seq<Session>, j: nat, paths: set<string>, known: set<string>, y: Session)
    requires j < |listed|
  {
    && (listed[j].path !in paths ==> y.id != listed[j].id)
    && (y.kernelId == listed[j].kernelId ==> y.kernelId in known)
  }

  /**
   * Only sessions are removed and no kernel becomes known; on success every
   * surviving session has been swept by every listed session from `i` on,
   * against the kernels known at the start.
   */
  lemma {:induction false} DeleteStaleClears(listed: seq<Session>, i: nat, sessions: seq<Session>,
                                            kms: KernelManagerState, paths: set<string>)
    ensures var r := DeleteStaleFrom(listed, i, sessions, kms, paths);
      && KnownIds(r.1) <= KnownIds(kms)
      && (forall y :: y in r.0 ==> y in sessions)
      && (r.2 == Pass ==> forall y, j :: y in r.0 && i <= j < |listed| ==> SweptBy(listed, j, paths, KnownIds(kms), y))
    decreases |listed| - i
  {
    if i < |listed| {
      var x := listed[i];
      var cleared := if x.kernelId !in KnownIds(kms) then WithoutKernels(sessions, {x.kernelId}) else sessions;
      ClearedStep(x, sessions, kms);
      var r := DeleteStaleFrom(listed, i, sessions, kms, paths);
      if x.path in paths {
        DeleteStaleClears(listed, i + 1, cleared, kms, paths);
        assert r == DeleteStaleFrom(listed, i + 1, cleared, kms, paths);
        if r.2 == Pass {
          forall y, j | y in r.0 && i <= j < |listed|
            ensures SweptBy(listed, j, paths, KnownIds(kms), y)
          {
            if j == i {
              assert y in cleared;
            }
          }
        }
      } else {
        var deleted := DeleteSession(cleared, kms, x.id);
        if deleted.Ok? {
          var (remaining, after) := deleted.value;
          DeleteSessionForgets(cleared, kms, x.id);
          DeletedStep(cleared, kms, x.id);
          DeleteStaleClears(listed, i + 1, remaining, after, paths);
          assert r == DeleteStaleFrom(listed, i + 1, remaining, after, paths);
          if r.2 == Pass {
            forall y, j | y in r.0 && i <= j < |listed|
              ensures SweptBy(listed, j, paths, KnownIds(kms), y)
            {
              assert y in remaining && y in cleared;
              if j > i {
                assert SweptBy(listed, j, paths, KnownIds(after), y);
              }
            }
          }
        }
      }
    }
  }

  /*
   * remove_stale_kernels
   */

  /** No member compares equal to (or conflicts with) a later member. */
  predicate Distinct(s: Schema, rs: seq<KernelRecord>) {
    forall a, b :: 0 <= a < b < |rs| ==> Equivalence(s, rs[a], rs[b]) == Ok(false)
  }

  /**
   * What the walk leaves when nothing is ever found earlier in the list: a
   * member that is alive stays, a member that is not is dropped and the
   * member after it stays without being looked at.
   */
  function DeadSkip(xs: seq<KernelRecord>): (kept: seq<KernelRecord>)
    decreases |xs|
  {
    if xs == [] then []
    else if IsSet(xs[0].alive) then [xs[0]] + DeadSkip(xs[1..])
    else if |xs| == 1 then []
    else [xs[1]] + DeadSkip(xs[2..])
  }

  /** DeadSkip keeps every member that is alive and adds none. */
  lemma {:induction false} DeadSkipKeepsAlive(xs: seq<KernelRecord>)
    ensures forall r :: r in DeadSkip(xs) ==> r in xs
    ensures forall r :: r in xs && IsSet(r.alive) ==> r in DeadSkip(xs)
    decreases |xs|
  {
    if xs != [] {
      if IsSet(xs[0].alive) || |xs| == 1 {
        DeadSkipKeepsAlive(xs[1..]);
        assert forall r :: r in xs <==> r == xs[0] || r in xs[1..];
      } else {
        DeadSkipKeepsAlive(xs[2..]);
        assert forall r :: r in xs <==> r == xs[0] || r == xs[1] || r in xs[2..] by {
          assert xs == [xs[0], xs[1]] + xs[2..];
        }
      }
    }
  }

  /** In a distinct list, `remove(k)` finds `k` itself. */
  lemma DistinctFindsItself(s: Schema, rs: seq<KernelRecord>, i: nat)
    requires Distinct(s, rs) && i < |rs|
    ensures IndexOfMember(s, rs, i) == Ok(i)
  {
    var cs := Comparisons(s, rs[..i], rs[i], false);
    FirstEqualSkips(cs, 0, i);
  }

  lemma DistinctRemoveAt(s: Schema, rs: seq<KernelRecord>, i: nat)
    requires Distinct(s, rs) && i < |rs|
    ensures Distinct(s, RemoveAt(rs, i))
  {
    var rest := RemoveAt(rs, i);
    forall a, b | 0 <= a < b < |rest|
      ensures Equivalence(s, rest[a], rest[b]) == Ok(false)
    {
      var a' := if a < i then a else a + 1;
      var b' := if b < i then b else b + 1;
      assert rest[a] == rs[a'] && rest[b] == rs[b'];
    }
  }

  /** A single kernel_id keyword always makes a valid delete. */
  lemma KernelIdKeyDeletes(s: Schema, rows: seq<Row>, r: KernelRecord)
    ensures Deleted(s, rows, KernelIdKey(r)).Ok?
  {
    assert KernelIdKey(r)[0].name == KernelId;
  }

  /** The table after the walk removes the member `r`. */
  function RowsAfterRemoving(s: Schema, rows: seq<Row>, r: KernelRecord): seq<Row> {
    if IsSet(r.recorded) && Deleted(s, rows, KernelIdKey(r)).Ok? then Deleted(s, rows, KernelIdKey(r)).value else rows
  }

  /** On a distinct workspace a member that is not alive is removed from its own position. */
  lemma DistinctDeadStep(v: Variant, s: Schema, rs: seq<KernelRecord>, rows: seq<Row>, i: nat)
    requires Distinct(s, rs) && i < |rs| && !IsSet(rs[i].alive)
    ensures PruneFrom(v, s, rs, rows, i) == PruneFrom(v, s, RemoveAt(rs, i), RowsAfterRemoving(s, rows, rs[i]), i + 1)
  {
    DistinctFindsItself(s, rs, i);
    KernelIdKeyDeletes(s, rows, rs[i]);
  }

  lemma AliveSkipStep(rs: seq<KernelRecord>, i: nat)
    requires i < |rs| && IsSet(rs[i].alive)
    ensures rs[..i + 1] + DeadSkip(rs[i + 1..]) == rs[..i] + DeadSkip(rs[i..])
  {
    assert rs[i..][1..] == rs[i + 1..];
    assert rs[..i + 1] == rs[..i] + [rs[i]];
  }

  lemma DeadSkipStep(rs: seq<KernelRecord>, i: nat)
    requires i + 1 < |rs| && !IsSet(rs[i].alive)
    ensures RemoveAt(rs, i)[..i + 1] + DeadSkip(RemoveAt(rs, i)[i + 1..]) == rs[..i] + DeadSkip(rs[i..])
  {
    var rest := RemoveAt(rs, i);
    assert rest[..i + 1] == rs[..i] + [rs[i + 1]];
    assert rest[i + 1..] == rs[i + 2..];
    assert rs[i..][1] == rs[i + 1] && rs[i..][2..] == rs[i + 2..];
  }

  /**
   * On a distinct workspace the walk never fails and leaves DeadSkip of the
   * members it has yet to visit.
   */
  lemma {:induction false} DistinctPrune(v: Variant, s: Schema, rs: seq<KernelRecord>, rows: seq<Row>, i: nat)
    requires Distinct(s, rs) && i <= |rs|
    ensures PruneFrom(v, s, rs, rows, i).0 == rs[..i] + DeadSkip(rs[i..])
    ensures PruneFrom(v, s, rs, rows, i).2 == Pass
    decreases |rs| - i
  {
    if i == |rs| {
      assert rs[..i] == rs;
    } else if IsSet(rs[i].alive) {
      DistinctPrune(v, s, rs, rows, i + 1);
      AliveSkipStep(rs, i);
    } else {
      DistinctDeadStep(v, s, rs, rows, i);
      DistinctRemoveAt(s, rs, i);
      var rest := RemoveAt(rs, i);
      if i + 1 == |rs| {
        assert rs[i..] == [rs[i]];
        assert rest == rs[..i];
      } else {
        DistinctPrune(v, s, rest, RowsAfterRemoving(s, rows, rs[i]), i + 1);
        DeadSkipStep(rs, i);
      }
    }
  }

  /**
   * On a distinct workspace the walk deletes every table row of each
   * recorded member it removes: no row left holds that member's kernel_id.
   * With `PruneOnlyRemoves` (every deleted row is such a row) this fixes
   * the rows the prune deletes.
   */
  lemma {:induction false} DistinctPruneDeletesRows(v: Variant, s: Schema, rs: seq<KernelRecord>, rows: seq<Row>, i: nat)
    requires Distinct(s, rs) && i <= |rs|
    ensures var r := PruneFrom(v, s, rs, rows, i);
      forall j, row :: i <= j < |rs| && IsSet(rs[j].recorded) && rs[j] !in r.0 && row in r.1 ==>
        !Matches(row, Keyword(KernelId, rs[j].kernelId))
    decreases |rs| - i, 1
  {
    if i < |rs| {
      if IsSet(rs[i].alive) {
        DistinctPruneDeletesRows(v, s, rs, rows, i + 1);
        DistinctPrune(v, s, rs, rows, i + 1);
        assert rs[i] == rs[..i + 1][i];
      } else {
        DistinctDeadStep(v, s, rs, rows, i);
        RemovedRowsGone(s, rows, rs[i]);
        if i + 1 < |rs| {
          DeadStepDeletesRows(v, s, rs, rows, i);
        }
      }
    }
  }

  /** The removal case: member `i` takes its rows with it, member `i + 1` is kept, the rest is the walk over the shorter list. */
  lemma DeadStepDeletesRows(v: Variant, s: Schema, rs: seq<KernelRecord>, rows: seq<Row>, i: nat)
    requires Distinct(s, rs) && i + 1 < |rs| && !IsSet(rs[i].alive)
    ensures var r := PruneFrom(v, s, RemoveAt(rs, i), RowsAfterRemoving(s, rows, rs[i]), i + 1);
      && (forall row :: row in r.1 ==> row in RowsAfterRemoving(s, rows, rs[i]))
      && rs[i + 1] in r.0
      && forall j, row :: i + 2 <= j < |rs| && IsSet(rs[j].recorded) && rs[j] !in r.0 && row in r.1 ==>
           !Matches(row, Keyword(KernelId, rs[j].kernelId))
    decreases |rs| - i, 0
  {
    var rest := RemoveAt(rs, i);
    var next := RowsAfterRemoving(s, rows, rs[i]);
    DistinctRemoveAt(s, rs, i);
    DistinctPruneDeletesRows(v, s, rest, next, i + 1);
    DistinctPrune(v, s, rest, next, i + 1);
    PruneOnlyRemoves(v, s, rest, next, i + 1);
    assert rs[i + 1] == rest[..i + 1][i];
    assert forall j :: i + 2 <= j < |rs| ==> rs[j] == rest[j - 1];
  }

  /** Removing a recorded member deletes every row holding its kernel_id. */
  lemma RemovedRowsGone(s: Schema, rows: seq<Row>, x: KernelRecord)
    ensures IsSet(x.recorded) ==> forall row :: row in RowsAfterRemoving(s, rows, x) ==>
      !Matches(row, Keyword(KernelId, x.kernelId))
  {
    KernelIdKeyDeletes(s, rows, x);
    assert Selector(s, KernelIdKey(x)) == Ok(Keyword(KernelId, x.kernelId));
  }

  /**
   * Under the plain schema only kernel_id identifies: two records compare
   * equal exactly when they carry the same truthy kernel_id, and never
   * conflict.
   */
  lemma PlainEquivalence(a: KernelRecord, b: KernelRecord)
    ensures Equivalence(Plain, a, b) == Ok(TruthyText(a.kernelId) && a.kernelId == b.kernelId)
  {
    assert forall f :: f in IdentifierFields(Plain) <==> f == KernelId;
    assert SharesIdentifier(Plain, a, b) <==> MatchAt(a, b, KernelId);
    assert ClashesIdentifier(Plain, a, b) <==> ClashAt(a, b, KernelId);
  }

  /** Under the plain schema every fold into a distinct workspace keeps it distinct. */
  lemma {:induction false} PlainInsertAllDistinct(rs: seq<KernelRecord>, xs: seq<KernelRecord>)
    requires Distinct(Plain, rs)
    ensures Distinct(Plain, InsertAll(Plain, rs, xs).0)
    decreases |xs|
  {
    if xs != [] {
      var x := xs[0];
      match IndexOf(Plain, rs, x)
      case Err(_) =>
      case Ok(None) =>
        var rs1 := rs + [x];
        forall a, b | 0 <= a < b < |rs1|
          ensures Equivalence(Plain, rs1[a], rs1[b]) == Ok(false)
        {
          if b == |rs| {
            assert rs1[b] == x && rs1[a] == rs[a];
          } else {
            assert rs1[a] == rs[a] && rs1[b] == rs[b];
          }
        }
        PlainInsertAllDistinct(rs1, xs[1..]);
      case Ok(Some(i)) =>
        var m := Merge(Plain, rs[i], x).value;
        PlainEquivalence(rs[i], x);
        assert m.kernelId == rs[i].kernelId;
        var rs1 := rs[i := m];
        forall a, b | 0 <= a < b < |rs1|
          ensures Equivalence(Plain, rs1[a], rs1[b]) == Ok(false)
        {
          PlainEquivalence(rs1[a], rs1[b]);
          PlainEquivalence(rs[a], rs[b]);
        }
        PlainInsertAllDistinct(rs1, xs[1..]);
    }
  }

  /** Under the plain schema a fetch into an empty workspace yields a distinct workspace. */
  lemma PlainFetchDistinct(v: Variant, remote: Option<RemoteListing>, rows: seq<Row>, kms: KernelManagerState)
    ensures Distinct(Plain, Fetched(v, Plain, remote, [], rows, kms).0)
  {
    match remote
    case None =>
      PlainFetchLocalDistinct(v, [], rows, kms);
    case Some(Unreachable) =>
    case Some(Listed(ks)) =>
      PlainInsertAllDistinct([], RemoteRecords(v, ks));
      PlainFetchLocalDistinct(v, InsertAll(Plain, [], RemoteRecords(v, ks)).0, rows, kms);
  }

  /** The table and managed stages of the fetch keep a distinct workspace distinct. */
  lemma PlainFetchLocalDistinct(v: Variant, rs: seq<KernelRecord>, rows: seq<Row>, kms: KernelManagerState)
    requires Distinct(Plain, rs)
    ensures var (fromTable, tableOutcome) := InsertAll(Plain, rs, TableRecords(v, ListRecords(Plain, rows)));
      Distinct(Plain, fromTable) && Distinct(Plain, InsertAll(Plain, fromTable, ManagedRecords(v, Plain, kms.kernels)).0)
  {
    PlainInsertAllDistinct(rs, TableRecords(v, ListRecords(Plain, rows)));
    var fromTable := InsertAll(Plain, rs, TableRecords(v, ListRecords(Plain, rows))).0;
    PlainInsertAllDistinct(fromTable, ManagedRecords(v, Plain, kms.kernels));
  }

  /**
   * Under the plain schema the prune of a sync never fails and keeps every
   * member that is alive; what it removes is a subset of the members that
   * are not (the member after a removed one is skipped).
   */
  lemma PlainPruneKeepsAlive(v: Variant, remote: Option<RemoteListing>, rows: seq<Row>, kms: KernelManagerState)
    ensures var fetched := Fetched(v, Plain, remote, [], rows, kms).0;
      && PruneFrom(v, Plain, fetched, rows, 0).2 == Pass
      && PruneFrom(v, Plain, fetched, rows, 0).0 == DeadSkip(fetched)
      && forall r :: r in fetched && IsSet(r.alive) ==> r in PruneFrom(v, Plain, fetched, rows, 0).0
  {
    var fetched := Fetched(v, Plain, remote, [], rows, kms).0;
    PlainFetchDistinct(v, remote, rows, kms);
    DistinctPrune(v, Plain, fetched, rows, 0);
    assert fetched[..0] + DeadSkip(fetched[0..]) == DeadSkip(fetched) by {
      assert fetched[0..] == fetched;
    }
    DeadSkipKeepsAlive(fetched);
  }

  /** A member that is not alive directly followed by another is removed, and that other one stays. */
  lemma PruneSkipsSuccessor(v: Variant, s: Schema, rows: seq<Row>)
    ensures var first := KernelRecord(Some("k1"), None, None, None, None, None);
      var second := KernelRecord(Some("k2"), None, None, None, None, None);
      PruneFrom(v, s, [first, second], rows, 0) == ([second], rows, Pass)
  {
    var first := KernelRecord(Some("k1"), None, None, None, None, None);
    var second := KernelRecord(Some("k2"), None, None, None, None, None);
    var rs := [first, second];
    assert KernelId in IdentifierFields(s);
    assert ClashAt(first, second, KernelId);
    assert !MatchAmong(IdentifierFields(s), first, second);
    assert Distinct(s, rs);
    DistinctDeadStep(v, s, rs, rows, 0);
    assert RemoveAt(rs, 0) == [second];
  }

  /*
   * A sync with no live kernel
   */

  predicate NoneAlive(rs: seq<KernelRecord>) {
    forall j :: 0 <= j < |rs| ==> !IsSet(rs[j].alive)
  }

  /** Merging records that are not alive into a workspace without live members leaves none alive. */
  lemma {:induction false} InsertAllNoneAlive(s: Schema, rs: seq<KernelRecord>, xs: seq<KernelRecord>)
    requires NoneAlive(rs) && NoneAlive(xs)
    ensures NoneAlive(InsertAll(s, rs, xs).0)
    decreases |xs|
  {
    if xs != [] {
      match Inserted(s, rs, xs[0])
      case Err(_) =>
      case Ok(rs1) =>
        assert NoneAlive(rs1);
        InsertAllNoneAlive(s, rs1, xs[1..]);
    }
  }

  /** Without remote kernels no fetched member is alive: the table and the kernel manager never say so. */
  lemma FetchNoneAlive(v: Variant, s: Schema, remote: Option<RemoteListing>, rows: seq<Row>, kms: KernelManagerState)
    requires remote == None || remote == Some(Listed([]))
    ensures NoneAlive(Fetched(v, s, remote, [], rows, kms).0)
  {
    assert InsertAll(s, [], RemoteRecords(v, [])) == ([], Pass);
    var tableRecords := TableRecords(v, ListRecords(s, rows));
    InsertAllNoneAlive(s, [], tableRecords);
    var fromTable := InsertAll(s, [], tableRecords).0;
    InsertAllNoneAlive(s, fromTable, ManagedRecords(v, s, kms.kernels));
  }

  /** `row` holds the kernel_id of a member of `rs` that is recorded and not alive. */
  predicate StaleRow(rs: seq<KernelRecord>, row: Row) {
    exists r :: r in rs && !IsSet(r.alive) && IsSet(r.recorded) && Matches(row, Keyword(KernelId, r.kernelId))
  }

  /**
   * The walk only removes members and only deletes rows, and every row it
   * deletes holds the kernel_id of a member that is recorded and not alive.
   */
  lemma {:induction false} PruneOnlyRemoves(v: Variant, s: Schema, rs: seq<KernelRecord>, rows: seq<Row>, i: nat)
    ensures forall r :: r in PruneFrom(v, s, rs, rows, i).0 ==> r in rs
    ensures forall row :: row in PruneFrom(v, s, rs, rows, i).1 ==> row in rows
    ensures forall row :: row in rows && row !in PruneFrom(v, s, rs, rows, i).1 ==> StaleRow(rs, row)
    decreases |rs| - i
  {
    if i < |rs| {
      if IsSet(rs[i].alive) {
        PruneOnlyRemoves(v, s, rs, rows, i + 1);
      } else {
        match IndexOfMember(s, rs, i)
        case Err(_) =>
          PruneOnlyRemoves(v, s, rs, rows, i + 1);
        case Ok(j) =>
          var rest := RemoveAt(rs, j);
          var next := RowsAfterRemoving(s, rows, rs[i]);
          RemovalStep(v, s, rs, rows, i, j);
          PruneOnlyRemoves(v, s, rest, next, i + 1);
          RemovalRowsStale(s, rs, rows, i, j);
      }
    }
  }

  /** A member the walk removes leaves the walk to go on over the rest, with its rows deleted. */
  lemma RemovalStep(v: Variant, s: Schema, rs: seq<KernelRecord>, rows: seq<Row>, i: nat, j: nat)
    requires i < |rs| && !IsSet(rs[i].alive) && IndexOfMember(s, rs, i) == Ok(j)
    ensures PruneFrom(v, s, rs, rows, i) == PruneFrom(v, s, RemoveAt(rs, j), RowsAfterRemoving(s, rows, rs[i]), i + 1)
  {
    KernelIdKeyDeletes(s, rows, rs[i]);
  }

  /**
   * The rows left after one removal are among the old ones, every row it
   * deletes is stale, and a row stale for the shorter workspace is stale for
   * the longer one.
   */
  lemma RemovalRowsStale(s: Schema, rs: seq<KernelRecord>, rows: seq<Row>, i: nat, j: nat)
    requires i < |rs| && !IsSet(rs[i].alive) && j < |rs|
    ensures forall row :: row in RowsAfterRemoving(s, rows, rs[i]) ==> row in rows
    ensures forall row :: row in rows && row !in RowsAfterRemoving(s, rows, rs[i]) ==> StaleRow(rs, row)
    ensures forall row :: StaleRow(RemoveAt(rs, j), row) ==> StaleRow(rs, row)
  {
    var rest := RemoveAt(rs, j);
    assert forall r :: r in rest ==> r in rs;
    if IsSet(rs[i].recorded) && Deleted(s, rows, KernelIdKey(rs[i])).Ok? {
      var key := Selector(s, KernelIdKey(rs[i])).value;
      assert Deleted(s, rows, KernelIdKey(rs[i])) == Ok(Unmatched(rows, key));
      forall row | row in rows && row !in Unmatched(rows, key)
        ensures StaleRow(rs, row)
      {
        assert Matches(row, Keyword(KernelId, rs[i].kernelId));
      }
    }
  }

  lemma {:induction false} HydrateIdle(v: Variant, s: Schema, rs: seq<KernelRecord>, kms: KernelManagerState,
                                      uuids: nat -> string, i: nat)
    requires UuidSupply(uuids) && NoneAlive(rs)
    ensures HydrateFrom(v, s, rs, kms, uuids, i) == (rs, kms, Pass)
    decreases |rs| - i
  {
    if i < |rs| {
      HydrateIdle(v, s, rs, kms, uuids, i + 1);
    }
  }

  lemma {:induction false} RecordIdle(v: Variant, s: Schema, rs: seq<KernelRecord>, rows: seq<Row>, i: nat)
    requires NoneAlive(rs)
    ensures RecordFrom(v, s, rs, rows, i) == (rs, rows, Pass)
    decreases |rs| - i
  {
    if i < |rs| {
      RecordIdle(v, s, rs, rows, i + 1);
    }
  }

  /**
   * With no remote kernel listed (or no gateway), a sync starts no kernel
   * and records no row: the kernels the manager runs are only ever "managed",
   * never "alive", so they are pruned instead of recorded.
   */
  lemma SyncWithoutRemoteKernels(v: Variant, s: Schema, remote: Option<RemoteListing>, rows: seq<Row>,
                                 kms: KernelManagerState, uuids: nat -> string)
    requires UuidSupply(uuids)
    requires remote == None || remote == Some(Listed([]))
    ensures var r := SyncKernels(v, s, remote, rows, kms, uuids);
      && r.kernels == kms
      && NoneAlive(r.workspace)
      && forall row :: row in r.rows ==> row in rows
  {
    FetchNoneAlive(v, s, remote, rows, kms);
    var fetched := Fetched(v, s, remote, [], rows, kms).0;
    PruneOnlyRemoves(v, s, fetched, rows, 0);
    var pruned := PruneFrom(v, s, fetched, rows, 0);
    assert NoneAlive(pruned.0) by {
      forall j | 0 <= j < |pruned.0|
        ensures !IsSet(pruned.0[j].alive)
      {
        assert pruned.0[j] in fetched;
      }
    }
    HydrateIdle(v, s, pruned.0, kms, uuids, 0);
    RecordIdle(v, s, pruned.0, pruned.1, 0);
  }

  /*
   * With a remote_id the workspace need not be distinct
   */

  lemma RemoteIdFields()
    ensures forall f :: f in IdentifierFields(WithRemoteId) <==> f == KernelId || f == RemoteId
  {
  }

  /**
   * The extension's fetch of a kernel listed remotely as r1, recorded in the
   * table as k1 without its remote_id, and managed as k1 with remote_id r1:
   * the managed record merges into the remote one, so k1 appears twice.
   */
  lemma {:induction false} RemoteIdFetchRepeatsKernel(kms: KernelManagerState)
    requires kms.kernels == [ManagedKernel("k1", "python3", Some("r1"))]
    ensures Fetched(Extension, WithRemoteId, Some(Listed([RemoteKernel("r1", "python3")])), [],
                    [map[KernelId := "k1"]], kms) ==
      ([KernelRecord(Some("k1"), None, Some(true), None, Some(true), Some("r1")),
        KernelRecord(Some("k1"), None, None, Some(true), None, None)], Pass)
  {
    RemoteIdFields();
    var w := WithRemoteId;
    var remote := KernelRecord(None, None, Some(true), None, None, Some("r1"));
    var recorded := KernelRecord(Some("k1"), None, None, Some(true), None, None);
    var managed := KernelRecord(Some("k1"), None, None, None, Some(true), Some("r1"));
    var merged := KernelRecord(Some("k1"), None, Some(true), None, Some(true), Some("r1"));
    assert RemoteRecords(Extension, [RemoteKernel("r1", "python3")]) == [remote];
    assert InsertAll(w, [], [remote]) == ([remote], Pass) by {
      assert IndexOf(w, [], remote) == Ok(None) by {
        assert FirstEqual(Comparisons(w, [], remote, false), 0) == Ok(None);
      }
      assert [] + [remote] == [remote];
      assert [remote][1..] == [];
    }
    var row: Row := map[KernelId := "k1"];
    assert RowToRecord(w, row) == KernelRecord(Some("k1"), None, None, None, None, None) by {
      assert TextOf(RowToRecord(w, row), KernelId) == Some("k1");
      assert TextOf(RowToRecord(w, row), KernelName) == None;
      assert TextOf(RowToRecord(w, row), RemoteId) == None;
    }
    assert TableRecords(Extension, ListRecords(w, [row])) == [recorded];
    assert InsertAll(w, [remote], [recorded]) == ([remote, recorded], Pass) by {
      assert !SharesIdentifier(w, remote, recorded);
      assert Equivalence(w, remote, recorded) == Ok(false);
      var cs := Comparisons(w, [remote], recorded, false);
      assert cs[0] == Ok(false) && |cs| == 1;
      assert FirstEqual(cs, 0) == FirstEqual(cs, 1) == Ok(None);
      assert IndexOf(w, [remote], recorded) == Ok(None);
      assert [remote] + [recorded] == [remote, recorded];
      assert Inserted(w, [remote], recorded) == Ok([remote, recorded]);
      assert [recorded][1..] == [];
    }
    assert ManagedRecords(Extension, w, kms.kernels) == [managed];
    assert InsertAll(w, [remote, recorded], [managed]) == ([merged, recorded], Pass) by {
      assert MatchAt(remote, managed, RemoteId);
      assert !ClashAt(remote, managed, KernelId) && !ClashAt(remote, managed, RemoteId);
      assert Equivalence(w, remote, managed) == Ok(true);
      assert IndexOf(w, [remote, recorded], managed) == Ok(Some(0));
      assert Merge(w, remote, managed) == Ok(merged);
      assert [remote, recorded][0 := merged] == [merged, recorded];
      assert Inserted(w, [remote, recorded], managed) == Ok([merged, recorded]);
      assert [managed][1..] == [];
    }
  }

  /**
   * The prune of that workspace: the recorded copy, not alive, compares
   * equal to the live copy before it, so `remove` takes the live one out,
   * and the table row of k1 is deleted although the kernel is running.
   */
  lemma RemoteIdPruneDropsLiveCopy()
    ensures var merged := KernelRecord(Some("k1"), None, Some(true), None, Some(true), Some("r1"));
      var recorded := KernelRecord(Some("k1"), None, None, Some(true), None, None);
      PruneFrom(Extension, WithRemoteId, [merged, recorded], [map[KernelId := "k1"]], 0) == ([recorded], [], Pass)
  {
    RemoteIdFields();
    var w := WithRemoteId;
    var merged := KernelRecord(Some("k1"), None, Some(true), None, Some(true), Some("r1"));
    var recorded := KernelRecord(Some("k1"), None, None, Some(true), None, None);
    var rs := [merged, recorded];
    var row: Row := map[KernelId := "k1"];
    assert MatchAt(merged, recorded, KernelId);
    assert !ClashAt(merged, recorded, KernelId) && !ClashAt(merged, recorded, RemoteId);
    assert Equivalence(w, merged, recorded) == Ok(true);
    assert rs[..1] == [merged];
    assert IndexOf(w, [merged], recorded) == Ok(Some(0));
    assert IndexOfMember(w, rs, 1) == Ok(0);
    assert RemoveAt(rs, 0) == [recorded];
    assert KernelId in Columns(w);
    assert KernelIdKey(recorded)[0].name == KernelId;
    assert Selector(w, KernelIdKey(recorded)) == Ok(Keyword(KernelId, Some("k1")));
    assert Matches(row, Keyword(KernelId, Some("k1")));
    assert Unmatched([row], Keyword(KernelId, Some("k1"))) == [] by {
      assert [row][1..] == [];
    }
    assert Deleted(w, [row], KernelIdKey(recorded)) == Ok([]);
    assert PruneFrom(Extension, w, [recorded], [], 2) == ([recorded], [], Pass);
    assert PruneFrom(Extension, w, rs, [row], 1) == PruneFrom(Extension, w, [recorded], [], 2);
    assert PruneFrom(Extension, w, rs, [row], 0) == PruneFrom(Extension, w, rs, [row], 1);
  }

  /**
   * A table row for k1, with no remote kernel and no managed kernel: the
   * session manager's sync deletes the row and starts nothing.
   */
  lemma {:induction false} RecordedOnlyRowDeleted(kms: KernelManagerState, uuids: nat -> string)
    requires UuidSupply(uuids) && kms.kernels == []
    ensures SyncKernels(SessionManager, Plain, Some(Listed([])), [map[KernelId := "k1"]], kms, uuids) ==
      KernelSync([], [], kms, Pass)
  {
    var row: Row := map[KernelId := "k1"];
    var recorded := KernelRecord(Some("k1"), None, None, Some(true), None, None);
    assert RowToRecord(Plain, row) == KernelRecord(Some("k1"), None, None, None, None, None) by {
      assert TextOf(RowToRecord(Plain, row), KernelId) == Some("k1");
      assert TextOf(RowToRecord(Plain, row), KernelName) == None;
    }
    assert TableRecords(SessionManager, ListRecords(Plain, [row])) == [recorded];
    assert InsertAll(Plain, [], RemoteRecords(SessionManager, [])) == ([], Pass);
    assert InsertAll(Plain, [], [recorded]) == ([recorded], Pass) by {
      assert IndexOf(Plain, [], recorded) == Ok(None) by {
        assert FirstEqual(Comparisons(Plain, [], recorded, false), 0) == Ok(None);
      }
      assert [] + [recorded] == [recorded];
      assert [recorded][1..] == [];
    }
    assert InsertAll(Plain, [recorded], ManagedRecords(SessionManager, Plain, [])) == ([recorded], Pass);
    assert Fetched(SessionManager, Plain, Some(Listed([])), [], [row], kms) == ([recorded], Pass);
    assert Distinct(Plain, [recorded]);
    DistinctDeadStep(SessionManager, Plain, [recorded], [row], 0);
    assert KernelId in Columns(Plain);
    assert KernelIdKey(recorded)[0].name == KernelId;
    assert Selector(Plain, KernelIdKey(recorded)) == Ok(Keyword(KernelId, Some("k1")));
    assert Unmatched([row], Keyword(KernelId, Some("k1"))) == [] by {
      assert Matches(row, Keyword(KernelId, Some("k1")));
      assert [row][1..] == [];
    }
    assert RowsAfterRemoving(Plain, [row], recorded) == [];
    assert RemoveAt([recorded], 0) == [];
    assert PruneFrom(SessionManager, Plain, [recorded], [row], 0) == ([], [], Pass);
  }

  /*
   * sync_managers: the session pass runs on the kernels the kernel pass
   * has just started
   */

  /** The kernel k1 the gateway lists, as the session manager records it. */
  function ListedK1(): KernelRecord {
    KernelRecord(Some("k1"), Some("python3"), Some(true), None, None, None)
  }

  /** With an empty table and no running kernel, the fetch yields the listed kernel alone. */
  lemma FetchListedK1(kms: KernelManagerState)
    requires kms.kernels == []
    ensures Fetched(SessionManager, Plain, Some(Listed([RemoteKernel("k1", "python3")])), [], [], kms) == ([ListedK1()], Pass)
  {
    assert RemoteRecords(SessionManager, [RemoteKernel("k1", "python3")]) == [ListedK1()];
    assert IndexOf(Plain, [], ListedK1()) == Ok(None) by {
      assert FirstEqual(Comparisons(Plain, [], ListedK1(), false), 0) == Ok(None);
    }
    assert [] + [ListedK1()] == [ListedK1()];
    assert [ListedK1()][1..] == [];
    assert TableRecords(SessionManager, ListRecords(Plain, [])) == [];
    assert ManagedRecords(SessionManager, Plain, kms.kernels) == [];
  }

  /** The kernel pass over the listed k1: k1 is started, marked managed and saved. */
  lemma SyncListedK1(kms: KernelManagerState, uuids: nat -> string)
    requires UuidSupply(uuids) && kms.kernels == [] && kms.failing == {}
    ensures var r := SyncKernels(SessionManager, Plain, Some(Listed([RemoteKernel("k1", "python3")])), [], kms, uuids);
      && StartKernel(kms, "k1", Some("python3"), None).Ok?
      && r.outcome == Pass && r.kernels == StartKernel(kms, "k1", Some("python3"), None).value && |r.rows| == 1
  {
    var live := ListedK1();
    FetchListedK1(kms);
    assert PruneFrom(SessionManager, Plain, [live], [], 0) == ([live], [], Pass);
    var started := StartKernel(kms, "k1", Some("python3"), None);
    var hydrated := [live.(managed := Some(true))];
    assert HydrateFrom(SessionManager, Plain, [live], kms, uuids, 0) == (hydrated, started.value, Pass) by {
      assert WithKernelId(live, uuids(0)) == live;
      assert [live][0 := live.(managed := Some(true))] == hydrated;
    }
    RecordMarksChosen(SessionManager, Plain, hydrated, [], 0);
    assert ToRecord(Plain, hydrated[0]) by {
      assert forall f :: f in IdentifierFields(Plain) ==> f == KernelId;
    }
    assert hydrated[0..] == hydrated && hydrated[1..] == [];
  }

  /**
   * The kernel pass starts k1 and records it; with pending kernels off k1 is
   * then ready, so the session pass, finding no session for it, shuts it
   * down again. With pending kernels on, k1 is still pending and survives.
   */
  lemma HydratedKernelShutDown(kms: KernelManagerState, uuids: nat -> string)
    requires UuidSupply(uuids)
    requires kms.kernels == [] && kms.failing == {} && kms.pending == {} && kms.ready == {}
    ensures var r := SyncKernels(SessionManager, Plain, Some(Listed([RemoteKernel("k1", "python3")])), [], kms, uuids);
      && r.outcome == Pass && Running(r.kernels, "k1") && |r.rows| == 1
      && (Running(ShutdownFrom(KernelIds(r.kernels), 0, r.kernels, [], {}), "k1") <==> kms.usePendingKernels)
  {
    SyncListedK1(kms, uuids);
    var after := StartKernel(kms, "k1", Some("python3"), None).value;
    var ids := KernelIds(after);
    assert "k1" in ids[0..] by {
      var j :| 0 <= j < |after.kernels| && after.kernels[j].kernelId == "k1";
      assert ids[j] == "k1";
    }
    ShutdownStopsUnclaimed(ids, 0, after, [], {}, "k1");
  }
}
