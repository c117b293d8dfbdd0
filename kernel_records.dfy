/*
 * Kernel records (jupyter_server_synchronizer/kernel_records.py): a record is
 * the set of facts one source knows about a kernel; two records denote the
 * same kernel when they share a populated identifier; merging copies only
 * truthy fields; the record list merges on insert.
 */
module KernelRecords {

  datatype Option<T> = None | Some(value: T)

  /** The exceptions raised by the core, one constructor per kind. */
  datatype Error =
    | Conflict           // KernelRecordConflict
    | NotInList          // ValueError raised by KernelRecordList.get
    | UnknownField       // TypeError: a keyword that names no declared field
    | NoValidIdentifier  // KernelTable.query given no table column
    | StatementError     // sqlite3 refuses the statement (column or binding mismatch)
    | NothingToSave      // IndexError in KernelTable.save: no truthy column
    | NotSaved           // KernelTable.update: no identifier of the record exists
    | NoMatch            // KernelTable.get found no row
    | RemoteFailure      // the remote kernel listing raised
    | StartFailure       // the kernel manager's start_kernel raised
    | ShutdownFailure    // the kernel manager's shutdown_kernel raised
    | SessionMissing     // the session manager's get_session found no session
    | PathIsDirectory    // TraitError: database_filepath names a directory
    | NotADatabase       // TraitError: the file's header is not SQLite's

  datatype Result<T> = Ok(value: T) | Err(error: Error)

  datatype Outcome = Pass | Fail(error: Error)

  /*
   * Schema: the dataclass fields in declaration order. KernelRecord declares
   * kernel_id, kernel_name, alive, recorded, managed; the record type with a
   * remote identifier appends remote_id.
   */

  datatype Field = KernelId | KernelName | Alive | Recorded | Managed | RemoteId

  datatype Schema = Plain | WithRemoteId

  function FieldName(f: Field): string {
    match f
    case KernelId => "kernel_id"
    case KernelName => "kernel_name"
    case Alive => "alive"
    case Recorded => "recorded"
    case Managed => "managed"
    case RemoteId => "remote_id"
  }

  function DeclaredFields(s: Schema): seq<Field> {
    [KernelId, KernelName, Alive, Recorded, Managed] + if s == WithRemoteId then [RemoteId] else []
  }

  /** Every field is declared, except remote_id in the plain record. */
  lemma DeclaredFieldsMembers(s: Schema)
    ensures forall f :: f in DeclaredFields(s) <==> f != RemoteId || s == WithRemoteId
  {
  }

  predicate EndsWithId(name: string) {
    |name| >= 3 && name[|name| - 3] == '_' && name[|name| - 2] == 'i' && name[|name| - 1] == 'd'
  }

  /** The fields of `fs` whose names end in "_id", in the order of `fs`. */
  function WithIdSuffix(fs: seq<Field>): (ids: seq<Field>)
    ensures |ids| <= |fs|
  {
    if fs == [] then []
    else (if EndsWithId(FieldName(fs[0])) then [fs[0]] else []) + WithIdSuffix(fs[1..])
  }

  lemma {:induction false} WithIdSuffixMembers(fs: seq<Field>)
    ensures forall f :: f in WithIdSuffix(fs) <==> f in fs && EndsWithId(FieldName(f))
  {
    if fs != [] {
      WithIdSuffixMembers(fs[1..]);
      assert forall f :: f in fs <==> f == fs[0] || f in fs[1..];
    }
  }

  /**
   * The identifier fields of a schema; IdentifierFieldsEndInId shows they are
   * what KernelRecord.get_identifier_fields computes.
   */
  function IdentifierFields(s: Schema): seq<Field> {
    if s == WithRemoteId then [KernelId, RemoteId] else [KernelId]
  }

  /** Of the six declared names, exactly kernel_id and remote_id end in "_id". */
  lemma IdSuffixedNames()
    ensures forall f :: EndsWithId(FieldName(f)) <==> f == KernelId || f == RemoteId
  {
  }

  /** KernelRecord.get_identifier_fields: the declared fields ending in "_id", in declaration order. */
  lemma IdentifierFieldsEndInId()
    ensures WithIdSuffix(DeclaredFields(Plain)) == IdentifierFields(Plain)
    ensures WithIdSuffix(DeclaredFields(WithRemoteId)) == IdentifierFields(WithRemoteId)
  {
    IdSuffixedNames();
    PlainIdSuffixed();
    RemoteIdSuffixed();
  }

  lemma PlainIdSuffixed()
    requires forall f :: EndsWithId(FieldName(f)) <==> f == KernelId || f == RemoteId
    ensures WithIdSuffix(DeclaredFields(Plain)) == [KernelId]
  {
    assert WithIdSuffix([Managed]) == [] by { assert [Managed][1..] == []; }
    SkipUnsuffixed([Recorded], [Managed]);
    SkipUnsuffixed([Alive], [Recorded, Managed]);
    SkipUnsuffixed([KernelName], [Alive, Recorded, Managed]);
    var p := DeclaredFields(Plain);
    assert p == [KernelId, KernelName, Alive, Recorded, Managed];
    assert p[1..] == [KernelName, Alive, Recorded, Managed];
  }

  lemma RemoteIdSuffixed()
    requires WithIdSuffix(DeclaredFields(Plain)) == [KernelId]
    ensures WithIdSuffix(DeclaredFields(WithRemoteId)) == [KernelId, RemoteId]
  {
    assert DeclaredFields(WithRemoteId) == DeclaredFields(Plain) + [RemoteId];
    WithIdSuffixAppend(DeclaredFields(Plain), [RemoteId]);
    assert WithIdSuffix([RemoteId]) == [RemoteId] by {
      assert EndsWithId(FieldName(RemoteId));
      assert [RemoteId][1..] == [];
    }
  }

  /** Filtering a concatenation filters each part. */
  lemma {:induction false} WithIdSuffixAppend(a: seq<Field>, b: seq<Field>)
    ensures WithIdSuffix(a + b) == WithIdSuffix(a) + WithIdSuffix(b)
  {
    if a == [] {
      assert a + b == b;
    } else {
      assert (a + b)[0] == a[0] && (a + b)[1..] == a[1..] + b;
      WithIdSuffixAppend(a[1..], b);
      var head := if EndsWithId(FieldName(a[0])) then [a[0]] else [];
      assert head + (WithIdSuffix(a[1..]) + WithIdSuffix(b)) == (head + WithIdSuffix(a[1..])) + WithIdSuffix(b);
    }
  }

  lemma SkipUnsuffixed(head: seq<Field>, rest: seq<Field>)
    requires |head| == 1 && !EndsWithId(FieldName(head[0]))
    ensures WithIdSuffix(head + rest) == WithIdSuffix(rest)
  {
    assert (head + rest)[1..] == rest;
  }

  /*
   * The record. Identifiers and the kernel name are optional strings, the
   * status flags optional booleans (None and False behave alike everywhere).
   */
  datatype KernelRecord = KernelRecord(
    kernelId: Option<string>,
    kernelName: Option<string>,
    alive: Option<bool>,
    recorded: Option<bool>,
    managed: Option<bool>,
    remoteId: Option<string>)

  /** `cls()`: every field at its default, None. */
  const Blank := KernelRecord(None, None, None, None, None, None)

  /** A record of schema `s` carries no value for an undeclared field. */
  predicate Conforms(s: Schema, r: KernelRecord) {
    s == Plain ==> r.remoteId == None
  }

  /** Python truthiness of an optional string and of an optional flag. */
  predicate TruthyText(v: Option<string>) {
    v.Some? && v.value != ""
  }

  predicate IsSet(flag: Option<bool>) {
    flag == Some(true)
  }

  datatype Value = Text(text: string) | Flag(flag: bool)

  /** getattr(record, field) */
  function ValueOf(r: KernelRecord, f: Field): Option<Value> {
    match f
    case KernelId => if r.kernelId.Some? then Some(Text(r.kernelId.value)) else None
    case KernelName => if r.kernelName.Some? then Some(Text(r.kernelName.value)) else None
    case RemoteId => if r.remoteId.Some? then Some(Text(r.remoteId.value)) else None
    case Alive => if r.alive.Some? then Some(Flag(r.alive.value)) else None
    case Recorded => if r.recorded.Some? then Some(Flag(r.recorded.value)) else None
    case Managed => if r.managed.Some? then Some(Flag(r.managed.value)) else None
  }

  predicate Truthy(v: Option<Value>) {
    match v
    case None => false
    case Some(Text(t)) => t != ""
    case Some(Flag(b)) => b
  }

  predicate Active(r: KernelRecord, f: Field) {
    Truthy(ValueOf(r, f))
  }

  /** The text of an identifier (or name) field; flags carry none. */
  function TextOf(r: KernelRecord, f: Field): Option<string> {
    match f
    case KernelId => r.kernelId
    case KernelName => r.kernelName
    case RemoteId => r.remoteId
    case _ => None
  }

  /** Two records that agree on every field are the same record. */
  lemma {:induction false} FieldwiseEqual(a: KernelRecord, b: KernelRecord)
    requires forall f: Field :: ValueOf(a, f) == ValueOf(b, f)
    ensures a == b
  {
    assert ValueOf(a, KernelId) == ValueOf(b, KernelId);
    assert ValueOf(a, KernelName) == ValueOf(b, KernelName);
    assert ValueOf(a, RemoteId) == ValueOf(b, RemoteId);
    assert ValueOf(a, Alive) == ValueOf(b, Alive);
    assert ValueOf(a, Recorded) == ValueOf(b, Recorded);
    assert ValueOf(a, Managed) == ValueOf(b, Managed);
  }

  /** KernelRecord.get_identifier_values */
  function IdentifierValues(s: Schema, r: KernelRecord): (vs: seq<Option<string>>)
    ensures |vs| == |IdentifierFields(s)|
    ensures forall i :: 0 <= i < |vs| ==> vs[i] == TextOf(r, IdentifierFields(s)[i])
  {
    seq(|IdentifierFields(s)|, i requires 0 <= i < |IdentifierFields(s)| => TextOf(r, IdentifierFields(s)[i]))
  }

  /** KernelRecord.get_active_identifiers: the identifiers that are not None. */
  function ActiveIdentifiers(s: Schema, r: KernelRecord): (ids: map<Field, string>)
    ensures forall f :: f in ids <==> f in IdentifierFields(s) && TextOf(r, f).Some?
    ensures forall f :: f in ids ==> Some(ids[f]) == TextOf(r, f)
  {
    map f | f in IdentifierFields(s) && TextOf(r, f).Some? :: TextOf(r, f).value
  }

  /** KernelRecord.get_active_fields: the declared fields whose value is truthy. */
  function ActiveFields(s: Schema, r: KernelRecord): (fs: map<Field, Value>)
    ensures forall f :: f in fs <==> f in DeclaredFields(s) && Active(r, f)
    ensures forall f :: f in fs ==> Some(fs[f]) == ValueOf(r, f)
  {
    map f | f in DeclaredFields(s) && Active(r, f) :: ValueOf(r, f).value
  }

  /** Every identifier field of the schema holds a truthy value: `all(get_identifier_values())`. */
  predicate FullyIdentified(s: Schema, r: KernelRecord) {
    forall f :: f in IdentifierFields(s) ==> TruthyText(TextOf(r, f))
  }

  /*
   * Equality (KernelRecord.__eq__). For each identifier populated on the left
   * side (not None, possibly ""), the right side's value counts when truthy:
   * equal is a match, different is a clash. A match together with a clash is
   * a conflict.
   */

  predicate MatchAt(current: KernelRecord, incoming: KernelRecord, f: Field) {
    TextOf(current, f).Some? && TruthyText(TextOf(incoming, f)) && TextOf(incoming, f) == TextOf(current, f)
  }

  predicate ClashAt(current: KernelRecord, incoming: KernelRecord, f: Field) {
    TextOf(current, f).Some? && TruthyText(TextOf(incoming, f)) && TextOf(incoming, f) != TextOf(current, f)
  }

  predicate MatchAmong(fs: seq<Field>, current: KernelRecord, incoming: KernelRecord) {
    exists f :: f in fs && MatchAt(current, incoming, f)
  }

  predicate ClashAmong(fs: seq<Field>, current: KernelRecord, incoming: KernelRecord) {
    exists f :: f in fs && ClashAt(current, incoming, f)
  }

  predicate SharesIdentifier(s: Schema, current: KernelRecord, incoming: KernelRecord) {
    MatchAmong(IdentifierFields(s), current, incoming)
  }

  predicate ClashesIdentifier(s: Schema, current: KernelRecord, incoming: KernelRecord) {
    ClashAmong(IdentifierFields(s), current, incoming)
  }

  lemma AmongExtended(fs: seq<Field>, f: Field, current: KernelRecord, incoming: KernelRecord)
    ensures MatchAmong(fs + [f], current, incoming) <==> MatchAmong(fs, current, incoming) || MatchAt(current, incoming, f)
    ensures ClashAmong(fs + [f], current, incoming) <==> ClashAmong(fs, current, incoming) || ClashAt(current, incoming, f)
  {
    assert forall g :: g in fs + [f] <==> g in fs || g == f;
  }

  /** The value of `current == incoming`: a boolean, or the conflict it raises. */
  function Equivalence(s: Schema, current: KernelRecord, incoming: KernelRecord): Result<bool> {
    if SharesIdentifier(s, current, incoming) && ClashesIdentifier(s, current, incoming) then Err(Conflict)
    else Ok(SharesIdentifier(s, current, incoming))
  }

  /** KernelRecord.__eq__, field by field over the identifier fields. */
  method Equals(s: Schema, current: KernelRecord, incoming: KernelRecord) returns (r: Result<bool>)
    ensures r.Err? <==> SharesIdentifier(s, current, incoming) && ClashesIdentifier(s, current, incoming)
    ensures r.Err? ==> r.error == Conflict
    ensures r == Ok(true) <==> SharesIdentifier(s, current, incoming) && !ClashesIdentifier(s, current, incoming)
    ensures r == Ok(false) <==> !SharesIdentifier(s, current, incoming)
  {
    var ids := IdentifierFields(s);
    var equivalenceFound := false;
    var conflicts: seq<Field> := [];
    var i := 0;
    while i < |ids|
      invariant 0 <= i <= |ids|
      invariant equivalenceFound <==> MatchAmong(ids[..i], current, incoming)
      invariant conflicts != [] <==> ClashAmong(ids[..i], current, incoming)
    {
      var field := ids[i];
      var currentValue := TextOf(current, field);
      if currentValue.Some? {
        var otherValue := TextOf(incoming, field);
        if TruthyText(otherValue) && otherValue == currentValue {
          equivalenceFound := true;
        }
        if TruthyText(otherValue) && otherValue != currentValue {
          conflicts := conflicts + [field];
        }
      }
      assert ids[..i + 1] == ids[..i] + [field];
      AmongExtended(ids[..i], field, current, incoming);
      i := i + 1;
    }
    assert ids[..i] == ids;
    if equivalenceFound && conflicts != [] {
      return Err(Conflict);
    }
    return Ok(equivalenceFound);
  }

  /**
   * A record equals itself exactly when some identifier is truthy; one with
   * no truthy identifier equals nothing, on either side of `==`.
   */
  lemma {:induction false} ReflexiveWhenIdentified(s: Schema, r: KernelRecord)
    ensures Equivalence(s, r, r) == Ok(exists f :: f in IdentifierFields(s) && TruthyText(TextOf(r, f)))
    ensures (forall f :: f in IdentifierFields(s) ==> !TruthyText(TextOf(r, f))) ==>
      forall o :: Equivalence(s, r, o) == Ok(false) && Equivalence(s, o, r) == Ok(false)
  {
    if exists f :: f in IdentifierFields(s) && TruthyText(TextOf(r, f)) {
      var f :| f in IdentifierFields(s) && TruthyText(TextOf(r, f));
      assert MatchAt(r, r, f);
    }
  }

  /** Without empty-string identifiers, equality does not depend on which side is `self`. */
  lemma {:induction false} EquivalenceSymmetric(s: Schema, a: KernelRecord, b: KernelRecord)
    requires forall f :: f in IdentifierFields(s) ==> TextOf(a, f) != Some("") && TextOf(b, f) != Some("")
    ensures Equivalence(s, a, b) == Equivalence(s, b, a)
  {
    if SharesIdentifier(s, a, b) {
      var f :| f in IdentifierFields(s) && MatchAt(a, b, f);
      assert MatchAt(b, a, f);
    }
    if SharesIdentifier(s, b, a) {
      var f :| f in IdentifierFields(s) && MatchAt(b, a, f);
      assert MatchAt(a, b, f);
    }
    if ClashesIdentifier(s, a, b) {
      var f :| f in IdentifierFields(s) && ClashAt(a, b, f);
      assert ClashAt(b, a, f);
    }
    if ClashesIdentifier(s, b, a) {
      var f :| f in IdentifierFields(s) && ClashAt(b, a, f);
      assert ClashAt(a, b, f);
    }
  }

  /*
   * KernelRecord.update: refuse when both kernel ids are truthy and differ,
   * otherwise copy every truthy field of `other` ("positive updates").
   */

  predicate KernelIdsConflict(current: KernelRecord, other: KernelRecord) {
    TruthyText(other.kernelId) && TruthyText(current.kernelId) && other.kernelId != current.kernelId
  }

  /** The value `current.update(other)` leaves in `current`. */
  function Merge(s: Schema, current: KernelRecord, other: KernelRecord): (r: Result<KernelRecord>)
    ensures r.Err? <==> KernelIdsConflict(current, other)
    ensures r.Err? ==> r.error == Conflict
    ensures r.Ok? ==> forall f ::
      ValueOf(r.value, f) == if f in DeclaredFields(s) && Active(other, f) then ValueOf(other, f) else ValueOf(current, f)
  {
    if KernelIdsConflict(current, other) then Err(Conflict)
    else
      PositiveFields(s, current, other);
      Ok(Positive(s, current, other))
  }

  /** `current` with every truthy declared field of `other` copied in. */
  function Positive(s: Schema, current: KernelRecord, other: KernelRecord): KernelRecord {
    KernelRecord(
      if TruthyText(other.kernelId) then other.kernelId else current.kernelId,
      if TruthyText(other.kernelName) then other.kernelName else current.kernelName,
      if IsSet(other.alive) then other.alive else current.alive,
      if IsSet(other.recorded) then other.recorded else current.recorded,
      if IsSet(other.managed) then other.managed else current.managed,
      if s == WithRemoteId && TruthyText(other.remoteId) then other.remoteId else current.remoteId)
  }

  lemma PositiveFields(s: Schema, current: KernelRecord, other: KernelRecord)
    ensures forall f ::
      ValueOf(Positive(s, current, other), f) ==
      if f in DeclaredFields(s) && Active(other, f) then ValueOf(other, f) else ValueOf(current, f)
  {
    DeclaredFieldsMembers(s);
    var m := Positive(s, current, other);
    forall f
      ensures ValueOf(m, f) == if f in DeclaredFields(s) && Active(other, f) then ValueOf(other, f) else ValueOf(current, f)
    {
      match f
      case KernelId =>
      case KernelName =>
      case Alive =>
      case Recorded =>
      case Managed =>
      case RemoteId =>
    }
  }

  /** setattr(current, f, getattr(other, f)) */
  function CopyField(current: KernelRecord, other: KernelRecord, f: Field): (r: KernelRecord)
    ensures ValueOf(r, f) == ValueOf(other, f)
    ensures forall g :: g != f ==> ValueOf(r, g) == ValueOf(current, g)
  {
    match f
    case KernelId => current.(kernelId := other.kernelId)
    case KernelName => current.(kernelName := other.kernelName)
    case Alive => current.(alive := other.alive)
    case Recorded => current.(recorded := other.recorded)
    case Managed => current.(managed := other.managed)
    case RemoteId => current.(remoteId := other.remoteId)
  }

  /** KernelRecord.update, field by field over the declared fields. */
  method UpdateRecord(s: Schema, current: KernelRecord, other: KernelRecord) returns (r: Result<KernelRecord>)
    ensures r == Merge(s, current, other)
  {
    if other.kernelId.Some? && other.kernelId.value != "" && current.kernelId.Some? && current.kernelId.value != ""
       && other.kernelId != current.kernelId {
      return Err(Conflict);
    }
    var fields := DeclaredFields(s);
    var merged := current;
    var i := 0;
    while i < |fields|
      invariant 0 <= i <= |fields|
      invariant forall f :: ValueOf(merged, f) == (if f in fields[..i] && Active(other, f) then ValueOf(other, f) else ValueOf(current, f))
    {
      if Active(other, fields[i]) {
        merged := CopyField(merged, other, fields[i]);
      }
      assert fields[..i + 1] == fields[..i] + [fields[i]];
      i := i + 1;
    }
    assert fields[..i] == fields;
    FieldwiseEqual(merged, Merge(s, current, other).value);
    return Ok(merged);
  }

  /** Merging a record into itself, or the same record twice, changes nothing further. */
  lemma {:induction false} MergeIdempotent(s: Schema, current: KernelRecord, other: KernelRecord)
    requires Merge(s, current, other).Ok?
    ensures Merge(s, other, other) == Ok(other)
    ensures Merge(s, Merge(s, current, other).value, other) == Merge(s, current, other)
  {
    var m := Merge(s, current, other).value;
    assert !KernelIdsConflict(m, other);
    var twice := Merge(s, m, other).value;
    forall f ensures ValueOf(twice, f) == ValueOf(m, f) { }
    FieldwiseEqual(twice, m);
    var self := Merge(s, other, other).value;
    forall f ensures ValueOf(self, f) == ValueOf(other, f) { }
    FieldwiseEqual(self, other);
  }

  /** Records equal by __eq__ always merge without a conflict. */
  lemma {:induction false} EquivalentMergesCleanly(s: Schema, current: KernelRecord, other: KernelRecord)
    requires Equivalence(s, current, other) == Ok(true)
    ensures Merge(s, current, other).Ok?
  {
    assert KernelId in IdentifierFields(s);
    assert !ClashAt(current, other, KernelId);
  }

  /**
   * A merge that follows a successful equality test never rewrites an
   * identifier the target already has, and never clears a set flag.
   */
  lemma {:induction false} EquivalentMergeKeepsIdentifiers(s: Schema, current: KernelRecord, other: KernelRecord)
    requires Equivalence(s, current, other) == Ok(true)
    ensures Merge(s, current, other).Ok?
    ensures forall f :: f in IdentifierFields(s) && TextOf(current, f).Some? ==>
      TextOf(Merge(s, current, other).value, f) == TextOf(current, f)
    ensures Enriches(current, Merge(s, current, other).value)
  {
    EquivalentMergesCleanly(s, current, other);
    var m := Merge(s, current, other).value;
    forall f | f in IdentifierFields(s) && TextOf(current, f).Some?
      ensures TextOf(m, f) == TextOf(current, f)
    {
      assert !ClashAt(current, other, f);
      }
  }

  /** `later` keeps every truthy kernel id, name and remote id and every set flag of `earlier`. */
  predicate Enriches(earlier: KernelRecord, later: KernelRecord) {
    (TruthyText(earlier.kernelId) ==> TruthyText(later.kernelId)) &&
    (TruthyText(earlier.kernelName) ==> TruthyText(later.kernelName)) &&
    (TruthyText(earlier.remoteId) ==> TruthyText(later.remoteId)) &&
    (IsSet(earlier.alive) ==> IsSet(later.alive)) &&
    (IsSet(earlier.recorded) ==> IsSet(later.recorded)) &&
    (IsSet(earlier.managed) ==> IsSet(later.managed))
  }

  /** The attributes KernelRecord.from_manager reads from a kernel manager. */
  datatype ManagedKernel = ManagedKernel(kernelId: string, kernelName: string, remoteId: Option<string>)

  /** KernelRecord.from_manager: identifiers and name from the manager, managed, never alive. */
  function FromManager(s: Schema, km: ManagedKernel): (r: KernelRecord)
    ensures Conforms(s, r)
    ensures IsSet(r.managed) && !IsSet(r.alive) && !IsSet(r.recorded)
    ensures forall f :: f in IdentifierFields(s) ==> TextOf(r, f) == if f == KernelId then Some(km.kernelId) else km.remoteId
  {
    KernelRecord(Some(km.kernelId), Some(km.kernelName), None, None, Some(true),
                 if s == WithRemoteId then km.remoteId else None)
  }

  /*
   * KernelRecordList. Python's list.index, list.remove and `in` call
   * `member.__eq__(argument)`; KernelRecordList.get(record) tests
   * `argument == member`. Either way a conflict stops the scan.
   */

  function Compare(s: Schema, member: KernelRecord, x: KernelRecord, argumentFirst: bool): Result<bool> {
    if argumentFirst then Equivalence(s, x, member) else Equivalence(s, member, x)
  }

  /** The comparisons a scan of `rs` for `x` makes, one per member. */
  function Comparisons(s: Schema, rs: seq<KernelRecord>, x: KernelRecord, argumentFirst: bool): (cs: seq<Result<bool>>)
    ensures |cs| == |rs|
    ensures forall j :: 0 <= j < |rs| ==> cs[j] == Compare(s, rs[j], x, argumentFirst)
  {
    seq(|rs|, j requires 0 <= j < |rs| => Compare(s, rs[j], x, argumentFirst))
  }

  /** The first index from `from` on whose comparison is true, or the error met first. */
  function FirstEqual(cs: seq<Result<bool>>, from: nat): Result<Option<nat>>
    requires from <= |cs|
    decreases |cs| - from
  {
    if from == |cs| then Ok(None)
    else match cs[from]
      case Err(e) => Err(e)
      case Ok(true) => Ok(Some(from))
      case Ok(false) => FirstEqual(cs, from + 1)
  }

  /**
   * What a scan returns: the first comparison that is true, with every one
   * before it false; None when all are false; the error of the first
   * comparison that fails before any is true.
   */
  lemma {:induction false} FirstEqualFinds(cs: seq<Result<bool>>, from: nat)
    requires from <= |cs|
    ensures var res := FirstEqual(cs, from);
      && (res.Ok? && res.value.Some? ==> from <= res.value.value < |cs| && cs[res.value.value] == Ok(true))
      && (res.Ok? ==> forall j :: from <= j < (if res.value.Some? then res.value.value else |cs|) ==> cs[j] == Ok(false))
      && (res.Err? ==> exists j :: (from <= j < |cs| && cs[j] == Err(res.error) &&
            forall k :: from <= k < j ==> cs[k] == Ok(false)))
    decreases |cs| - from
  {
    if from < |cs| && cs[from] == Ok(false) {
      FirstEqualFinds(cs, from + 1);
    }
  }

  /** Comparisons that are false can be skipped without changing the scan. */
  lemma {:induction false} FirstEqualSkips(cs: seq<Result<bool>>, from: nat, mid: nat)
    requires from <= mid <= |cs|
    requires forall j :: from <= j < mid ==> cs[j] == Ok(false)
    ensures FirstEqual(cs, from) == FirstEqual(cs, mid)
    decreases mid - from
  {
    if from < mid {
      FirstEqualSkips(cs, from + 1, mid);
    }
  }

  /** A scan's result depends only on the comparisons up to the one it stops at. */
  lemma {:induction false} FirstEqualPrefix(cs: seq<Result<bool>>, ds: seq<Result<bool>>, from: nat)
    requires from <= |cs| <= |ds| && cs == ds[..|cs|]
    requires FirstEqual(cs, from) != Ok(None)
    ensures FirstEqual(ds, from) == FirstEqual(cs, from)
    decreases |cs| - from
  {
    if cs[from] == Ok(false) {
      FirstEqualPrefix(cs, ds, from + 1);
    }
  }

  /** A scan that finds nothing in a prefix continues into the rest. */
  lemma {:induction false} FirstEqualExtends(cs: seq<Result<bool>>, ds: seq<Result<bool>>, from: nat)
    requires from <= |cs| <= |ds| && cs == ds[..|cs|]
    requires FirstEqual(cs, from) == Ok(None)
    ensures FirstEqual(ds, from) == FirstEqual(ds, |cs|)
    decreases |cs| - from
  {
    if from < |cs| {
      FirstEqualExtends(cs, ds, from + 1);
    }
  }

  /** `self._records.index(x)`: Some(index), None for the ValueError, or the conflict. */
  function IndexOf(s: Schema, rs: seq<KernelRecord>, x: KernelRecord): (res: Result<Option<nat>>)
    ensures res.Err? ==> res.error == Conflict
    ensures res.Ok? && res.value.Some? ==> res.value.value < |rs| && Equivalence(s, rs[res.value.value], x) == Ok(true)
    ensures res.Ok? ==> forall j :: 0 <= j < (if res.value.Some? then res.value.value else |rs|) ==>
      Equivalence(s, rs[j], x) == Ok(false)
    ensures (forall j :: 0 <= j < |rs| ==> Equivalence(s, rs[j], x) == Ok(false)) ==> res == Ok(None)
    ensures res.Err? ==> exists j ::
      && 0 <= j < |rs| && Equivalence(s, rs[j], x).Err?
      && forall k :: 0 <= k < j ==> Equivalence(s, rs[k], x) == Ok(false)
  {
    var cs := Comparisons(s, rs, x, false);
    FirstEqualFinds(cs, 0);
    var res := FirstEqual(cs, 0);
    assert res.Err? ==> res.error == Conflict by {
      if res.Err? {
        var j :| 0 <= j < |cs| && cs[j] == Err(res.error);
        assert Compare(s, rs[j], x, false).Err?;
      }
    }
    res
  }

  /**
   * `self._records.remove(k)` for the member `k` at position `i`: Python's
   * list scan tests identity before `==`, so it stops at `k` itself unless an
   * earlier member compares equal to it (or raises) first.
   */
  function IndexOfMember(s: Schema, rs: seq<KernelRecord>, i: nat): (res: Result<nat>)
    requires i < |rs|
    ensures res.Err? ==> res.error == Conflict
    ensures res.Ok? ==> res.value <= i
    ensures res.Ok? && res.value < i ==> Equivalence(s, rs[res.value], rs[i]) == Ok(true)
    ensures res.Ok? ==> forall j :: 0 <= j < res.value ==> Equivalence(s, rs[j], rs[i]) == Ok(false)
  {
    match IndexOf(s, rs[..i], rs[i])
    case Err(e) => Err(e)
    case Ok(None) => Ok(i)
    case Ok(Some(j)) => Ok(j)
  }

  function RemoveAt(rs: seq<KernelRecord>, i: nat): (r: seq<KernelRecord>)
    requires i < |rs|
    ensures |r| == |rs| - 1
    ensures forall j :: 0 <= j < i ==> r[j] == rs[j]
    ensures forall j :: i <= j < |r| ==> r[j] == rs[j + 1]
  {
    rs[..i] + rs[i + 1..]
  }

  /** The members after KernelRecordList.update(x), or the conflict it raises. */
  function Inserted(s: Schema, rs: seq<KernelRecord>, x: KernelRecord): (res: Result<seq<KernelRecord>>)
    ensures res.Err? <==> IndexOf(s, rs, x).Err?
    ensures res.Err? ==> res.error == Conflict
    ensures IndexOf(s, rs, x) == Ok(None) ==> res == Ok(rs + [x])
    ensures IndexOf(s, rs, x).Ok? && IndexOf(s, rs, x).value.Some? ==>
      var i := IndexOf(s, rs, x).value.value;
      i < |rs| && Merge(s, rs[i], x).Ok? && res == Ok(rs[i := Merge(s, rs[i], x).value])
  {
    match IndexOf(s, rs, x)
    case Err(e) => Err(e)
    case Ok(None) => Ok(rs + [x])
    case Ok(Some(i)) =>
      EquivalentMergesCleanly(s, rs[i], x);
      Ok(rs[i := Merge(s, rs[i], x).value])
  }

  /** Some identifier of `x` is truthy. */
  predicate Identified(s: Schema, x: KernelRecord) {
    exists f :: f in IdentifierFields(s) && TruthyText(TextOf(x, f))
  }

  /** The result of merging `x` in compares equal to `x`. */
  lemma {:induction false} MergedMatchesIncoming(s: Schema, current: KernelRecord, x: KernelRecord)
    requires Identified(s, x)
    requires Merge(s, current, x).Ok?
    ensures Equivalence(s, Merge(s, current, x).value, x) == Ok(true)
  {
    var m := Merge(s, current, x).value;
    assert TruthyText(x.kernelId) ==> m.kernelId == x.kernelId;
    assert s == WithRemoteId && TruthyText(x.remoteId) ==> m.remoteId == x.remoteId;
    var f :| f in IdentifierFields(s) && TruthyText(TextOf(x, f));
    assert MatchAt(m, x, f);
    assert !ClashAt(m, x, KernelId);
    assert s == WithRemoteId ==> !ClashAt(m, x, RemoteId);
  }

  /**
   * Inserting the same record twice: the second insert merges into the
   * member the first one produced and leaves the list as it was.
   */
  lemma {:induction false} InsertIdempotent(s: Schema, rs: seq<KernelRecord>, x: KernelRecord)
    requires Identified(s, x)
    requires Inserted(s, rs, x).Ok?
    ensures Inserted(s, Inserted(s, rs, x).value, x) == Inserted(s, rs, x)
  {
    var rs' := Inserted(s, rs, x).value;
    match IndexOf(s, rs, x)
    case Ok(None) =>
      ReinsertAppended(s, rs, x);
    case Ok(Some(i)) =>
      var m := Merge(s, rs[i], x).value;
      MergedMatchesIncoming(s, rs[i], x);
      var cs' := Comparisons(s, rs', x, false);
      FirstEqualSkips(cs', 0, i);
      assert IndexOf(s, rs', x) == Ok(Some(i));
      MergeIdempotent(s, rs[i], x);
      assert rs'[i := m] == rs';
  }

  lemma {:induction false} ReinsertAppended(s: Schema, rs: seq<KernelRecord>, x: KernelRecord)
    requires Identified(s, x)
    requires IndexOf(s, rs, x) == Ok(None)
    ensures Inserted(s, rs + [x], x) == Ok(rs + [x])
  {
    var rs' := rs + [x];
    ReflexiveWhenIdentified(s, x);
    var cs, cs' := Comparisons(s, rs, x, false), Comparisons(s, rs', x, false);
    assert cs == cs'[..|rs|];
    FirstEqualExtends(cs, cs', 0);
    assert cs'[|rs|] == Ok(true);
    assert IndexOf(s, rs', x) == Ok(Some(|rs|));
    MergeIdempotent(s, x, x);
    assert rs'[|rs| := x] == rs';
  }

  /**
   * A successful insert keeps every member's populated identifiers and set
   * flags, and adds at most one member.
   */
  lemma {:induction false} InsertPreservesMembers(s: Schema, rs: seq<KernelRecord>, x: KernelRecord)
    requires Inserted(s, rs, x).Ok?
    ensures |rs| <= |Inserted(s, rs, x).value| <= |rs| + 1
    ensures forall j, f :: 0 <= j < |rs| && f in IdentifierFields(s) && TextOf(rs[j], f).Some? ==>
      TextOf(Inserted(s, rs, x).value[j], f) == TextOf(rs[j], f)
    ensures forall j :: 0 <= j < |rs| ==> Enriches(rs[j], Inserted(s, rs, x).value[j])
  {
    match IndexOf(s, rs, x)
    case Ok(None) =>
    case Ok(Some(i)) =>
      EquivalentMergeKeepsIdentifiers(s, rs[i], x);
  }

  /** KernelRecordList.update over a sequence of records, stopping at the first conflict. */
  function InsertAll(s: Schema, rs: seq<KernelRecord>, xs: seq<KernelRecord>): (r: (seq<KernelRecord>, Outcome))
    decreases |xs|
  {
    if xs == [] then (rs, Pass)
    else match Inserted(s, rs, xs[0])
      case Err(e) => (rs, Fail(e))
      case Ok(rs1) => InsertAll(s, rs1, xs[1..])
  }

  /** Folding records into a workspace only enriches the members already there. */
  lemma {:induction false} InsertAllPreservesMembers(s: Schema, rs: seq<KernelRecord>, xs: seq<KernelRecord>)
    ensures |rs| <= |InsertAll(s, rs, xs).0| <= |rs| + |xs|
    ensures forall j :: 0 <= j < |rs| ==> Enriches(rs[j], InsertAll(s, rs, xs).0[j])
    decreases |xs|
  {
    if xs != [] {
      match Inserted(s, rs, xs[0])
      case Err(_) =>
      case Ok(rs1) =>
        InsertPreservesMembers(s, rs, xs[0]);
        InsertAllPreservesMembers(s, rs1, xs[1..]);
    }
  }

  /** `id in member.get_identifier_values()` */
  predicate HoldsId(s: Schema, r: KernelRecord, id: string) {
    Some(id) in IdentifierValues(s, r)
  }

  datatype Key = ByRecord(record: KernelRecord) | ById(id: string)

  /** The merge-on-insert workspace of one synchronisation pass. */
  class KernelRecordList {
    const schema: Schema
    var records: seq<KernelRecord>

    constructor (schema: Schema)
      ensures this.schema == schema && records == []
    {
      this.schema := schema;
      records := [];
    }

    /** `len(self)` */
    function Length(): nat
      reads this
    {
      |records|
    }

    /** `self._records.index(x)` with the members on the left of `==`. */
    method Index(x: KernelRecord) returns (res: Result<Option<nat>>)
      ensures res == IndexOf(schema, records, x)
    {
      var i := 0;
      while i < |records|
        invariant 0 <= i <= |records|
        invariant forall j :: 0 <= j < i ==> Equivalence(schema, records[j], x) == Ok(false)
      {
        var eq := Equals(schema, records[i], x);
        if eq.Err? {
          FirstEqualSkips(Comparisons(schema, records, x, false), 0, i);
          return Err(eq.error);
        }
        if eq.value {
          FirstEqualSkips(Comparisons(schema, records, x, false), 0, i);
          return Ok(Some(i));
        }
        i := i + 1;
      }
      FirstEqualSkips(Comparisons(schema, records, x, false), 0, i);
      return Ok(None);
    }

    /** KernelRecordList.update: merge into the first equal member, else append. */
    method Update(x: KernelRecord) returns (res: Outcome)
      modifies this
      ensures Inserted(schema, old(records), x).Ok? ==> res == Pass && records == Inserted(schema, old(records), x).value
      ensures Inserted(schema, old(records), x).Err? ==> res == Fail(Conflict) && records == old(records)
    {
      var idx := Index(x);
      match idx
      case Err(e) =>
        return Fail(e);
      case Ok(None) =>
        records := records + [x];
        return Pass;
      case Ok(Some(i)) =>
        EquivalentMergesCleanly(schema, records[i], x);
        var merged := UpdateRecord(schema, records[i], x);
        records := records[i := merged.value];
        return Pass;
    }

    /**
     * The loop of `KernelRecordList(*records)`, which every fetch step of
     * the synchronisers repeats: update with each record in turn; a conflict
     * ends the loop.
     */
    method UpdateEach(xs: seq<KernelRecord>) returns (res: Outcome)
      modifies this
      ensures (records, res) == InsertAll(schema, old(records), xs)
    {
      var i := 0;
      while i < |xs|
        invariant 0 <= i <= |xs|
        invariant InsertAll(schema, records, xs[i..]) == InsertAll(schema, old(records), xs)
      {
        assert xs[i..][1..] == xs[i + 1..];
        var r := Update(xs[i]);
        if r.Fail? {
          return r;
        }
        i := i + 1;
      }
      return Pass;
    }

    /** KernelRecordList.__contains__ */
    method Contains(key: Key) returns (res: Result<bool>)
      ensures key.ByRecord? ==> res == match IndexOf(schema, records, key.record)
        case Err(e) => Err(e)
        case Ok(i) => Ok(i.Some?)
      ensures key.ById? ==> res == Ok(exists j :: 0 <= j < |records| && HoldsId(schema, records[j], key.id))
    {
      match key
      case ByRecord(x) =>
        var idx := Index(x);
        if idx.Err? {
          return Err(idx.error);
        }
        return Ok(idx.value.Some?);
      case ById(id) =>
        var i := 0;
        while i < |records|
          invariant 0 <= i <= |records|
          invariant forall j :: 0 <= j < i ==> !HoldsId(schema, records[j], id)
        {
          if Some(id) in IdentifierValues(schema, records[i]) {
            return Ok(true);
          }
          i := i + 1;
        }
        return Ok(false);
    }

    /**
     * KernelRecordList.get: by identifier, the first member holding it; by
     * record, the ARGUMENT itself once some member compares equal to it.
     */
    method Get(key: Key) returns (res: Result<KernelRecord>)
      ensures key.ById? ==> (res.Ok? <==> exists j :: 0 <= j < |records| && HoldsId(schema, records[j], key.id))
      ensures key.ById? && res.Ok? ==> exists j :: (0 <= j < |records| && res.value == records[j] &&
        HoldsId(schema, records[j], key.id) && forall k :: 0 <= k < j ==> !HoldsId(schema, records[k], key.id))
      ensures key.ByRecord? ==> res == match FirstEqual(Comparisons(schema, records, key.record, true), 0)
        case Err(e) => Err(e)
        case Ok(None) => Err(NotInList)
        case Ok(Some(_)) => Ok(key.record)
      ensures key.ById? && res.Err? ==> res.error == NotInList
    {
      match key
      case ById(id) =>
        var i := 0;
        while i < |records|
          invariant 0 <= i <= |records|
          invariant forall j :: 0 <= j < i ==> !HoldsId(schema, records[j], id)
        {
          if Some(id) in IdentifierValues(schema, records[i]) {
            return Ok(records[i]);
          }
          i := i + 1;
        }
        return Err(NotInList);
      case ByRecord(x) =>
        var i := 0;
        while i < |records|
          invariant 0 <= i <= |records|
          invariant forall j :: 0 <= j < i ==> Equivalence(schema, x, records[j]) == Ok(false)
        {
          var eq := Equals(schema, x, records[i]);
          if eq.Err? {
            FirstEqualSkips(Comparisons(schema, records, x, true), 0, i);
            return Err(eq.error);
          }
          if eq.value {
            FirstEqualSkips(Comparisons(schema, records, x, true), 0, i);
            return Ok(x);
          }
          i := i + 1;
        }
        FirstEqualSkips(Comparisons(schema, records, x, true), 0, i);
        return Err(NotInList);
    }

    /**
     * KernelRecordList.remove called with its own member at position `i`
     * (the removal loops of the synchronisers): the member itself, or an
     * earlier one equal to it, is dropped.
     */
    method RemoveMember(i: nat) returns (res: Outcome)
      requires i < |records|
      modifies this
      ensures IndexOfMember(schema, old(records), i).Err? ==> res == Fail(Conflict) && records == old(records)
      ensures IndexOfMember(schema, old(records), i).Ok? ==>
        res == Pass && records == RemoveAt(old(records), IndexOfMember(schema, old(records), i).value)
    {
      var x := records[i];
      ghost var cs := Comparisons(schema, records[..i], x, false);
      var j := 0;
      while j < i
        invariant 0 <= j <= i && records == old(records)
        invariant forall k :: 0 <= k < j ==> Equivalence(schema, records[k], x) == Ok(false)
      {
        var eq := Equals(schema, records[j], x);
        if eq.Err? {
          FirstEqualSkips(cs, 0, j);
          return Fail(eq.error);
        }
        if eq.value {
          FirstEqualSkips(cs, 0, j);
          records := RemoveAt(records, j);
          return Pass;
        }
        j := j + 1;
      }
      FirstEqualSkips(cs, 0, i);
      records := RemoveAt(records, i);
      return Pass;
    }

    /** KernelRecordList.remove: drop the first equal member; no-op when none. */
    method Remove(x: KernelRecord) returns (res: Outcome)
      modifies this
      ensures IndexOf(schema, old(records), x).Err? ==> res == Fail(Conflict) && records == old(records)
      ensures IndexOf(schema, old(records), x) == Ok(None) ==> res == Pass && records == old(records)
      ensures IndexOf(schema, old(records), x).Ok? && IndexOf(schema, old(records), x).value.Some? ==>
        res == Pass && records == RemoveAt(old(records), IndexOf(schema, old(records), x).value.value)
    {
      var idx := Index(x);
      match idx
      case Err(e) =>
        return Fail(e);
      case Ok(None) =>
        return Pass;
      case Ok(Some(i)) =>
        records := RemoveAt(records, i);
        return Pass;
    }
  }
}
