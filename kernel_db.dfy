/*
 * The kernel table (jupyter_server_synchronizer/kernel_db.py): the SQLite
 * table in which the server remembers the kernels it has recorded. A row is
 * a map from column to text; a column absent from the map holds NULL. The
 * SQL engine itself is not modelled: each statement the class issues is
 * stated by its effect on the sequence of rows, in insertion order.
 */
module KernelDb {
  import opened KernelRecords

  /** A row of the table; a missing key is a NULL cell. */
  type Row = map<Field, string>

  /** `_table_columns`: the declared fields except the three status flags. */
  function Columns(s: Schema): (cs: set<Field>)
    ensures forall f :: f in cs <==> f in DeclaredFields(s) && !IsFlag(f)
  {
    if s == WithRemoteId then {KernelId, KernelName, RemoteId} else {KernelId, KernelName}
  }

  /** `_ignored_fields` */
  predicate IsFlag(f: Field) {
    f == Alive || f == Recorded || f == Managed
  }

  /** What every row this class writes looks like: known columns, no empty text. */
  predicate WellFormed(s: Schema, row: Row) {
    (forall f :: f in row ==> f in Columns(s)) && (forall f :: f in row ==> row[f] != "")
  }

  /**
   * The cells `save` and `update` write for a record: its truthy fields that
   * are table columns (`get_active_fields` restricted to the columns).
   */
  function ColumnFields(s: Schema, r: KernelRecord): (row: Row)
    ensures forall f :: f in row <==> f in Columns(s) && Active(r, f)
    ensures forall f :: f in row ==> Some(row[f]) == TextOf(r, f) && row[f] != ""
    ensures WellFormed(s, row)
  {
    map f | f in Columns(s) && TruthyText(TextOf(r, f)) :: TextOf(r, f).value
  }

  /**
   * `save`: the row INSERT adds. With no truthy column the VALUES clause is
   * built from `values_tuple[0]` of an empty tuple, an IndexError.
   */
  function SavedRow(s: Schema, r: KernelRecord): (res: Result<Row>)
    ensures res.Err? <==> forall f :: f in Columns(s) ==> !Active(r, f)
    ensures res.Err? ==> res.error == NothingToSave
    ensures res.Ok? ==> WellFormed(s, res.value) && forall f :: f in Columns(s) ==>
      (f in res.value <==> Active(r, f))
  {
    var row := ColumnFields(s, r);
    if row == map[] then Err(NothingToSave) else Ok(row)
  }

  /** `row_to_record`: every column read back, NULL as None; the flags stay None. */
  function RowToRecord(s: Schema, row: Row): (r: KernelRecord)
    ensures Conforms(s, r)
    ensures r.alive == None && r.recorded == None && r.managed == None
    ensures forall f :: f in Columns(s) ==> TextOf(r, f) == (if f in row then Some(row[f]) else None)
  {
    KernelRecord(
      if KernelId in row then Some(row[KernelId]) else None,
      if KernelName in row then Some(row[KernelName]) else None,
      None, None, None,
      if s == WithRemoteId && RemoteId in row then Some(row[RemoteId]) else None)
  }

  /** `list`: every row as a record, in table order. */
  function ListRecords(s: Schema, rows: seq<Row>): (rs: seq<KernelRecord>)
    ensures |rs| == |rows|
    ensures forall i :: 0 <= i < |rows| ==> rs[i] == RowToRecord(s, rows[i])
  {
    seq(|rows|, i requires 0 <= i < |rows| => RowToRecord(s, rows[i]))
  }

  /** A keyword argument `name=value` of `exists`, `delete` or `get`. */
  datatype Keyword = Keyword(name: Field, value: Option<string>)

  /** `identifier.get(f)`: the value of the first keyword naming `f`. */
  function KeywordValue(kws: seq<Keyword>, f: Field): (v: Option<Option<string>>)
    ensures v.None? <==> forall i :: 0 <= i < |kws| ==> kws[i].name != f
    ensures v.Some? ==> exists i :: 0 <= i < |kws| && kws[i] == Keyword(f, v.value)
  {
    if |kws| == 0 then None
    else if kws[0].name == f then Some(kws[0].value)
    else KeywordValue(kws[1..], f)
  }

  /**
   * The text `exists` puts in its query: the f-string of `record.kernel_id`
   * for the record built from the keywords, "None" when it has none.
   */
  function KernelIdText(kws: seq<Keyword>): string {
    match KeywordValue(kws, KernelId)
    case Some(Some(id)) => id
    case _ => "None"
  }

  /**
   * `exists`: builds a record from the keywords (a TypeError for a keyword
   * that is not a declared field) and then looks only at its kernel_id.
   */
  function Exists(s: Schema, rows: seq<Row>, kws: seq<Keyword>): (res: Result<bool>)
    ensures res.Err? <==> exists i :: 0 <= i < |kws| && kws[i].name !in DeclaredFields(s)
    ensures res.Err? ==> res.error == UnknownField
    ensures res.Ok? ==> (res.value <==> exists i :: 0 <= i < |rows| && KernelId in rows[i] && rows[i][KernelId] == KernelIdText(kws))
  {
    if exists i :: 0 <= i < |kws| && kws[i].name !in DeclaredFields(s) then Err(UnknownField)
    else Ok(exists i :: 0 <= i < |rows| && KernelId in rows[i] && rows[i][KernelId] == KernelIdText(kws))
  }

  /**
   * `query`: the column and value of `WHERE {0}=?`. No keyword naming a
   * column is refused by the class; more than one keyword leaves sqlite3 with
   * more values than the statement's single placeholder.
   */
  function Selector(s: Schema, kws: seq<Keyword>): (res: Result<Keyword>)
    ensures res.Err? <==> (forall i :: 0 <= i < |kws| ==> kws[i].name !in Columns(s)) || |kws| != 1
    ensures res.Err? && (forall i :: 0 <= i < |kws| ==> kws[i].name !in Columns(s)) ==> res.error == NoValidIdentifier
    ensures res.Ok? ==> res.value == kws[0] && res.value.name in Columns(s)
  {
    if forall i :: 0 <= i < |kws| ==> kws[i].name !in Columns(s) then Err(NoValidIdentifier)
    else if |kws| != 1 then Err(StatementError)
    else Ok(kws[0])
  }

  /** `column = ?` holds for a row; a None value binds NULL, which equals nothing. */
  predicate Matches(row: Row, key: Keyword) {
    key.value.Some? && key.name in row && row[key.name] == key.value.value
  }

  /** The rows `DELETE ... WHERE` leaves behind. */
  function Unmatched(rows: seq<Row>, key: Keyword): (kept: seq<Row>)
    ensures |kept| <= |rows|
    ensures forall row :: row in kept <==> row in rows && !Matches(row, key)
    ensures forall row :: multiset(kept)[row] == if Matches(row, key) then 0 else multiset(rows)[row]
  {
    assert |rows| > 0 ==> rows == [rows[0]] + rows[1..];
    if |rows| == 0 then []
    else if Matches(rows[0], key) then Unmatched(rows[1..], key)
    else [rows[0]] + Unmatched(rows[1..], key)
  }

  /** `delete`: the table after the statement, or why it was refused. */
  function Deleted(s: Schema, rows: seq<Row>, kws: seq<Keyword>): (res: Result<seq<Row>>)
    ensures res.Err? <==> Selector(s, kws).Err?
    ensures res.Err? ==> res.error == Selector(s, kws).error
  {
    match Selector(s, kws)
    case Err(e) => Err(e)
    case Ok(key) => Ok(Unmatched(rows, key))
  }

  /** The position of the row `fetchone` returns first. */
  function FirstMatch(rows: seq<Row>, key: Keyword): (i: nat)
    ensures i <= |rows|
    ensures i < |rows| ==> Matches(rows[i], key)
    ensures forall j :: 0 <= j < i ==> !Matches(rows[j], key)
  {
    if |rows| == 0 then 0
    else if Matches(rows[0], key) then 0
    else 1 + FirstMatch(rows[1..], key)
  }

  /** `get`: the first matching row as a record. */
  function Get(s: Schema, rows: seq<Row>, kws: seq<Keyword>): (res: Result<KernelRecord>)
    ensures Selector(s, kws).Err? ==> res == Err(Selector(s, kws).error)
    ensures Selector(s, kws).Ok? ==> (res.Ok? <==> exists i :: 0 <= i < |rows| && Matches(rows[i], kws[0]))
    ensures res.Err? && Selector(s, kws).Ok? ==> res.error == NoMatch
    ensures res.Ok? ==> exists i :: 0 <= i < |rows| && Matches(rows[i], kws[0]) && res.value == RowToRecord(s, rows[i])
    ensures res.Ok? ==> FirstMatch(rows, kws[0]) < |rows| && res.value == RowToRecord(s, rows[FirstMatch(rows, kws[0])])
  {
    match Selector(s, kws)
    case Err(e) => Err(e)
    case Ok(key) =>
      var i := FirstMatch(rows, key);
      if i < |rows| then Ok(RowToRecord(s, rows[i])) else Err(NoMatch)
  }

  /**
   * The test `update` applies to one identifier field: a truthy value that
   * `exists(**{field: value})` reports. For remote_id that call builds a
   * record without a kernel_id, so it asks for a kernel_id of "None".
   */
  predicate UpdateFinds(s: Schema, rows: seq<Row>, r: KernelRecord, f: Field)
    requires f in IdentifierFields(s)
  {
    TruthyText(TextOf(r, f)) && Exists(s, rows, [Keyword(f, TextOf(r, f))]) == Ok(true)
  }

  /** The identifier field `update` settles on: the first that `UpdateFinds`. */
  function UpdateField(s: Schema, rows: seq<Row>, r: KernelRecord): (res: Option<Field>)
    ensures res.Some? ==> res.value in IdentifierFields(s) && UpdateFinds(s, rows, r, res.value)
    ensures res.Some? && res.value == RemoteId ==> !UpdateFinds(s, rows, r, KernelId)
    ensures res.None? ==> forall f :: f in IdentifierFields(s) ==> !UpdateFinds(s, rows, r, f)
  {
    if UpdateFinds(s, rows, r, KernelId) then Some(KernelId)
    else if s == WithRemoteId && UpdateFinds(s, rows, r, RemoteId) then Some(RemoteId)
    else None
  }

  /** `UPDATE ... SET <column fields> WHERE field='value'` applied to every row. */
  function Overwritten(rows: seq<Row>, key: Keyword, cells: Row): (rs: seq<Row>)
    ensures |rs| == |rows|
    ensures forall i :: 0 <= i < |rows| ==> rs[i] == if Matches(rows[i], key) then rows[i] + cells else rows[i]
  {
    seq(|rows|, i requires 0 <= i < |rows| => if Matches(rows[i], key) then rows[i] + cells else rows[i])
  }

  /** `update`: the table after the statement, or NotSaved when no identifier was found. */
  function Updated(s: Schema, rows: seq<Row>, r: KernelRecord): (res: Result<seq<Row>>)
    ensures res.Err? <==> forall f :: f in IdentifierFields(s) ==> !UpdateFinds(s, rows, r, f)
    ensures res.Err? ==> res.error == NotSaved
    ensures res.Ok? ==> |res.value| == |rows|
  {
    match UpdateField(s, rows, r)
    case None => Err(NotSaved)
    case Some(f) => Ok(Overwritten(rows, Keyword(f, TextOf(r, f)), ColumnFields(s, r)))
  }

  /** Bytes, for the header of a database file. */
  newtype byte = x: int | 0 <= x < 256

  /** `b"SQLite format 3"` */
  const SqliteMagic: seq<byte> := [83, 81, 76, 105, 116, 101, 32, 102, 111, 114, 109, 97, 116, 32, 51]

  /** What the file system holds at a path. */
  datatype PathState = Missing | Directory | File(contents: seq<byte>)

  function Header(contents: seq<byte>): (h: seq<byte>)
    ensures |h| <= 100 && h <= contents
  {
    if |contents| <= 100 then contents else contents[..100]
  }

  /** `_validate_database_filepath` */
  function ValidateDatabasePath(value: string, state: PathState): (res: Result<string>)
    ensures res.Ok? ==> res.value == value
    ensures res.Err? ==> value != ":memory:" && !state.Missing?
  {
    if value == ":memory:" then Ok(value)
    else match state
      case Missing => Ok(value)
      case Directory => Err(PathIsDirectory)
      case File(contents) =>
        var header := Header(contents);
        if !(SqliteMagic <= header) && header != [] then Err(NotADatabase) else Ok(value)
  }

  /**
   * Reading only the first 100 bytes loses nothing: a file is accepted
   * exactly when it is empty or its contents begin with the magic string.
   */
  lemma {:induction false} ValidatedFileIsDatabase(value: string, contents: seq<byte>)
    requires value != ":memory:"
    ensures ValidateDatabasePath(value, File(contents)).Ok? <==> contents == [] || SqliteMagic <= contents
  {
    var header := Header(contents);
    if SqliteMagic <= contents {
      assert |SqliteMagic| == 15;
      assert header[..15] == contents[..15];
    }
    if SqliteMagic <= header {
      assert contents[..15] == header[..15];
    }
  }

  /** Directories are always refused, a missing file never is. */
  /** A path whose connection opens an empty database: in memory, a file to be created, or an empty file. */
  predicate NewDatabase(path: string, state: PathState) {
    path == ":memory:" || state == Missing || state == File([])
  }

  lemma PathStatesDecide(value: string)
    ensures value != ":memory:" ==> ValidateDatabasePath(value, Directory) == Err(PathIsDirectory)
    ensures ValidateDatabasePath(value, Missing) == Ok(value)
    ensures ValidateDatabasePath(":memory:", Directory) == Ok(":memory:")
  {
  }

  /** Saving a record and getting it back by its kernel_id returns the stored columns. */
  lemma {:induction false} SaveThenGet(s: Schema, rows: seq<Row>, r: KernelRecord)
    requires TruthyText(r.kernelId)
    requires forall i :: 0 <= i < |rows| ==> !Matches(rows[i], Keyword(KernelId, r.kernelId))
    ensures SavedRow(s, r).Ok?
    ensures Get(s, rows + [SavedRow(s, r).value], [Keyword(KernelId, r.kernelId)])
      == Ok(RowToRecord(s, ColumnFields(s, r)))
  {
    assert KernelId in Columns(s) && Active(r, KernelId);
    var row := SavedRow(s, r).value;
    var rows' := rows + [row];
    var key := Keyword(KernelId, r.kernelId);
    assert [key][0] == key;
    assert Selector(s, [key]) == Ok(key);
    assert Matches(rows'[|rows|], key);
    var i := FirstMatch(rows', key);
    assert i == |rows|;
    assert rows'[i] == ColumnFields(s, r);
  }

  /** The stored record agrees with the saved one on every column it had a truthy value for. */
  lemma SavedColumnsRoundTrip(s: Schema, r: KernelRecord)
    ensures forall f :: f in Columns(s) ==>
      TextOf(RowToRecord(s, ColumnFields(s, r)), f) == if Active(r, f) then TextOf(r, f) else None
  {
  }

  /** After deleting by a value, getting by the same value finds nothing. */
  lemma {:induction false} DeleteThenGet(s: Schema, rows: seq<Row>, kws: seq<Keyword>)
    requires Selector(s, kws).Ok?
    ensures Deleted(s, rows, kws).Ok?
    ensures Get(s, Deleted(s, rows, kws).value, kws) == Err(NoMatch)
  {
    var kept := Deleted(s, rows, kws).value;
    forall i | 0 <= i < |kept|
      ensures !Matches(kept[i], kws[0])
    {
      assert kept[i] in kept;
    }
  }

  /** `exists` looks only at kernel_id: the same table answers alike for any other keywords. */
  lemma ExistsOnlyReadsKernelId(s: Schema, rows: seq<Row>, kws: seq<Keyword>, kws': seq<Keyword>)
    requires Exists(s, rows, kws).Ok? && Exists(s, rows, kws').Ok?
    requires KernelIdText(kws) == KernelIdText(kws')
    ensures Exists(s, rows, kws) == Exists(s, rows, kws')
  {
  }

  /**
   * Asking `exists` about a remote id finds the row holding that remote id
   * only if it also holds the kernel_id "None".
   */
  lemma RemoteIdExistsAsksForNone(rows: seq<Row>, remote: string)
    ensures Exists(WithRemoteId, rows, [Keyword(RemoteId, Some(remote))])
      == Ok(exists i :: 0 <= i < |rows| && KernelId in rows[i] && rows[i][KernelId] == "None")
  {
    assert KeywordValue([Keyword(RemoteId, Some(remote))], KernelId) == None;
  }

  /** Updating never adds or removes rows, and keeps rows that do not hold the identifier. */
  lemma {:induction false} UpdateKeepsOtherRows(s: Schema, rows: seq<Row>, r: KernelRecord)
    requires Updated(s, rows, r).Ok?
    ensures |Updated(s, rows, r).value| == |rows|
    ensures forall i :: 0 <= i < |rows| && !Matches(rows[i], Keyword(UpdateField(s, rows, r).value, TextOf(r, UpdateField(s, rows, r).value))) ==>
      Updated(s, rows, r).value[i] == rows[i]
  {
  }

  /**
   * The test of the custom-record update: a saved {kernel_id} row updated by
   * a record carrying the same kernel_id and a remote_id reads back with both.
   */
  lemma UpdateAddsRemoteId(k: string, remote: string)
    requires k != "" && remote != ""
    ensures Updated(WithRemoteId, [map[KernelId := k]], KernelRecord(Some(k), None, None, None, None, Some(remote)))
      == Ok([map[KernelId := k, RemoteId := remote]])
  {
    var r := KernelRecord(Some(k), None, None, None, None, Some(remote));
    var rows := [map[KernelId := k]];
    UpdateFindsKernelId(k, r, rows);
    KernelAndRemoteCells(k, remote, r);
    var after := Overwritten(rows, Keyword(KernelId, Some(k)), ColumnFields(WithRemoteId, r));
    assert Matches(rows[0], Keyword(KernelId, Some(k)));
    assert after[0] == map[KernelId := k, RemoteId := remote];
    assert after == [map[KernelId := k, RemoteId := remote]];
  }

  /** A row holding kernel id `k` is found by the kernel_id of a record carrying `k`. */
  lemma UpdateFindsKernelId(k: string, r: KernelRecord, rows: seq<Row>)
    requires k != "" && r.kernelId == Some(k) && rows == [map[KernelId := k]]
    ensures UpdateField(WithRemoteId, rows, r) == Some(KernelId)
  {
    assert KeywordValue([Keyword(KernelId, Some(k))], KernelId) == Some(Some(k));
    assert KernelId in rows[0] && rows[0][KernelId] == k;
    assert UpdateFinds(WithRemoteId, rows, r, KernelId);
  }

  /** The cells written for a record with only a kernel id and a remote id. */
  lemma KernelAndRemoteCells(k: string, remote: string, r: KernelRecord)
    requires k != "" && remote != "" && r == KernelRecord(Some(k), None, None, None, None, Some(remote))
    ensures ColumnFields(WithRemoteId, r) == map[KernelId := k, RemoteId := remote]
  {
    var cells := ColumnFields(WithRemoteId, r);
    assert cells.Keys == {KernelId, RemoteId} by {
      assert KernelId in cells && RemoteId in cells;
      assert KernelName !in cells;
    }
  }

  /** The server's kernel table. */
  class KernelTable {
    const schema: Schema
    var databaseFilepath: string
    var rows: seq<Row>

    /** Every row holds only the schema's columns and no empty text. */
    predicate Valid()
      reads this
    {
      forall i :: 0 <= i < |rows| ==> WellFormed(schema, rows[i])
    }

    /**
     * A table at the configured path over the rows its database already
     * holds: none in memory, for a file that does not exist yet or for an
     * empty file; the rows an earlier server saved for a database file it
     * reopens.
     */
    constructor (schema: Schema, path: string, state: PathState, stored: seq<Row>)
      requires ValidateDatabasePath(path, state).Ok?
      requires NewDatabase(path, state) ==> stored == []
      requires forall i :: 0 <= i < |stored| ==> WellFormed(schema, stored[i])
      ensures this.schema == schema && databaseFilepath == path && rows == stored
      ensures Valid()
    {
      this.schema := schema;
      databaseFilepath := path;
      rows := stored;
    }

    /** Assigning `database_filepath`: the validator keeps a refused value out. */
    method SetDatabaseFilepath(value: string, state: PathState) returns (res: Outcome)
      modifies this
      ensures rows == old(rows)
      ensures ValidateDatabasePath(value, state).Ok? ==> res == Pass && databaseFilepath == value
      ensures ValidateDatabasePath(value, state).Err? ==>
        res == Fail(ValidateDatabasePath(value, state).error) && databaseFilepath == old(databaseFilepath)
    {
      var checked := ValidateDatabasePath(value, state);
      if checked.Err? {
        return Fail(checked.error);
      }
      databaseFilepath := checked.value;
      return Pass;
    }

    /** `save`: append the record's truthy columns as a row. */
    method Save(r: KernelRecord) returns (res: Outcome)
      requires Valid()
      modifies this
      ensures Valid()
      ensures SavedRow(schema, r).Ok? ==> res == Pass && rows == old(rows) + [SavedRow(schema, r).value]
      ensures SavedRow(schema, r).Err? ==> res == Fail(NothingToSave) && rows == old(rows)
    {
      var saved := SavedRow(schema, r);
      if saved.Err? {
        return Fail(saved.error);
      }
      rows := rows + [saved.value];
      return Pass;
    }

    /** `delete` */
    method Delete(kws: seq<Keyword>) returns (res: Outcome)
      requires Valid()
      modifies this
      ensures Valid()
      ensures Deleted(schema, old(rows), kws).Ok? ==> res == Pass && rows == Deleted(schema, old(rows), kws).value
      ensures Deleted(schema, old(rows), kws).Err? ==>
        res == Fail(Deleted(schema, old(rows), kws).error) && rows == old(rows)
    {
      var after := Deleted(schema, rows, kws);
      if after.Err? {
        return Fail(after.error);
      }
      forall i | 0 <= i < |after.value|
        ensures WellFormed(schema, after.value[i])
      {
        assert after.value[i] in rows;
      }
      rows := after.value;
      return Pass;
    }

    /**
     * `update`: look for the first identifier field whose truthy value
     * `exists` reports, then overwrite the columns of the rows holding it.
     */
    method Update(r: KernelRecord) returns (res: Outcome)
      requires Valid()
      modifies this
      ensures Valid()
      ensures Updated(schema, old(rows), r).Ok? ==> res == Pass && rows == Updated(schema, old(rows), r).value
      ensures Updated(schema, old(rows), r).Err? ==> res == Fail(NotSaved) && rows == old(rows)
    {
      var ids := IdentifierFields(schema);
      var found := false;
      var i := 0;
      while i < |ids| && !found
        invariant 0 <= i <= |ids|
        invariant found ==> i < |ids| && UpdateFinds(schema, rows, r, ids[i])
        invariant forall j :: 0 <= j < i ==> !UpdateFinds(schema, rows, r, ids[j])
        decreases |ids| - i, if found then 0 else 1
      {
        var value := TextOf(r, ids[i]);
        if TruthyText(value) && Exists(schema, rows, [Keyword(ids[i], value)]) == Ok(true) {
          found := true;
        } else {
          i := i + 1;
        }
      }
      if !found {
        return Fail(NotSaved);
      }
      var field := ids[i];
      assert UpdateField(schema, rows, r) == Some(field) by {
        if field == RemoteId {
          assert ids[0] == KernelId;
        }
      }
      var cells := ColumnFields(schema, r);
      var after := Overwritten(rows, Keyword(field, TextOf(r, field)), cells);
      forall j | 0 <= j < |after|
        ensures WellFormed(schema, after[j])
      {
        assert WellFormed(schema, rows[j]);
      }
      rows := after;
      return Pass;
    }
  }
}
