/** The storage layer's data model and an abstract storage engine (storage/storage.h).

    The header declares the page structures, their constants and the engine's public
    interface, as signatures only; the engine's implementation and the page algorithms
    are not part of this model. What each engine call does is therefore an assumption
    of the model, chosen to match how query/parser.cpp uses the results: the tables form
    a map from table name to the table's columns and its live records in insertion order.
    `AddTable`, `AppendRecord`, `ReplaceRecord`, `RemoveRecord`, `RowsOf` and `ColumnsOf`
    fix what each call does to that map, and the `StorageEngine` class performs them on
    its `tables` field. */
module Storage {
  import opened Common
  import opened Values

  newtype u8 = x: int | 0 <= x < 0x100
  newtype u16 = x: int | 0 <= x < 0x1_0000
  newtype u32 = x: int | 0 <= x < 0x1_0000_0000

  /** The size of a page in bytes. */
  const PAGE_SIZE: u32 := 8192
  /** The bytes at the start of a page that belong to its header. */
  const PAGE_HEADER_RESERVED: u16 := 64

  /** A column: its name and the name of its type ("INT", "FLOAT" or "STRING"). */
  datatype Column = Column(name: string, typ: string)

  /** A table's full schema: its columns in order and the name of its primary key. */
  datatype TableSchema = TableSchema(columns: seq<Column>, primaryKey: string)

  /** A table's name with its columns. */
  datatype TableMeta = TableMeta(tableName: string, columns: seq<Column>)

  /** One entry of a page's slot directory; `active` is false for a deleted record. */
  datatype SlotEntry = SlotEntry(offset: u16, length: u16, active: bool)

  /** The `SlotEntry` constructor with its default arguments: offset 0, length 0, active. */
  function NewSlotEntry(o: u16 := 0, l: u16 := 0, a: bool := true): (e: SlotEntry)
    ensures e.offset == o && e.length == l && e.active == a
  {
    SlotEntry(o, l, a)
  }

  /** A slot entry built with no arguments is an active entry at offset 0 with length 0. */
  lemma NewSlotEntryDefaults()
    ensures NewSlotEntry() == SlotEntry(0, 0, true)
  {
  }

  /** A fixed-size page: a header, a slot directory and a byte buffer of `PAGE_SIZE` bytes. */
  class Page {
    var pageID: u32
    var slotCount: u16
    var freeSpaceOffset: u16
    var slots: seq<SlotEntry>
    var data: array<u8>

    /** The buffer has exactly `PAGE_SIZE` bytes, the free-space offset lies between the
        header and the end of the page, and the directory holds `slotCount` entries. */
    ghost predicate Valid()
      reads this
    {
      data.Length == PAGE_SIZE as int
      && PAGE_HEADER_RESERVED <= freeSpaceOffset && freeSpaceOffset as int <= PAGE_SIZE as int
      && slotCount as int == |slots|
    }

    /** A fresh page: id 0, no slots, data starting right after the header, all bytes zero. */
    constructor()
      ensures pageID == 0 && slotCount == 0 && freeSpaceOffset == PAGE_HEADER_RESERVED && slots == []
      ensures fresh(data) && data.Length == PAGE_SIZE as int
      ensures forall i :: 0 <= i < data.Length ==> data[i] == 0
      ensures Valid()
    {
      pageID := 0;
      slotCount := 0;
      freeSpaceOffset := PAGE_HEADER_RESERVED;
      slots := [];
      data := new u8[PAGE_SIZE as int](_ => 0);
    }

    /** `usedDataBytes`: the bytes in use, header included; on a valid page it lies
        between the header size and the page size. */
    function UsedDataBytes(): (n: u16)
      reads this
      ensures Valid() ==> PAGE_HEADER_RESERVED <= n && n as int <= PAGE_SIZE as int
    {
      freeSpaceOffset
    }
  }

  /** A table as the engine's interface shows it: its columns, and its live records in
      insertion order. */
  datatype Table = Table(columns: seq<Column>, rows: seq<Record>)

  type Db = map<string, Table>

  /** What a mutator reports, and the tables after it. */
  datatype Change = Change(ok: bool, db: Db)

  /** The column types a table may be created with. */
  predicate ValidType(typ: string) {
    ParseColType(typ).Some?
  }

  /** `typeStringMatchesValue`: the value is of the named column type. */
  predicate TypeMatches(typ: string, v: Value) {
    (typ == "INT" && v.IntV?) || (typ == "FLOAT" && v.FloatV?) || (typ == "STRING" && v.StrV?)
  }

  /** A value matches a type name exactly when the name is a column type and the value has it. */
  lemma TypeMatchesNamedType(typ: string, v: Value)
    ensures TypeMatches(typ, v) <==> ParseColType(typ).Some? && HasType(v, ParseColType(typ).value)
  {
  }

  /** A record has the shape of the columns: one field per column, each of the column's
      type. A table created without a schema has no columns to check against. */
  predicate Conforms(columns: seq<Column>, rec: Record) {
    columns == []
    || (|rec.fields| == |columns| && forall i :: 0 <= i < |columns| ==> TypeMatches(columns[i].typ, rec.fields[i]))
  }

  /** Field 0 of the record is the int `id`. */
  predicate HasId(rec: Record, id: int) {
    |rec.fields| > 0 && rec.fields[0] == IntV(id)
  }

  /** The position of the first row whose id is `id`, or `|rows|` when there is none. */
  function IdIndex(rows: seq<Record>, id: int): (k: nat)
    ensures k <= |rows|
    ensures forall j :: 0 <= j < k ==> !HasId(rows[j], id)
    ensures k < |rows| ==> HasId(rows[k], id)
  {
    if rows == [] then 0
    else if HasId(rows[0], id) then 0
    else 1 + IdIndex(rows[1..], id)
  }

  /** `createTable(name, columns)`: fails when the name is taken or a column type is not
      INT, FLOAT or STRING; otherwise adds an empty table with those columns. */
  function AddTable(db: Db, name: string, columns: seq<Column>): (c: Change)
    ensures c.ok <==> name !in db && forall i :: 0 <= i < |columns| ==> ValidType(columns[i].typ)
    ensures c.ok ==> c.db.Keys == db.Keys + {name} && ColumnsOf(c.db, name) == columns && RowsOf(c.db, name) == []
    ensures !c.ok ==> c.db == db
  {
    if name in db || !(forall i :: 0 <= i < |columns| ==> ValidType(columns[i].typ)) then Change(false, db)
    else Change(true, db[name := Table(columns, [])])
  }

  /** `createTable(name)`, the overload without a schema: adds an empty table with no columns. */
  function AddLegacyTable(db: Db, name: string): (c: Change)
    ensures c.ok <==> name !in db
    ensures c.ok ==> c.db.Keys == db.Keys + {name} && ColumnsOf(c.db, name) == [] && RowsOf(c.db, name) == []
    ensures !c.ok ==> c.db == db
  {
    if name in db then Change(false, db) else Change(true, db[name := Table([], [])])
  }

  /** `insertRecord`: fails on an unknown table or a record of the wrong shape; otherwise
      the record goes after the table's existing ones. */
  function AppendRecord(db: Db, name: string, rec: Record): (c: Change)
    ensures c.ok <==> name in db && Conforms(db[name].columns, rec)
    ensures c.db.Keys == db.Keys && ColumnsOf(c.db, name) == ColumnsOf(db, name)
    ensures c.ok ==> RowsOf(c.db, name) == RowsOf(db, name) + [rec]
    ensures !c.ok ==> c.db == db
  {
    if name !in db || !Conforms(db[name].columns, rec) then Change(false, db)
    else Change(true, db[name := db[name].(rows := db[name].rows + [rec])])
  }

  /** `selectAll`: the table's records in insertion order; none for an unknown table. */
  function RowsOf(db: Db, name: string): seq<Record> {
    if name in db then db[name].rows else []
  }

  /** `getTableColumns`: the table's columns; none for an unknown table. */
  function ColumnsOf(db: Db, name: string): seq<Column> {
    if name in db then db[name].columns else []
  }

  /** `updateRecord`: replaces the first record whose id is `id`; fails when there is none. */
  function ReplaceRecord(db: Db, name: string, id: int, rec: Record): (c: Change)
    ensures c.ok <==> exists j :: 0 <= j < |RowsOf(db, name)| && HasId(RowsOf(db, name)[j], id)
    ensures c.db.Keys == db.Keys && ColumnsOf(c.db, name) == ColumnsOf(db, name)
    ensures c.ok ==> |RowsOf(c.db, name)| == |RowsOf(db, name)| && rec in RowsOf(c.db, name)
    ensures !c.ok ==> c.db == db
  {
    if name !in db then Change(false, db)
    else
      var rows := db[name].rows;
      var k := IdIndex(rows, id);
      if k == |rows| then Change(false, db)
      else
        assert RowsOf(db, name) == rows && HasId(RowsOf(db, name)[k], id) && rows[k := rec][k] == rec;
        Change(true, db[name := db[name].(rows := rows[k := rec])])
  }

  /** `deleteRecord`: removes the first record whose id is `id`; fails when there is none. */
  function RemoveRecord(db: Db, name: string, id: int): (c: Change)
    ensures c.ok <==> exists j :: 0 <= j < |RowsOf(db, name)| && HasId(RowsOf(db, name)[j], id)
    ensures c.db.Keys == db.Keys && ColumnsOf(c.db, name) == ColumnsOf(db, name)
    ensures c.ok ==> |RowsOf(c.db, name)| + 1 == |RowsOf(db, name)|
    ensures !c.ok ==> c.db == db
  {
    if name !in db then Change(false, db)
    else
      var rows := db[name].rows;
      var k := IdIndex(rows, id);
      if k == |rows| then Change(false, db)
      else
        assert RowsOf(db, name) == rows && HasId(RowsOf(db, name)[k], id);
        Change(true, db[name := db[name].(rows := rows[..k] + rows[k + 1..])])
  }

  /** The tables other than `name` are the same before and after. */
  ghost predicate OnlyTouches(db: Db, db': Db, name: string) {
    forall m :: m != name ==> (m in db <==> m in db') && (m in db ==> db'[m] == db[m])
  }

  /** No table disappears and no table's columns change. */
  ghost predicate KeepsSchemas(db: Db, db': Db) {
    forall m :: m in db ==> m in db' && db'[m].columns == db[m].columns
  }

  /** Every column type is valid and every record has its table's shape. */
  ghost predicate WellTyped(db: Db) {
    forall m :: m in db ==>
      (forall i :: 0 <= i < |db[m].columns| ==> ValidType(db[m].columns[i].typ))
      && (forall j :: 0 <= j < |db[m].rows| ==> Conforms(db[m].columns, db[m].rows[j]))
  }

  /** Each mutator changes at most the table it names, never changes the columns of a
      table and never removes one, and reports failure exactly when it leaves the tables
      as they were. */
  lemma MutatorsAreLocal(db: Db, name: string, columns: seq<Column>, rec: Record, id: int)
    ensures var c := AddTable(db, name, columns); OnlyTouches(db, c.db, name) && KeepsSchemas(db, c.db) && (!c.ok <==> c.db == db)
    ensures var c := AddLegacyTable(db, name); OnlyTouches(db, c.db, name) && KeepsSchemas(db, c.db) && (!c.ok <==> c.db == db)
    ensures var c := AppendRecord(db, name, rec); OnlyTouches(db, c.db, name) && KeepsSchemas(db, c.db) && (!c.ok <==> c.db == db)
    ensures var c := ReplaceRecord(db, name, id, rec); OnlyTouches(db, c.db, name) && KeepsSchemas(db, c.db) && (!c.ok ==> c.db == db)
    ensures var c := RemoveRecord(db, name, id); OnlyTouches(db, c.db, name) && KeepsSchemas(db, c.db) && (!c.ok <==> c.db == db)
  {
    AddLocal(db, AddTable(db, name, columns), name);
    AddLocal(db, AddLegacyTable(db, name), name);
    var a := AppendRecord(db, name, rec);
    if a.ok {
      assert |RowsOf(a.db, name)| == |RowsOf(db, name)| + 1;
    }
    RowsLocal(db, a, name);
    RowsLocal(db, ReplaceRecord(db, name, id, rec), name);
    var r := RemoveRecord(db, name, id);
    if r.ok {
      assert |RowsOf(r.db, name)| + 1 == |RowsOf(db, name)|;
    }
    RowsLocal(db, r, name);
  }

  /** A change that at most adds the table `name` touches only it and keeps every schema. */
  lemma AddLocal(db: Db, c: Change, name: string)
    requires !c.ok ==> c.db == db
    requires c.ok ==> name !in db && name in c.db && c.db == db[name := c.db[name]]
    ensures OnlyTouches(db, c.db, name) && KeepsSchemas(db, c.db)
  {
  }

  /** A change that at most replaces the rows of the existing table `name` touches only it
      and keeps every schema. */
  lemma RowsLocal(db: Db, c: Change, name: string)
    requires !c.ok ==> c.db == db
    requires c.ok ==> name in db && name in c.db && c.db == db[name := db[name].(rows := c.db[name].rows)]
    ensures OnlyTouches(db, c.db, name) && KeepsSchemas(db, c.db)
  {
  }

  /** A new table has the columns it was created with and no records. */
  lemma AddTableShows(db: Db, name: string, columns: seq<Column>)
    requires AddTable(db, name, columns).ok
    ensures var db' := AddTable(db, name, columns).db;
      ColumnsOf(db', name) == columns && RowsOf(db', name) == [] && (WellTyped(db) ==> WellTyped(db'))
  {
  }

  /** An inserted record is the table's last one, after the records it had before. */
  lemma AppendShows(db: Db, name: string, rec: Record)
    requires AppendRecord(db, name, rec).ok
    ensures RowsOf(AppendRecord(db, name, rec).db, name) == RowsOf(db, name) + [rec]
    ensures WellTyped(db) ==> WellTyped(AppendRecord(db, name, rec).db)
  {
    var db' := AppendRecord(db, name, rec).db;
    if WellTyped(db) {
      forall m | m in db'
        ensures forall j :: 0 <= j < |db'[m].rows| ==> Conforms(db'[m].columns, db'[m].rows[j])
      {
        if m == name {
          forall j | 0 <= j < |db'[m].rows| ensures Conforms(db'[m].columns, db'[m].rows[j]) {
            if j < |db[m].rows| {
              assert db'[m].rows[j] == db[m].rows[j];
            }
          }
        }
      }
    }
  }

  /** Deleting keeps every other record of the table, in order, and keeps the tables well typed. */
  lemma RemoveShows(db: Db, name: string, id: int)
    requires RemoveRecord(db, name, id).ok
    ensures var rows := RowsOf(db, name); var k := IdIndex(rows, id);
      k < |rows| && RowsOf(RemoveRecord(db, name, id).db, name) == rows[..k] + rows[k + 1..]
    ensures WellTyped(db) ==> WellTyped(RemoveRecord(db, name, id).db)
  {
    var db' := RemoveRecord(db, name, id).db;
    var rows := RowsOf(db, name);
    var k := IdIndex(rows, id);
    if WellTyped(db) {
      forall m | m in db'
        ensures forall j :: 0 <= j < |db'[m].rows| ==> Conforms(db'[m].columns, db'[m].rows[j])
      {
        if m == name {
          forall j | 0 <= j < |db'[m].rows| ensures Conforms(db'[m].columns, db'[m].rows[j]) {
            if j < k {
              assert db'[m].rows[j] == rows[j];
            } else {
              assert db'[m].rows[j] == rows[j + 1];
            }
          }
        }
      }
    }
  }

  /** Updating replaces exactly the first record with the id, and keeps the tables well
      typed when the new record has the table's shape. */
  lemma ReplaceShows(db: Db, name: string, id: int, rec: Record)
    requires ReplaceRecord(db, name, id, rec).ok
    ensures var rows := RowsOf(db, name); var k := IdIndex(rows, id);
      k < |rows| && RowsOf(ReplaceRecord(db, name, id, rec).db, name) == rows[k := rec]
    ensures WellTyped(db) && Conforms(ColumnsOf(db, name), rec) ==> WellTyped(ReplaceRecord(db, name, id, rec).db)
  {
    var db' := ReplaceRecord(db, name, id, rec).db;
    var rows := RowsOf(db, name);
    var k := IdIndex(rows, id);
    if WellTyped(db) && Conforms(ColumnsOf(db, name), rec) {
      forall m | m in db'
        ensures forall j :: 0 <= j < |db'[m].rows| ==> Conforms(db'[m].columns, db'[m].rows[j])
      {
        if m == name {
          forall j | 0 <= j < |db'[m].rows| ensures Conforms(db'[m].columns, db'[m].rows[j]) {
            if j != k {
              assert db'[m].rows[j] == rows[j];
            }
          }
        }
      }
    }
  }

  /** Inserting a record whose id no record of the table has, then deleting that id,
      gives back the tables as they were. */
  lemma InsertDeleteRoundTrip(db: Db, name: string, rec: Record, id: int)
    requires AppendRecord(db, name, rec).ok && HasId(rec, id)
    requires forall j :: 0 <= j < |RowsOf(db, name)| ==> !HasId(RowsOf(db, name)[j], id)
    ensures RemoveRecord(AppendRecord(db, name, rec).db, name, id) == Change(true, db)
  {
    var rows := db[name].rows;
    var db1 := AppendRecord(db, name, rec).db;
    var rows1 := rows + [rec];
    assert RowsOf(db, name) == rows;
    assert db1[name].rows == rows1;
    var k := IdIndex(rows1, id);
    assert k == |rows| by {
      forall j | 0 <= j < |rows| ensures !HasId(rows1[j], id) {
        assert rows1[j] == rows[j];
      }
      assert rows1[|rows|] == rec;
    }
    assert rows1[..k] + rows1[k + 1..] == rows;
    assert db1[name := db1[name].(rows := rows)] == db;
  }

  /** A record appended after a row with the id does not change where the id is first found. */
  lemma {:induction false} IdIndexAppend(rows: seq<Record>, r: Record, id: int)
    requires IdIndex(rows, id) < |rows|
    ensures IdIndex(rows + [r], id) == IdIndex(rows, id)
  {
    assert (rows + [r])[0] == rows[0];
    if !HasId(rows[0], id) {
      assert (rows + [r])[1..] == rows[1..] + [r];
      IdIndexAppend(rows[1..], r, id);
    }
  }

  /** Inserting a record whose id a row already has, then deleting that id, removes the
      older row and keeps the new record, last. */
  lemma AppendThenRemoveFirst(db: Db, name: string, rec: Record, id: int)
    requires AppendRecord(db, name, rec).ok && HasId(rec, id)
    requires exists j :: 0 <= j < |RowsOf(db, name)| && HasId(RowsOf(db, name)[j], id)
    ensures var rows := RowsOf(db, name); var k := IdIndex(rows, id); var c := RemoveRecord(AppendRecord(db, name, rec).db, name, id);
      k < |rows| && c.ok && RowsOf(c.db, name) == rows[..k] + rows[k + 1..] + [rec]
  {
    var rows := db[name].rows;
    var db1 := AppendRecord(db, name, rec).db;
    var rows1 := rows + [rec];
    assert RowsOf(db, name) == rows;
    assert db1[name].rows == rows1;
    var k := IdIndex(rows, id);
    IdIndexAppend(rows, rec, id);
    assert rows1[..k] == rows[..k];
    assert rows1[k + 1..] == rows[k + 1..] + [rec];
  }

  /** Deleting a record and inserting it again keeps the same records, but the record
      moves to the end of the table. */
  lemma DeleteReinsertMoves(db: Db, name: string, id: int)
    requires RemoveRecord(db, name, id).ok
    requires WellTyped(db)
    ensures var rows := RowsOf(db, name); var k := IdIndex(rows, id);
      var c := AppendRecord(RemoveRecord(db, name, id).db, name, rows[k]);
      c.ok && RowsOf(c.db, name) == rows[..k] + rows[k + 1..] + [rows[k]]
      && multiset(RowsOf(c.db, name)) == multiset(rows)
  {
    var rows := RowsOf(db, name);
    var k := IdIndex(rows, id);
    var db1 := RemoveRecord(db, name, id).db;
    RemoveShows(db, name, id);
    RowConforms(db, name, k);
    assert ColumnsOf(db1, name) == ColumnsOf(db, name);
    assert name in db1 && db1[name].columns == db[name].columns;
    MovedToEnd(rows, k);
  }

  /** A record of a well-typed table has the table's shape. */
  lemma RowConforms(db: Db, name: string, k: int)
    requires WellTyped(db) && name in db && 0 <= k < |db[name].rows|
    ensures Conforms(db[name].columns, db[name].rows[k])
  {
  }

  /** Moving one element of a sequence to its end keeps the same elements. */
  lemma MovedToEnd<T>(s: seq<T>, k: nat)
    requires k < |s|
    ensures multiset(s[..k] + s[k + 1..] + [s[k]]) == multiset(s)
  {
    assert s == s[..k] + [s[k]] + s[k + 1..];
  }

  /** Updating a record while keeping its id, then updating the same id back to the old
      record, gives back the tables as they were. */
  lemma ReplaceBack(db: Db, name: string, id: int, rec: Record)
    requires ReplaceRecord(db, name, id, rec).ok && HasId(rec, id)
    ensures var prev := RowsOf(db, name)[IdIndex(RowsOf(db, name), id)];
      ReplaceRecord(ReplaceRecord(db, name, id, rec).db, name, id, prev) == Change(true, db)
  {
    var rows := db[name].rows;
    assert RowsOf(db, name) == rows;
    var k := IdIndex(rows, id);
    var rows1 := rows[k := rec];
    var db1 := ReplaceRecord(db, name, id, rec).db;
    assert db1[name].rows == rows1;
    IdIndexReplace(rows, rec, id);
    assert rows1[k := rows[k]] == rows;
    assert db1[name := db1[name].(rows := rows)] == db;
  }

  /** Replacing the first row with the id by another row with it keeps where the id is found. */
  lemma IdIndexReplace(rows: seq<Record>, rec: Record, id: int)
    requires IdIndex(rows, id) < |rows| && HasId(rec, id)
    ensures IdIndex(rows[IdIndex(rows, id) := rec], id) == IdIndex(rows, id)
  {
    var k := IdIndex(rows, id);
    var rows1 := rows[k := rec];
    assert HasId(rows1[k], id);
    forall j | 0 <= j < k ensures !HasId(rows1[j], id) {
      assert rows1[j] == rows[j];
    }
  }

  /** Updating a record so that it loses its id, when no other record has that id, leaves
      nothing for a second update of the same id to find. */
  lemma ReplaceLosesId(db: Db, name: string, id: int, rec: Record, other: Record)
    requires ReplaceRecord(db, name, id, rec).ok && !HasId(rec, id)
    requires var rows := RowsOf(db, name); forall j :: IdIndex(rows, id) < j < |rows| ==> !HasId(rows[j], id)
    ensures ReplaceRecord(ReplaceRecord(db, name, id, rec).db, name, id, other).ok == false
  {
    var rows := db[name].rows;
    var k := IdIndex(rows, id);
    var rows1 := rows[k := rec];
    var db1 := ReplaceRecord(db, name, id, rec).db;
    assert RowsOf(db, name) == rows;
    assert db1[name].rows == rows1;
  }

  /** The first position with the id, found by a scan from the front. */
  method FindId(rows: seq<Record>, id: int) returns (k: nat)
    ensures k == IdIndex(rows, id)
  {
    k := 0;
    while k < |rows| && !HasId(rows[k], id)
      invariant k <= |rows|
      invariant forall j :: 0 <= j < k ==> !HasId(rows[j], id)
      decreases |rows| - k
    {
      k := k + 1;
    }
  }

  /** The storage engine: its tables and the calls the statements make on them. */
  class StorageEngine {
    var tables: Db

    /** A new engine has no tables. */
    constructor()
      ensures tables == map[]
    {
      tables := map[];
    }

    /** `createTable(name, columns)`. */
    method CreateTable(name: string, columns: seq<Column>) returns (ok: bool)
      modifies this
      ensures Change(ok, tables) == AddTable(old(tables), name, columns)
    {
      if name in tables || !(forall i :: 0 <= i < |columns| ==> ValidType(columns[i].typ)) {
        return false;
      }
      tables := tables[name := Table(columns, [])];
      return true;
    }

    /** `createTable(name)`, without a schema. */
    method CreateLegacyTable(name: string) returns (ok: bool)
      modifies this
      ensures Change(ok, tables) == AddLegacyTable(old(tables), name)
    {
      if name in tables {
        return false;
      }
      tables := tables[name := Table([], [])];
      return true;
    }

    /** `insertRecord`. */
    method InsertRecord(name: string, rec: Record) returns (ok: bool)
      modifies this
      ensures Change(ok, tables) == AppendRecord(old(tables), name, rec)
    {
      if name !in tables || !Conforms(tables[name].columns, rec) {
        return false;
      }
      tables := tables[name := tables[name].(rows := tables[name].rows + [rec])];
      return true;
    }

    /** `selectAll`. */
    method SelectAll(name: string) returns (rows: seq<Record>)
      ensures rows == RowsOf(tables, name)
    {
      rows := if name in tables then tables[name].rows else [];
    }

    /** `getTableColumns`. */
    function GetTableColumns(name: string): (columns: seq<Column>)
      reads this
      ensures columns == ColumnsOf(tables, name)
    {
      if name in tables then tables[name].columns else []
    }

    /** `updateRecord`: scans the table for the first record with the id. */
    method UpdateRecord(name: string, id: int, rec: Record) returns (ok: bool)
      modifies this
      ensures Change(ok, tables) == ReplaceRecord(old(tables), name, id, rec)
    {
      if name !in tables {
        return false;
      }
      var rows := tables[name].rows;
      var k := FindId(rows, id);
      if k == |rows| {
        return false;
      }
      tables := tables[name := tables[name].(rows := rows[k := rec])];
      return true;
    }

    /** `deleteRecord`: scans the table for the first record with the id. */
    method DeleteRecord(name: string, id: int) returns (ok: bool)
      modifies this
      ensures Change(ok, tables) == RemoveRecord(old(tables), name, id)
    {
      if name !in tables {
        return false;
      }
      var rows := tables[name].rows;
      var k := FindId(rows, id);
      if k == |rows| {
        return false;
      }
      tables := tables[name := tables[name].(rows := rows[..k] + rows[k + 1..])];
      return true;
    }
  }
}
