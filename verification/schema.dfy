/** The schema graph: columns, indexes, foreign keys, tables and the
    database that owns them.  The source mutates these objects while the
    builder runs; here every update yields a new value. */
module Schema {
  import opened Common

  /** One table column as read from the catalog.  `sqlType` is the raw
      catalog type name; the optional fields are `undefined` in the source
      when the catalog has no value. */
  datatype Column = Column(
    name: string,
    sqlType: string,
    isNullable: bool,
    isPrimary: bool,
    isUnique: bool,
    defaultValue: Option<string>,
    isIdentity: bool,
    length: Option<int>,
    precision: Option<int>,
    scale: Option<int>)

  /** A named index over ordered column names.  A primary key is an index
      with both flags set. */
  datatype Index = Index(name: string, columns: seq<string>, isPrimaryKey: bool, isUnique: bool)

  /** A foreign key from `sourceTable` to `targetTable`; the two column
      lists are paired by position. */
  datatype ForeignKey = ForeignKey(
    name: string,
    sourceTable: string,
    sourceColumns: seq<string>,
    targetTable: string,
    targetColumns: seq<string>)

  datatype Table = Table(
    name: string,
    schema: string,
    columns: seq<Column>,
    foreignKeys: seq<ForeignKey>,
    indexes: seq<Index>,
    inverseForeignKeys: seq<ForeignKey>,
    pkName: Option<string>)

  datatype Database = Database(schema: string, tables: seq<Table>)

  // ---------------------------------------------------------------------
  // Table
  // ---------------------------------------------------------------------

  /** `new Table(name, schema)`: every list defaults to empty and the
      primary-key name is unset. */
  function NewTable(name: string, schema: string): (t: Table)
    ensures t.name == name && t.schema == schema
    ensures t.columns == [] && t.foreignKeys == [] && t.indexes == [] && t.inverseForeignKeys == []
    ensures t.pkName.None?
  {
    Table(name, schema, [], [], [], [], None)
  }

  /** Position of the first column called `name`, or `|cols|`. */
  function FindColumn(cols: seq<Column>, name: string): (i: nat)
    ensures i <= |cols|
    ensures i < |cols| ==> cols[i].name == name
    ensures forall j :: 0 <= j < i ==> cols[j].name != name
  {
    if cols == [] then 0
    else if cols[0].name == name then 0
    else 1 + FindColumn(cols[1..], name)
  }

  /** `getColumn`: the first column with exactly this name (case-sensitive). */
  function GetColumn(t: Table, name: string): (r: Option<Column>)
    ensures r.None? <==> forall j :: 0 <= j < |t.columns| ==> t.columns[j].name != name
    ensures r.Some? ==> exists i :: 0 <= i < |t.columns| && t.columns[i] == r.value
                                   && r.value.name == name
                                   && forall j :: 0 <= j < i ==> t.columns[j].name != name
  {
    var i := FindColumn(t.columns, name);
    if i < |t.columns| then Some(t.columns[i]) else None
  }

  predicate IsPrimaryColumn(c: Column) { c.isPrimary }

  /** `primaryColumns`: the columns flagged primary, in column order. */
  function PrimaryColumns(t: Table): (r: seq<Column>)
    ensures forall i :: 0 <= i < |r| ==> r[i] in t.columns && r[i].isPrimary
    ensures forall i :: 0 <= i < |t.columns| && t.columns[i].isPrimary ==> t.columns[i] in r
    ensures forall c :: multiset(r)[c] == if c.isPrimary then multiset(t.columns)[c] else 0
  {
    FilterMultiset(t.columns, IsPrimaryColumn);
    Filter(t.columns, IsPrimaryColumn)
  }

  /** The primary columns of a column list split in two are those of the
      first part followed by those of the second: column order is kept. */
  lemma PrimaryColumnsKeepOrder(t: Table, a: seq<Column>, b: seq<Column>)
    requires t.columns == a + b
    ensures PrimaryColumns(t) == PrimaryColumns(t.(columns := a)) + PrimaryColumns(t.(columns := b))
  {
    FilterAppend(a, b, IsPrimaryColumn);
  }

  /** `setPrimaryKey` changes the primary-key name and nothing else. */
  function SetPrimaryKey(t: Table, pkName: string): (r: Table)
    ensures r.pkName == Some(pkName)
    ensures r.(pkName := t.pkName) == t
  {
    t.(pkName := Some(pkName))
  }

  // ---------------------------------------------------------------------
  // Database
  // ---------------------------------------------------------------------

  function NewDatabase(schema: string): (db: Database)
    ensures db.schema == schema && db.tables == []
  {
    Database(schema, [])
  }

  /** `addTable` appends, with no uniqueness check. */
  function AddTable(db: Database, t: Table): (r: Database)
    ensures r.schema == db.schema
    ensures |r.tables| == |db.tables| + 1
    ensures r.tables[..|db.tables|] == db.tables && r.tables[|db.tables|] == t
  {
    db.(tables := db.tables + [t])
  }

  /** Position of the first table called `name`, or `|ts|`. */
  function FindTable(ts: seq<Table>, name: string): (i: nat)
    ensures i <= |ts|
    ensures i < |ts| ==> ts[i].name == name
    ensures forall j :: 0 <= j < i ==> ts[j].name != name
  {
    if ts == [] then 0
    else if ts[0].name == name then 0
    else 1 + FindTable(ts[1..], name)
  }

  /** `getTableByName`: the first table with exactly this name. */
  function GetTableByName(db: Database, name: string): (r: Option<Table>)
    ensures r.None? <==> forall j :: 0 <= j < |db.tables| ==> db.tables[j].name != name
    ensures r.Some? ==> exists i :: 0 <= i < |db.tables| && db.tables[i] == r.value
                                   && r.value.name == name
                                   && forall j :: 0 <= j < i ==> db.tables[j].name != name
  {
    var i := FindTable(db.tables, name);
    if i < |db.tables| then Some(db.tables[i]) else None
  }

  /** After `addTable(t)` a lookup of `t.name` succeeds; it returns the
      earliest table of that name, which is `t` only if none came before. */
  lemma AddTableThenGet(db: Database, t: Table)
    ensures GetTableByName(AddTable(db, t), t.name).Some?
    ensures GetTableByName(db, t.name).Some? ==>
              GetTableByName(AddTable(db, t), t.name) == GetTableByName(db, t.name)
    ensures GetTableByName(db, t.name).None? ==>
              GetTableByName(AddTable(db, t), t.name) == Some(t)
  {
    var ts := db.tables + [t];
    var i := FindTable(ts, t.name);
    assert ts[|db.tables|] == t;
    assert i <= |db.tables|;
    var k := FindTable(db.tables, t.name);
    if k < |db.tables| {
      assert ts[k] == db.tables[k];
      assert i == k;
    } else {
      assert i == |db.tables|;
    }
  }
}
