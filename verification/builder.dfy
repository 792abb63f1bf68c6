/** The schema builder of src/core/schema/mssql/builder.ts: four flat row
    lists folded into a `Database`.

    Each of the source's loops is modelled as the same fold: rows are
    grouped by key (module Grouping), and each group is then applied to the
    table its key names, if that table exists (`ApplyAll`).  The lemmas
    at the end of the module describe the finished graph table by table,
    directly in terms of the input rows. */
module Builder {
  import opened Common
  import opened Grouping
  import opened Schema

  // ---------------------------------------------------------------------
  // Catalog rows
  // ---------------------------------------------------------------------

  datatype ColumnRow = ColumnRow(
    tableName: string,
    columnName: string,
    dataType: string,
    isNullable: bool,
    isIdentity: bool,
    maxLength: Option<int>,
    precision: Option<int>,
    scale: Option<int>,
    defaultValue: Option<string>)

  datatype PrimaryKeyRow = PrimaryKeyRow(tableName: string, pkName: string, columnName: string)

  datatype IndexRow = IndexRow(tableName: string, indexName: string, isUnique: bool, columnName: string)

  datatype ForeignKeyRow = ForeignKeyRow(
    fkName: string,
    sourceTable: string,
    sourceColumn: string,
    targetTable: string,
    targetColumn: string)

  function ColumnRowTable(r: ColumnRow): string { r.tableName }
  function PkRowTable(r: PrimaryKeyRow): string { r.tableName }
  function FkRowName(r: ForeignKeyRow): string { r.fkName }

  /** Secondary-index rows are grouped under the single string
      `tableName + "::" + indexName`, not under the pair. */
  function IndexRowKey(r: IndexRow): string { r.tableName + "::" + r.indexName }

  // ---------------------------------------------------------------------
  // Step 1: tables and columns
  // ---------------------------------------------------------------------

  /** A fresh column: both key flags start false. */
  function NewColumn(r: ColumnRow): Column
  {
    Column(r.columnName, r.dataType, r.isNullable, false, false, r.defaultValue,
           r.isIdentity, r.maxLength, r.precision, r.scale)
  }

  function NewColumns(rows: seq<ColumnRow>): (cs: seq<Column>)
    ensures |cs| == |rows|
    ensures forall i :: 0 <= i < |rows| ==> cs[i] == NewColumn(rows[i])
  {
    seq(|rows|, i requires 0 <= i < |rows| => NewColumn(rows[i]))
  }

  /** One table per distinct table name, created on first sight, each
      holding the columns of its rows in row order. */
  function CreateTables(schema: string, rows: seq<ColumnRow>): seq<Table>
  {
    var gs := GroupBy(rows, ColumnRowTable);
    seq(|gs|, i requires 0 <= i < |gs| => NewTable(gs[i].key, schema).(columns := NewColumns(gs[i].rows)))
  }

  // ---------------------------------------------------------------------
  // Step 2 and 3: key groups
  // ---------------------------------------------------------------------

  datatype PkGroup = PkGroup(tableName: string, pkName: string, columns: seq<string>)

  datatype IndexGroup = IndexGroup(tableName: string, indexName: string, isUnique: bool, columns: seq<string>)

  function PkColumnNames(rows: seq<PrimaryKeyRow>): (ns: seq<string>)
    ensures |ns| == |rows|
    ensures forall i :: 0 <= i < |rows| ==> ns[i] == rows[i].columnName
  {
    seq(|rows|, i requires 0 <= i < |rows| => rows[i].columnName)
  }

  function IndexColumnNames(rows: seq<IndexRow>): (ns: seq<string>)
    ensures |ns| == |rows|
    ensures forall i :: 0 <= i < |rows| ==> ns[i] == rows[i].columnName
  {
    seq(|rows|, i requires 0 <= i < |rows| => rows[i].columnName)
  }

  /** `g`, the `k`-th key group, is built from the key rows of its table,
      the `k`-th distinct table name: the key name is the first row's and
      the columns are all the rows' columns in row order. */
  ghost predicate PkGrouped(rows: seq<PrimaryKeyRow>, g: PkGroup, k: nat)
  {
    var group := Select(rows, PkRowTable, g.tableName);
    && k < |Distinct(KeysOf(rows, PkRowTable))|
    && g.tableName == Distinct(KeysOf(rows, PkRowTable))[k]
    && group != []
    && g.pkName == group[0].pkName
    && g.columns == PkColumnNames(group)
  }

  /** `g`, the `k`-th index group, is built from the index rows carrying
      the `k`-th distinct `table::index` key: table, index name and unique
      flag are the first row's, the columns all the rows' in row order. */
  ghost predicate IndexGrouped(rows: seq<IndexRow>, g: IndexGroup, k: nat)
  {
    var d := Distinct(KeysOf(rows, IndexRowKey));
    && k < |d|
    && var group := Select(rows, IndexRowKey, d[k]);
       && group != []
       && g == IndexGroup(group[0].tableName, group[0].indexName, group[0].isUnique, IndexColumnNames(group))
  }

  /** Primary-key rows grouped by table; the key name is the first row's. */
  function PkGroups(rows: seq<PrimaryKeyRow>): (r: seq<PkGroup>)
    ensures |r| == |Distinct(KeysOf(rows, PkRowTable))|
    ensures forall k {:trigger PkGrouped(rows, r[k], k)} :: 0 <= k < |r| ==> PkGrouped(rows, r[k], k)
  {
    var gs := GroupBy(rows, PkRowTable);
    GroupByCharacterized(rows, PkRowTable);
    GroupByWellFormed(rows, PkRowTable);
    seq(|gs|, i requires 0 <= i < |gs| =>
      PkGroup(gs[i].key, gs[i].rows[0].pkName, PkColumnNames(gs[i].rows)))
  }

  /** Index rows grouped by `IndexRowKey`; table, index name and unique
      flag are the first row's, and the group is never a primary key. */
  function IndexGroups(rows: seq<IndexRow>): (r: seq<IndexGroup>)
    ensures |r| == |Distinct(KeysOf(rows, IndexRowKey))|
    ensures forall k {:trigger IndexGrouped(rows, r[k], k)} :: 0 <= k < |r| ==> IndexGrouped(rows, r[k], k)
  {
    var gs := GroupBy(rows, IndexRowKey);
    GroupByCharacterized(rows, IndexRowKey);
    GroupByWellFormed(rows, IndexRowKey);
    seq(|gs|, i requires 0 <= i < |gs| =>
      IndexGroup(gs[i].rows[0].tableName, gs[i].rows[0].indexName, gs[i].rows[0].isUnique,
                 IndexColumnNames(gs[i].rows)))
  }

  // ---------------------------------------------------------------------
  // Step 4: foreign keys
  // ---------------------------------------------------------------------

  function SourceColumns(rows: seq<ForeignKeyRow>): (ns: seq<string>)
    ensures |ns| == |rows|
    ensures forall i :: 0 <= i < |rows| ==> ns[i] == rows[i].sourceColumn
  {
    seq(|rows|, i requires 0 <= i < |rows| => rows[i].sourceColumn)
  }

  function TargetColumns(rows: seq<ForeignKeyRow>): (ns: seq<string>)
    ensures |ns| == |rows|
    ensures forall i :: 0 <= i < |rows| ==> ns[i] == rows[i].targetColumn
  {
    seq(|rows|, i requires 0 <= i < |rows| => rows[i].targetColumn)
  }

  /** `fk`, the `k`-th key, holds the column pairs of the rows carrying its
      constraint name, in row order. */
  ghost predicate ForeignKeyGrouped(rows: seq<ForeignKeyRow>, fk: ForeignKey, k: nat)
  {
    var group := Select(rows, FkRowName, fk.name);
    && k < |Distinct(KeysOf(rows, FkRowName))|
    && fk.name == Distinct(KeysOf(rows, FkRowName))[k]
    && |group| > 0
    && fk.sourceTable == group[0].sourceTable && fk.targetTable == group[0].targetTable
    && |fk.sourceColumns| == |group| && |fk.targetColumns| == |group|
    && (forall j :: 0 <= j < |group| ==>
          fk.sourceColumns[j] == group[j].sourceColumn && fk.targetColumns[j] == group[j].targetColumn)
  }

  /** Foreign-key rows grouped by constraint name; the tables are the
      first row's and the column pairs follow row order. */
  function ForeignKeys(rows: seq<ForeignKeyRow>): (r: seq<ForeignKey>)
    ensures |r| == |Distinct(KeysOf(rows, FkRowName))|
    ensures forall k {:trigger ForeignKeyGrouped(rows, r[k], k)} :: 0 <= k < |r| ==> ForeignKeyGrouped(rows, r[k], k)
    ensures forall k, l :: 0 <= k < l < |r| ==> r[k].name != r[l].name
  {
    var gs := GroupBy(rows, FkRowName);
    GroupByCharacterized(rows, FkRowName);
    GroupByWellFormed(rows, FkRowName);
    seq(|gs|, i requires 0 <= i < |gs| =>
      ForeignKey(gs[i].key, gs[i].rows[0].sourceTable, SourceColumns(gs[i].rows),
                 gs[i].rows[0].targetTable, TargetColumns(gs[i].rows)))
  }

  // ---------------------------------------------------------------------
  // Column flags
  // ---------------------------------------------------------------------

  datatype Flag = PrimaryFlag | UniqueFlag

  function SetFlag(c: Column, f: Flag): Column
  {
    match f
    case PrimaryFlag => c.(isPrimary := true)
    case UniqueFlag => c.(isUnique := true)
  }

  /** `table.getColumn(name)` then set the flag: only the first column
      with that name is touched, and a name with no column is skipped. */
  function MarkColumn(cols: seq<Column>, name: string, f: Flag): seq<Column>
  {
    var i := FindColumn(cols, name);
    if i < |cols| then cols[i := SetFlag(cols[i], f)] else cols
  }

  /** Marking sets the flag on exactly the first column of each listed
      name, and changes nothing else. */
  function MarkColumns(cols: seq<Column>, names: seq<string>, f: Flag): (r: seq<Column>)
    ensures SameNames(r, cols)
    ensures forall j :: 0 <= j < |cols| ==>
              r[j] == if FirstOfName(cols, j) && cols[j].name in names then SetFlag(cols[j], f) else cols[j]
    decreases |names|
  {
    if names == [] then cols
    else
      var m := MarkColumn(cols, names[0], f);
      MarkColumnStep(cols, names, f);
      MarkColumns(m, names[1..], f)
  }

  /** One `getColumn` and flag: names are kept, the first columns of each
      name stay the first, and only the first column named `names[0]` is
      flagged. */
  lemma MarkColumnStep(cols: seq<Column>, names: seq<string>, f: Flag)
    requires names != []
    ensures SameNames(MarkColumn(cols, names[0], f), cols)
    ensures forall j :: 0 <= j < |cols| ==> FirstOfName(MarkColumn(cols, names[0], f), j) == FirstOfName(cols, j)
    ensures forall j :: 0 <= j < |cols| ==>
              MarkColumn(cols, names[0], f)[j] ==
                if FirstOfName(cols, j) && cols[j].name == names[0] then SetFlag(cols[j], f) else cols[j]
    ensures forall n :: n in names <==> n == names[0] || n in names[1..]
  {
    var m := MarkColumn(cols, names[0], f);
    assert SameNames(m, cols);
    forall j | 0 <= j < |cols| ensures FirstOfName(m, j) == FirstOfName(cols, j) {
      FindColumnSameNames(m, cols, cols[j].name);
    }
    assert forall n :: n in names <==> n == names[0] || n in names[1..];
  }

  /** Column `j` is the first of its name, the one `getColumn` finds. */
  predicate FirstOfName(cols: seq<Column>, j: int)
    requires 0 <= j < |cols|
  {
    FindColumn(cols, cols[j].name) == j
  }

  predicate SameNames(a: seq<Column>, b: seq<Column>)
  {
    |a| == |b| && forall j :: 0 <= j < |a| ==> a[j].name == b[j].name
  }

  lemma {:induction false} FindColumnSameNames(a: seq<Column>, b: seq<Column>, name: string)
    requires SameNames(a, b)
    ensures FindColumn(a, name) == FindColumn(b, name)
    decreases |a|
  {
    if a != [] && a[0].name != name {
      FindColumnSameNames(a[1..], b[1..], name);
    }
  }

  // ---------------------------------------------------------------------
  // Applying groups to tables
  // ---------------------------------------------------------------------

  /** `const table = tableMap.get(name); if (!table) continue; ...` for each
      group in order.  `target` names the group's table and `step` is what
      the loop body does to it. */
  function ApplyAll<G(!new)>(ts: seq<Table>, gs: seq<G>, target: G -> string, step: (Table, G) -> Table): (r: seq<Table>)
    ensures |r| == |ts|
    ensures forall i :: 0 <= i < |ts| && (forall k :: 0 <= k < |gs| ==> target(gs[k]) != ts[i].name) ==> r[i] == ts[i]
    ensures (forall t, g :: step(t, g).name == t.name) ==> forall i :: 0 <= i < |ts| ==> r[i].name == ts[i].name
    decreases |gs|
  {
    if gs == [] then ts
    else
      var i := FindTable(ts, target(gs[0]));
      ApplyAll(if i < |ts| then ts[i := step(ts[i], gs[0])] else ts, gs[1..], target, step)
  }

  /** None of the four loop bodies renames a table. */
  lemma StepsKeepNames()
    ensures forall t, g :: PkStep(t, g).name == t.name
    ensures forall t, g :: IndexStep(t, g).name == t.name
    ensures forall t, g :: AttachForeignKey(t, g).name == t.name
    ensures forall t, g :: AttachInverseForeignKey(t, g).name == t.name
  {
  }

  /** The same loop seen from one table: the groups naming it, in order. */
  function ApplyToTable<G>(t: Table, gs: seq<G>, target: G -> string, step: (Table, G) -> Table): Table
    decreases |gs|
  {
    if gs == [] then t
    else ApplyToTable(if target(gs[0]) == t.name then step(t, gs[0]) else t, gs[1..], target, step)
  }

  predicate DistinctNames(ts: seq<Table>)
  {
    forall i, j :: 0 <= i < j < |ts| ==> ts[i].name != ts[j].name
  }

  /** With distinct table names, the loop over groups acts on each table
      independently. */
  lemma {:induction false} ApplyAllPointwise<G(!new)>(ts: seq<Table>, gs: seq<G>, target: G -> string, step: (Table, G) -> Table)
    requires DistinctNames(ts)
    requires forall t, g :: step(t, g).name == t.name
    ensures |ApplyAll(ts, gs, target, step)| == |ts|
    ensures forall i :: 0 <= i < |ts| ==> ApplyAll(ts, gs, target, step)[i] == ApplyToTable(ts[i], gs, target, step)
    decreases |gs|
  {
    if gs != [] {
      var i0 := FindTable(ts, target(gs[0]));
      var ts' := if i0 < |ts| then ts[i0 := step(ts[i0], gs[0])] else ts;
      assert forall i :: 0 <= i < |ts| ==> ts'[i].name == ts[i].name;
      ApplyAllPointwise(ts', gs[1..], target, step);
      assert forall i :: 0 <= i < |ts| ==>
        ts'[i] == (if target(gs[0]) == ts[i].name then step(ts[i], gs[0]) else ts[i]);
    }
  }

  /** Each stage keeps every table's name, so the names stay distinct for
      the next stage. */
  lemma ApplyAllDistinct<G(!new)>(ts: seq<Table>, gs: seq<G>, target: G -> string, step: (Table, G) -> Table)
    requires DistinctNames(ts)
    requires forall t, g :: step(t, g).name == t.name
    ensures |ApplyAll(ts, gs, target, step)| == |ts|
    ensures forall i :: 0 <= i < |ts| ==> ApplyAll(ts, gs, target, step)[i] == ApplyToTable(ts[i], gs, target, step)
    ensures DistinctNames(ApplyAll(ts, gs, target, step))
  {
    ApplyAllPointwise(ts, gs, target, step);
    forall i | 0 <= i < |ts| ensures ApplyAll(ts, gs, target, step)[i].name == ts[i].name {
      ApplyToTableName(ts[i], gs, target, step);
    }
  }

  lemma {:induction false} ApplyToTableName<G>(t: Table, gs: seq<G>, target: G -> string, step: (Table, G) -> Table)
    requires forall t, g :: step(t, g).name == t.name
    ensures ApplyToTable(t, gs, target, step).name == t.name
    decreases |gs|
  {
    if gs != [] {
      ApplyToTableName(if target(gs[0]) == t.name then step(t, gs[0]) else t, gs[1..], target, step);
    }
  }

  // ---------------------------------------------------------------------
  // The four loop bodies
  // ---------------------------------------------------------------------

  function PkTarget(g: PkGroup): string { g.tableName }
  function IndexTarget(g: IndexGroup): string { g.tableName }
  function FkSource(fk: ForeignKey): string { fk.sourceTable }
  function FkTarget(fk: ForeignKey): string { fk.targetTable }

  /** Lines 45-51: flag the key's columns, then append the key's index. */
  function PkStep(t: Table, g: PkGroup): Table
  {
    t.(columns := MarkColumns(t.columns, g.columns, PrimaryFlag),
       indexes := t.indexes + [Index(g.pkName, g.columns, true, true)])
  }

  /** Lines 77-83: a unique index flags its columns unique; the index is
      appended either way. */
  function IndexStep(t: Table, g: IndexGroup): Table
  {
    t.(columns := if g.isUnique then MarkColumns(t.columns, g.columns, UniqueFlag) else t.columns,
       indexes := t.indexes + [Index(g.indexName, g.columns, false, g.isUnique)])
  }

  function AttachForeignKey(t: Table, fk: ForeignKey): Table
  {
    t.(foreignKeys := t.foreignKeys + [fk])
  }

  function AttachInverseForeignKey(t: Table, fk: ForeignKey): Table
  {
    t.(inverseForeignKeys := t.inverseForeignKeys + [fk])
  }

  /** Lines 110-112: the tables go into the database in map order. */
  function AddTables(db: Database, ts: seq<Table>): (r: Database)
    ensures r.schema == db.schema
    ensures r.tables == db.tables + ts
    decreases |ts|
  {
    if ts == [] then db
    else
      assert db.tables + ts == (db.tables + [ts[0]]) + ts[1..];
      AddTables(AddTable(db, ts[0]), ts[1..])
  }

  /** `buildDatabase(columns, primaryKeys, indexes, foreignKeys)`. */
  function BuildDatabase(schema: string, columns: seq<ColumnRow>, primaryKeys: seq<PrimaryKeyRow>,
                         indexes: seq<IndexRow>, foreignKeys: seq<ForeignKeyRow>): (db: Database)
    ensures db.schema == schema
    ensures |db.tables| == |TableNames(columns)|
    ensures forall i :: 0 <= i < |db.tables| ==> db.tables[i].name == TableNames(columns)[i]
  {
    var ts1 := CreateTables(schema, columns);
    CreateTablesCharacterized(schema, columns);
    var ts2 := ApplyAll(ts1, PkGroups(primaryKeys), PkTarget, PkStep);
    var ts3 := ApplyAll(ts2, IndexGroups(indexes), IndexTarget, IndexStep);
    var fks := ForeignKeys(foreignKeys);
    var ts4 := ApplyAll(ts3, fks, FkSource, AttachForeignKey);
    var ts5 := ApplyAll(ts4, fks, FkTarget, AttachInverseForeignKey);
    StagesKeepNames(ts1, PkGroups(primaryKeys), IndexGroups(indexes), fks);
    EmptyFront(NewDatabase(schema).tables, ts5);
    AddTables(NewDatabase(schema), ts5)
  }

  /** The four loops keep the number of tables and every table's name. */
  lemma StagesKeepNames(ts1: seq<Table>, pgs: seq<PkGroup>, igs: seq<IndexGroup>, fks: seq<ForeignKey>)
    ensures var ts5 := ApplyAll(ApplyAll(ApplyAll(ApplyAll(ts1, pgs, PkTarget, PkStep), igs, IndexTarget, IndexStep),
                                         fks, FkSource, AttachForeignKey), fks, FkTarget, AttachInverseForeignKey);
            |ts5| == |ts1| && forall i :: 0 <= i < |ts1| ==> ts5[i].name == ts1[i].name
  {
    StepsKeepNames();
    var ts2 := ApplyAll(ts1, pgs, PkTarget, PkStep);
    var ts3 := ApplyAll(ts2, igs, IndexTarget, IndexStep);
    var ts4 := ApplyAll(ts3, fks, FkSource, AttachForeignKey);
    var ts5 := ApplyAll(ts4, fks, FkTarget, AttachInverseForeignKey);
    assert forall i :: 0 <= i < |ts1| ==> ts2[i].name == ts1[i].name;
    assert forall i :: 0 <= i < |ts1| ==> ts3[i].name == ts2[i].name;
    assert forall i :: 0 <= i < |ts1| ==> ts4[i].name == ts3[i].name;
    assert forall i :: 0 <= i < |ts1| ==> ts5[i].name == ts4[i].name;
  }

  // =====================================================================
  // The finished graph, described directly from the rows
  // =====================================================================

  /** Distinct table names of the column rows, in first-seen order. */
  function TableNames(columns: seq<ColumnRow>): seq<string>
  {
    Distinct(KeysOf(columns, ColumnRowTable))
  }

  function TableRows(columns: seq<ColumnRow>, name: string): seq<ColumnRow>
  {
    Select(columns, ColumnRowTable, name)
  }

  /** The primary-key index of table `name`: present iff some key row names
      the table; its name is the first such row's, its columns all such
      rows' column names in row order. */
  function PrimaryKeyIndexes(primaryKeys: seq<PrimaryKeyRow>, name: string): seq<Index>
  {
    var rows := Select(primaryKeys, PkRowTable, name);
    if rows == [] then [] else [Index(rows[0].pkName, PkColumnNames(rows), true, true)]
  }

  function PrimaryKeyColumnNames(primaryKeys: seq<PrimaryKeyRow>, name: string): seq<string>
  {
    PkColumnNames(Select(primaryKeys, PkRowTable, name))
  }

  /** The secondary indexes whose group names table `name`, in group order. */
  function SecondaryIndexes(igs: seq<IndexGroup>, name: string): seq<Index>
  {
    if igs == [] then []
    else (if igs[0].tableName == name then [Index(igs[0].indexName, igs[0].columns, false, igs[0].isUnique)] else [])
         + SecondaryIndexes(igs[1..], name)
  }

  /** The column names listed by unique index groups of table `name`. */
  function UniqueColumnNames(igs: seq<IndexGroup>, name: string): seq<string>
  {
    if igs == [] then []
    else (if igs[0].tableName == name && igs[0].isUnique then igs[0].columns else [])
         + UniqueColumnNames(igs[1..], name)
  }

  function ForeignKeysFrom(fks: seq<ForeignKey>, name: string): (r: seq<ForeignKey>)
    ensures forall fk :: fk in r <==> fk in fks && fk.sourceTable == name
  {
    if fks == [] then []
    else (if fks[0].sourceTable == name then [fks[0]] else []) + ForeignKeysFrom(fks[1..], name)
  }

  function ForeignKeysTo(fks: seq<ForeignKey>, name: string): (r: seq<ForeignKey>)
    ensures forall fk :: fk in r <==> fk in fks && fk.targetTable == name
  {
    if fks == [] then []
    else (if fks[0].targetTable == name then [fks[0]] else []) + ForeignKeysTo(fks[1..], name)
  }

  // ---------------------------------------------------------------------
  // Stage lemmas
  // ---------------------------------------------------------------------

  lemma CreateTablesCharacterized(schema: string, rows: seq<ColumnRow>)
    ensures |CreateTables(schema, rows)| == |TableNames(rows)|
    ensures DistinctNames(CreateTables(schema, rows))
    ensures forall i :: 0 <= i < |CreateTables(schema, rows)| ==>
              CreateTables(schema, rows)[i] ==
                NewTable(TableNames(rows)[i], schema).(columns := NewColumns(TableRows(rows, TableNames(rows)[i])))
  {
    GroupByCharacterized(rows, ColumnRowTable);
  }

  lemma {:induction false} ApplyToTableNoMatch<G>(t: Table, gs: seq<G>, target: G -> string, step: (Table, G) -> Table)
    requires forall k :: 0 <= k < |gs| ==> target(gs[k]) != t.name
    ensures ApplyToTable(t, gs, target, step) == t
    decreases |gs|
  {
    if gs != [] {
      ApplyToTableNoMatch(t, gs[1..], target, step);
    }
  }

  lemma {:induction false} ApplyToTableOneMatch<G>(t: Table, gs: seq<G>, target: G -> string,
                                                   step: (Table, G) -> Table, k0: nat)
    requires forall t, g :: step(t, g).name == t.name
    requires k0 < |gs| && target(gs[k0]) == t.name
    requires forall k :: 0 <= k < |gs| && k != k0 ==> target(gs[k]) != t.name
    ensures ApplyToTable(t, gs, target, step) == step(t, gs[k0])
    decreases |gs|
  {
    if k0 == 0 {
      ApplyToTableNoMatch(step(t, gs[0]), gs[1..], target, step);
    } else {
      ApplyToTableOneMatch(t, gs[1..], target, step, k0 - 1);
    }
  }

  /** Seen from one table, the primary-key loop applies the table's own
      key group, if there is one, and nothing else. */
  lemma PkStageOnTable(t: Table, primaryKeys: seq<PrimaryKeyRow>)
    ensures ApplyToTable(t, PkGroups(primaryKeys), PkTarget, PkStep) ==
              t.(columns := MarkColumns(t.columns, PrimaryKeyColumnNames(primaryKeys, t.name), PrimaryFlag),
                 indexes := t.indexes + PrimaryKeyIndexes(primaryKeys, t.name))
  {
    var pgs := PkGroups(primaryKeys);
    var rows := Select(primaryKeys, PkRowTable, t.name);
    PkGroupsFor(primaryKeys, t.name);
    if rows == [] {
      ApplyToTableNoMatch(t, pgs, PkTarget, PkStep);
      assert MarkColumns(t.columns, [], PrimaryFlag) == t.columns;
      assert t.indexes + [] == t.indexes;
    } else {
      var k0 :| && 0 <= k0 < |pgs| && pgs[k0] == PkGroup(t.name, rows[0].pkName, PkColumnNames(rows))
                && forall k :: 0 <= k < |pgs| && k != k0 ==> PkTarget(pgs[k]) != t.name;
      ApplyToTableOneMatch(t, pgs, PkTarget, PkStep, k0);
    }
  }

  /** The key groups naming table `name`: none when it has no key rows,
      otherwise exactly one, built from its rows. */
  lemma PkGroupsFor(primaryKeys: seq<PrimaryKeyRow>, name: string)
    ensures var rows := Select(primaryKeys, PkRowTable, name);
            var pgs := PkGroups(primaryKeys);
            && (rows == [] ==> forall k :: 0 <= k < |pgs| ==> PkTarget(pgs[k]) != name)
            && (rows != [] ==>
                  exists k0 :: && 0 <= k0 < |pgs| && pgs[k0] == PkGroup(name, rows[0].pkName, PkColumnNames(rows))
                               && forall k :: 0 <= k < |pgs| && k != k0 ==> PkTarget(pgs[k]) != name)
  {
    var gs := GroupBy(primaryKeys, PkRowTable);
    var pgs := PkGroups(primaryKeys);
    GroupByCharacterized(primaryKeys, PkRowTable);
    GroupByWellFormed(primaryKeys, PkRowTable);
    var d := Distinct(KeysOf(primaryKeys, PkRowTable));
    var rows := Select(primaryKeys, PkRowTable, name);
    SelectEmpty(primaryKeys, PkRowTable, name);
    if rows == [] {
      forall k | 0 <= k < |pgs| ensures PkTarget(pgs[k]) != name {
        assert PkTarget(pgs[k]) == d[k];
        assert d[k] in KeysOf(primaryKeys, PkRowTable);
      }
    } else {
      assert name in d;
      var k0 :| 0 <= k0 < |d| && d[k0] == name;
      assert gs[k0].rows == rows;
      assert pgs[k0] == PkGroup(name, rows[0].pkName, PkColumnNames(rows));
      forall k | 0 <= k < |pgs| && k != k0 ensures PkTarget(pgs[k]) != name {
        assert PkTarget(pgs[k]) == d[k];
      }
    }
  }

  lemma {:induction false} MarkColumnsAppend(cols: seq<Column>, a: seq<string>, b: seq<string>, f: Flag)
    ensures MarkColumns(cols, a + b, f) == MarkColumns(MarkColumns(cols, a, f), b, f)
    decreases |a|
  {
    if a != [] {
      assert (a + b)[1..] == a[1..] + b;
      MarkColumnsAppend(MarkColumn(cols, a[0], f), a[1..], b, f);
    } else {
      assert a + b == b;
    }
  }

  /** Seen from one table, the index loop appends the table's index groups
      in order and flags the columns of its unique ones. */
  lemma {:induction false} IndexStageOnTable(t: Table, igs: seq<IndexGroup>)
    ensures ApplyToTable(t, igs, IndexTarget, IndexStep) ==
              t.(columns := MarkColumns(t.columns, UniqueColumnNames(igs, t.name), UniqueFlag),
                 indexes := t.indexes + SecondaryIndexes(igs, t.name))
    decreases |igs|
  {
    if igs == [] {
      assert MarkColumns(t.columns, [], UniqueFlag) == t.columns;
    } else {
      var g := igs[0];
      var u0 := if g.tableName == t.name && g.isUnique then g.columns else [];
      var x0 := if g.tableName == t.name then [Index(g.indexName, g.columns, false, g.isUnique)] else [];
      var t' := IndexStepOn(t, g);
      IndexStepShape(t, g);
      IndexStageOnTable(t', igs[1..]);
      var rest := UniqueColumnNames(igs[1..], t.name);
      assert UniqueColumnNames(igs, t.name) == u0 + rest;
      assert SecondaryIndexes(igs, t.name) == x0 + SecondaryIndexes(igs[1..], t.name);
      MarkColumnsAppend(t.columns, u0, rest, UniqueFlag);
      ConcatAssoc(t.indexes, x0, SecondaryIndexes(igs[1..], t.name));
    }
  }

  /** One turn of the index loop, seen from table `t`. */
  function IndexStepOn(t: Table, g: IndexGroup): Table
  {
    if IndexTarget(g) == t.name then IndexStep(t, g) else t
  }

  lemma IndexStepShape(t: Table, g: IndexGroup)
    ensures var u0 := if g.tableName == t.name && g.isUnique then g.columns else [];
            var x0 := if g.tableName == t.name then [Index(g.indexName, g.columns, false, g.isUnique)] else [];
            IndexStepOn(t, g) == t.(columns := MarkColumns(t.columns, u0, UniqueFlag), indexes := t.indexes + x0)
  {
    assert MarkColumns(t.columns, [], UniqueFlag) == t.columns;
    assert t.indexes + [] == t.indexes;
  }

  lemma {:induction false} ForeignKeyStageOnTable(t: Table, fks: seq<ForeignKey>)
    ensures ApplyToTable(t, fks, FkSource, AttachForeignKey) ==
              t.(foreignKeys := t.foreignKeys + ForeignKeysFrom(fks, t.name))
    decreases |fks|
  {
    if fks != [] {
      var t' := if FkSource(fks[0]) == t.name then AttachForeignKey(t, fks[0]) else t;
      ForeignKeyStageOnTable(t', fks[1..]);
    }
  }

  lemma {:induction false} InverseStageOnTable(t: Table, fks: seq<ForeignKey>)
    ensures ApplyToTable(t, fks, FkTarget, AttachInverseForeignKey) ==
              t.(inverseForeignKeys := t.inverseForeignKeys + ForeignKeysTo(fks, t.name))
    decreases |fks|
  {
    if fks != [] {
      var t' := if FkTarget(fks[0]) == t.name then AttachInverseForeignKey(t, fks[0]) else t;
      InverseStageOnTable(t', fks[1..]);
    }
  }

  // ---------------------------------------------------------------------
  // The finished graph
  // ---------------------------------------------------------------------

  /** The columns built from `rows`: one per row, in row order, with only
      the first column of each name eligible for a key flag. */
  ghost predicate ColumnsBuilt(cols: seq<Column>, rows: seq<ColumnRow>, pkNames: seq<string>, uniqueNames: seq<string>)
  {
    var base := NewColumns(rows);
    && |cols| == |rows|
    && forall j :: 0 <= j < |rows| ==>
         cols[j] == NewColumn(rows[j]).(isPrimary := FirstOfName(base, j) && rows[j].columnName in pkNames,
                                        isUnique := FirstOfName(base, j) && rows[j].columnName in uniqueNames)
  }

  /** What the builder promises about table `t`, which it created for
      table name `name`. */
  ghost predicate BuiltTable(t: Table, name: string, schema: string, columns: seq<ColumnRow>,
                             primaryKeys: seq<PrimaryKeyRow>, indexes: seq<IndexRow>,
                             foreignKeys: seq<ForeignKeyRow>)
  {
    && t.name == name
    && t.schema == schema
    && t.pkName.None?
    && ColumnsBuilt(t.columns, TableRows(columns, name), PrimaryKeyColumnNames(primaryKeys, name),
                    UniqueColumnNames(IndexGroups(indexes), name))
    && t.indexes == PrimaryKeyIndexes(primaryKeys, name) + SecondaryIndexes(IndexGroups(indexes), name)
    && t.foreignKeys == ForeignKeysFrom(ForeignKeys(foreignKeys), name)
    && t.inverseForeignKeys == ForeignKeysTo(ForeignKeys(foreignKeys), name)
  }

  lemma FlagsOnTable(rows: seq<ColumnRow>, pkNames: seq<string>, uniqueNames: seq<string>)
    ensures ColumnsBuilt(MarkColumns(MarkColumns(NewColumns(rows), pkNames, PrimaryFlag), uniqueNames, UniqueFlag),
                         rows, pkNames, uniqueNames)
  {
    var base := NewColumns(rows);
    var c1 := MarkColumns(base, pkNames, PrimaryFlag);
    forall j | 0 <= j < |rows| ensures FirstOfName(c1, j) == FirstOfName(base, j) {
      FindColumnSameNames(c1, base, base[j].name);
    }
  }

  /** One table's way through the four loops. */
  function BuildTable(t: Table, pgs: seq<PkGroup>, igs: seq<IndexGroup>, fks: seq<ForeignKey>): Table
  {
    var t2 := ApplyToTable(t, pgs, PkTarget, PkStep);
    var t3 := ApplyToTable(t2, igs, IndexTarget, IndexStep);
    var t4 := ApplyToTable(t3, fks, FkSource, AttachForeignKey);
    ApplyToTable(t4, fks, FkTarget, AttachInverseForeignKey)
  }

  lemma BuildDatabasePointwise(schema: string, columns: seq<ColumnRow>, primaryKeys: seq<PrimaryKeyRow>,
                               indexes: seq<IndexRow>, foreignKeys: seq<ForeignKeyRow>)
    ensures var db := BuildDatabase(schema, columns, primaryKeys, indexes, foreignKeys);
            var ts1 := CreateTables(schema, columns);
            && |db.tables| == |ts1|
            && forall i :: 0 <= i < |ts1| ==>
                 db.tables[i] == BuildTable(ts1[i], PkGroups(primaryKeys), IndexGroups(indexes), ForeignKeys(foreignKeys))
  {
    var ts1 := CreateTables(schema, columns);
    var pgs := PkGroups(primaryKeys);
    var igs := IndexGroups(indexes);
    var fks := ForeignKeys(foreignKeys);
    var ts2 := ApplyAll(ts1, pgs, PkTarget, PkStep);
    var ts3 := ApplyAll(ts2, igs, IndexTarget, IndexStep);
    var ts4 := ApplyAll(ts3, fks, FkSource, AttachForeignKey);
    CreateTablesCharacterized(schema, columns);
    ApplyAllDistinct(ts1, pgs, PkTarget, PkStep);
    ApplyAllDistinct(ts2, igs, IndexTarget, IndexStep);
    ApplyAllDistinct(ts3, fks, FkSource, AttachForeignKey);
    ApplyAllPointwise(ts4, fks, FkTarget, AttachInverseForeignKey);
    var ts5 := ApplyAll(ts4, fks, FkTarget, AttachInverseForeignKey);
    assert BuildDatabase(schema, columns, primaryKeys, indexes, foreignKeys).tables == NewDatabase(schema).tables + ts5;
    assert NewDatabase(schema).tables + ts5 == ts5;
    forall i | 0 <= i < |ts1| ensures ts5[i] == BuildTable(ts1[i], pgs, igs, fks) {
      assert ts4[i] == ApplyToTable(ts3[i], fks, FkSource, AttachForeignKey);
      assert ts3[i] == ApplyToTable(ts2[i], igs, IndexTarget, IndexStep);
      assert ts2[i] == ApplyToTable(ts1[i], pgs, PkTarget, PkStep);
    }
  }

  lemma BuildTableShape(t: Table, pgs: seq<PkGroup>, igs: seq<IndexGroup>, fks: seq<ForeignKey>,
                        primaryKeys: seq<PrimaryKeyRow>)
    requires pgs == PkGroups(primaryKeys)
    ensures BuildTable(t, pgs, igs, fks) ==
      t.(columns := MarkColumns(MarkColumns(t.columns, PrimaryKeyColumnNames(primaryKeys, t.name), PrimaryFlag),
                                UniqueColumnNames(igs, t.name), UniqueFlag),
         indexes := t.indexes + PrimaryKeyIndexes(primaryKeys, t.name) + SecondaryIndexes(igs, t.name),
         foreignKeys := t.foreignKeys + ForeignKeysFrom(fks, t.name),
         inverseForeignKeys := t.inverseForeignKeys + ForeignKeysTo(fks, t.name))
  {
    PkStageOnTable(t, primaryKeys);
    var t2 := ApplyToTable(t, pgs, PkTarget, PkStep);
    IndexStageOnTable(t2, igs);
    var t3 := ApplyToTable(t2, igs, IndexTarget, IndexStep);
    ForeignKeyStageOnTable(t3, fks);
    var t4 := ApplyToTable(t3, fks, FkSource, AttachForeignKey);
    InverseStageOnTable(t4, fks);
  }

  lemma BuildTableCharacterized(t: Table, name: string, schema: string, columns: seq<ColumnRow>,
                                primaryKeys: seq<PrimaryKeyRow>, indexes: seq<IndexRow>,
                                foreignKeys: seq<ForeignKeyRow>)
    requires t == NewTable(name, schema).(columns := NewColumns(TableRows(columns, name)))
    ensures BuiltTable(BuildTable(t, PkGroups(primaryKeys), IndexGroups(indexes), ForeignKeys(foreignKeys)),
                       name, schema, columns, primaryKeys, indexes, foreignKeys)
  {
    var r := BuildTable(t, PkGroups(primaryKeys), IndexGroups(indexes), ForeignKeys(foreignKeys));
    BuildTableShape(t, PkGroups(primaryKeys), IndexGroups(indexes), ForeignKeys(foreignKeys), primaryKeys);
    ShapedTableBuilt(t, r, name, schema, columns, primaryKeys, indexes, foreignKeys);
  }

  lemma ShapedTableBuilt(t: Table, r: Table, name: string, schema: string, columns: seq<ColumnRow>,
                         primaryKeys: seq<PrimaryKeyRow>, indexes: seq<IndexRow>,
                         foreignKeys: seq<ForeignKeyRow>)
    requires t == NewTable(name, schema).(columns := NewColumns(TableRows(columns, name)))
    requires r == t.(columns := MarkColumns(MarkColumns(t.columns, PrimaryKeyColumnNames(primaryKeys, t.name), PrimaryFlag),
                                            UniqueColumnNames(IndexGroups(indexes), t.name), UniqueFlag),
                     indexes := t.indexes + PrimaryKeyIndexes(primaryKeys, t.name) + SecondaryIndexes(IndexGroups(indexes), t.name),
                     foreignKeys := t.foreignKeys + ForeignKeysFrom(ForeignKeys(foreignKeys), t.name),
                     inverseForeignKeys := t.inverseForeignKeys + ForeignKeysTo(ForeignKeys(foreignKeys), t.name))
    ensures BuiltTable(r, name, schema, columns, primaryKeys, indexes, foreignKeys)
  {
    StagedFields(t, r, name, schema, TableRows(columns, name),
                 PrimaryKeyColumnNames(primaryKeys, name), UniqueColumnNames(IndexGroups(indexes), name),
                 PrimaryKeyIndexes(primaryKeys, name) + SecondaryIndexes(IndexGroups(indexes), name),
                 ForeignKeysFrom(ForeignKeys(foreignKeys), name), ForeignKeysTo(ForeignKeys(foreignKeys), name));
  }

  /** A fresh table after the stages, field by field, for any key names,
      indexes and foreign keys the stages add. */
  lemma StagedFields(t: Table, r: Table, name: string, schema: string, rows: seq<ColumnRow>,
                     pkNames: seq<string>, uniqueNames: seq<string>, indexes: seq<Index>,
                     from: seq<ForeignKey>, to: seq<ForeignKey>)
    requires t == NewTable(name, schema).(columns := NewColumns(rows))
    requires r == t.(columns := MarkColumns(MarkColumns(t.columns, pkNames, PrimaryFlag), uniqueNames, UniqueFlag),
                     indexes := t.indexes + indexes,
                     foreignKeys := t.foreignKeys + from,
                     inverseForeignKeys := t.inverseForeignKeys + to)
    ensures r.name == name && r.schema == schema && r.pkName.None?
    ensures ColumnsBuilt(r.columns, rows, pkNames, uniqueNames)
    ensures r.indexes == indexes && r.foreignKeys == from && r.inverseForeignKeys == to
  {
    FlagsOnTable(rows, pkNames, uniqueNames);
    EmptyFront(t.indexes, indexes);
    EmptyFront(t.foreignKeys, from);
    EmptyFront(t.inverseForeignKeys, to);
  }

  lemma EmptyFront<T>(a: seq<T>, b: seq<T>)
    requires a == []
    ensures a + b == b
  {
  }

  /** Table `i` of the built database is the table for the `i`-th distinct
      table name of the column rows, described entirely by the rows. */
  lemma BuildDatabaseCharacterized(schema: string, columns: seq<ColumnRow>, primaryKeys: seq<PrimaryKeyRow>,
                                   indexes: seq<IndexRow>, foreignKeys: seq<ForeignKeyRow>)
    ensures BuildDatabase(schema, columns, primaryKeys, indexes, foreignKeys).schema == schema
    ensures |BuildDatabase(schema, columns, primaryKeys, indexes, foreignKeys).tables| == |TableNames(columns)|
    ensures forall i :: 0 <= i < |TableNames(columns)| ==>
              BuiltTable(BuildDatabase(schema, columns, primaryKeys, indexes, foreignKeys).tables[i],
                         TableNames(columns)[i], schema, columns, primaryKeys, indexes, foreignKeys)
  {
    var ts1 := CreateTables(schema, columns);
    CreateTablesCharacterized(schema, columns);
    BuildDatabasePointwise(schema, columns, primaryKeys, indexes, foreignKeys);
    forall i | 0 <= i < |TableNames(columns)|
      ensures BuiltTable(BuildDatabase(schema, columns, primaryKeys, indexes, foreignKeys).tables[i],
                         TableNames(columns)[i], schema, columns, primaryKeys, indexes, foreignKeys)
    {
      BuildTableCharacterized(ts1[i], TableNames(columns)[i], schema, columns, primaryKeys, indexes, foreignKeys);
    }
  }

  // ---------------------------------------------------------------------
  // Foreign keys
  // ---------------------------------------------------------------------

  /** A foreign key's tables come from the earliest row carrying its
      constraint name. */
  lemma ForeignKeysFirstRow(rows: seq<ForeignKeyRow>, k: nat)
    requires k < |ForeignKeys(rows)|
    ensures exists i :: 0 <= i < |rows| && rows[i].fkName == ForeignKeys(rows)[k].name
                        && ForeignKeys(rows)[k].sourceTable == rows[i].sourceTable
                        && ForeignKeys(rows)[k].targetTable == rows[i].targetTable
                        && forall j :: 0 <= j < i ==> rows[j].fkName != ForeignKeys(rows)[k].name
  {
    GroupByCharacterized(rows, FkRowName);
    GroupByWellFormed(rows, FkRowName);
    var gs := GroupBy(rows, FkRowName);
    SelectFirst(rows, FkRowName, gs[k].key);
  }

  /** A foreign key sits in the `foreignKeys` of exactly the table named as
      its source and in the `inverseForeignKeys` of exactly the table named
      as its target: one value, read from both ends.  A key whose table has
      no column rows is attached to nothing at that end. */
  lemma ForeignKeyAttachedAtBothEnds(schema: string, columns: seq<ColumnRow>, primaryKeys: seq<PrimaryKeyRow>,
                                     indexes: seq<IndexRow>, foreignKeys: seq<ForeignKeyRow>,
                                     fk: ForeignKey, i: nat)
    requires fk in ForeignKeys(foreignKeys)
    requires i < |BuildDatabase(schema, columns, primaryKeys, indexes, foreignKeys).tables|
    ensures var t := BuildDatabase(schema, columns, primaryKeys, indexes, foreignKeys).tables[i];
            && (fk in t.foreignKeys <==> t.name == fk.sourceTable)
            && (fk in t.inverseForeignKeys <==> t.name == fk.targetTable)
  {
    BuildDatabaseCharacterized(schema, columns, primaryKeys, indexes, foreignKeys);
  }

  /** Tables are created once per distinct name, so a name picks out at
      most one table: the foreign key is held by one owner and one target. */
  lemma BuiltTableNamesDistinct(schema: string, columns: seq<ColumnRow>, primaryKeys: seq<PrimaryKeyRow>,
                                indexes: seq<IndexRow>, foreignKeys: seq<ForeignKeyRow>)
    ensures DistinctNames(BuildDatabase(schema, columns, primaryKeys, indexes, foreignKeys).tables)
    ensures forall n :: n in TableNames(columns) <==>
              exists i :: 0 <= i < |BuildDatabase(schema, columns, primaryKeys, indexes, foreignKeys).tables|
                          && BuildDatabase(schema, columns, primaryKeys, indexes, foreignKeys).tables[i].name == n
  {
    var db := BuildDatabase(schema, columns, primaryKeys, indexes, foreignKeys);
    CreateTablesCharacterized(schema, columns);
    RenamedDistinct(db.tables, CreateTables(schema, columns), TableNames(columns));
  }

  /** Tables named pointwise like a list of tables with distinct names
      have distinct names, and their names are exactly those. */
  lemma RenamedDistinct(tables: seq<Table>, ts: seq<Table>, names: seq<string>)
    requires |tables| == |ts| == |names|
    requires forall i :: 0 <= i < |ts| ==> tables[i].name == names[i] && ts[i].name == names[i]
    requires DistinctNames(ts)
    ensures DistinctNames(tables)
    ensures forall n :: n in names <==> exists i :: 0 <= i < |tables| && tables[i].name == n
  {
    forall n ensures n in names <==> exists i :: 0 <= i < |tables| && tables[i].name == n {
      if n in names {
        var i :| 0 <= i < |names| && names[i] == n;
        assert tables[i].name == n;
      }
    }
  }

  lemma BuildTableName(t: Table, pgs: seq<PkGroup>, igs: seq<IndexGroup>, fks: seq<ForeignKey>)
    ensures BuildTable(t, pgs, igs, fks).name == t.name
  {
    var t2 := ApplyToTable(t, pgs, PkTarget, PkStep);
    var t3 := ApplyToTable(t2, igs, IndexTarget, IndexStep);
    var t4 := ApplyToTable(t3, fks, FkSource, AttachForeignKey);
    ApplyToTableName(t, pgs, PkTarget, PkStep);
    ApplyToTableName(t2, igs, IndexTarget, IndexStep);
    ApplyToTableName(t3, fks, FkSource, AttachForeignKey);
    ApplyToTableName(t4, fks, FkTarget, AttachInverseForeignKey);
  }

  // ---------------------------------------------------------------------
  // Keys and flags
  // ---------------------------------------------------------------------

  /** When a table's column names are distinct, every column is the first
      of its name, so a column is primary iff its name is in the table's
      key rows, and unique iff it is listed by one of the table's unique
      indexes. */
  lemma FlagsWithDistinctColumnNames(rows: seq<ColumnRow>, pkNames: seq<string>, uniqueNames: seq<string>,
                                     cols: seq<Column>)
    requires forall j, k :: 0 <= j < k < |rows| ==> rows[j].columnName != rows[k].columnName
    requires ColumnsBuilt(cols, rows, pkNames, uniqueNames)
    ensures |cols| == |rows|
    ensures forall j :: 0 <= j < |cols| ==>
              && cols[j].name == rows[j].columnName
              && (cols[j].isPrimary <==> rows[j].columnName in pkNames)
              && (cols[j].isUnique <==> rows[j].columnName in uniqueNames)
  {
    var base := NewColumns(rows);
    forall j | 0 <= j < |rows| ensures FirstOfName(base, j) {
      assert base[j].name == rows[j].columnName;
    }
  }

  /** Index rows are grouped under `tableName + "::" + indexName`, so two
      different (table, index) pairs can share one group: the rows for
      index `c` of table `a::b` and index `b::c` of table `a` become a single
      index of table `a::b` listing both columns. */
  lemma IndexKeyCollision()
    ensures var r1 := IndexRow("a::b", "c", false, "x");
            var r2 := IndexRow("a", "b::c", false, "y");
            && (r1.tableName, r1.indexName) != (r2.tableName, r2.indexName)
            && IndexGroups([r1, r2]) == [IndexGroup("a::b", "c", false, ["x", "y"])]
  {
    var r1 := IndexRow("a::b", "c", false, "x");
    var r2 := IndexRow("a", "b::c", false, "y");
    assert IndexRowKey(r1) == IndexRowKey(r2);
    var k := IndexRowKey(r1);
    var rows := [r1, r2];
    assert rows[..1] == [r1];
    assert [r1][..0] == [];
    var g1 := GroupBy([r1], IndexRowKey);
    assert GroupBy([r1][..0], IndexRowKey) == [];
    assert IndexRowKey(r1) == k;
    assert g1 == Upsert([], k, r1);
    assert g1 == [Group(k, [r1])];
    assert FindGroup(g1, k) == 0;
    var g2 := GroupBy(rows, IndexRowKey);
    assert g2 == Upsert(g1, k, r2);
    assert [r1] + [r2] == [r1, r2];
    assert g2 == [Group(k, [r1, r2])];
    assert IndexColumnNames([r1, r2]) == ["x", "y"];
  }
}
