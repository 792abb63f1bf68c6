# cerebro-modeler core, in Dafny

cerebro-modeler reads the catalog of an MSSQL schema and writes one
TypeORM entity file per table.  This project models the core of that
pipeline as pure functions over immutable values:

- **Schema graph** (`Schema`): the `Column`, `Index`, `ForeignKey`,
  `Table` and `Database` records, with `getColumn`, `primaryColumns`,
  `setPrimaryKey`, `addTable` and `getTableByName`.
- **Builder** (`Grouping`, `Builder`): `MssqlSchemaBuilder.buildDatabase`,
  which turns four flat lists of catalog rows into the table graph.  Each
  `Map` keyed by table name, index key or constraint name becomes an
  insertion-ordered group list.  A foreign key ends up on its source
  table's `foreignKeys` when that table has column rows, and on its
  target table's `inverseForeignKeys` when that table has column rows.
- **Name formatting** (`NameFormatter`, `NameFormatterContextual`): word
  splitting and camel, Pascal, snake and kebab case, prefixes, suffixes
  and file extensions, and the per-kind (file, class, property)
  configuration.
- **Import paths** (`ImportPath`): `ImportPathResolver.getImportPath`
  over POSIX paths.
- **Generators** (`PropertyGenerator`, `RelationGenerator`,
  `IndexDecoratorGenerator`, `ImportGenerator`, `EntityGenerator`): the
  text of one entity file, part by part, and the set of `typeorm` names
  it imports.
- **Writers**:
  - `EntityWriter` is the current `generateEntities`, one map entry per
    table.
  - `LegacyEntityWriter` is the earlier, self-contained `EntityWriter`
    under `src/writers`.  It is modelled on its own and also compared
    with the current generators.

A call that throws in the source returns `None` in the model.  One
example is toCamelCase on a name with no words, where `words[0]` is
`undefined`.  Another is a key without source columns: `fk.sourceColumns[0]`
is `undefined`, and calling `.replace` on it throws.  Each generator
fails exactly when a name it formats fails or, in the relation generators
and the earlier writer, a key it renders has no source column.  A JavaScript `Set` is a duplicate-free sequence kept
in insertion order.  A JavaScript `Map` filled in a loop is the map
obtained by writing its entries in order, so a later entry with the same
key wins.

Four behaviours of the code shape the model:

- There is no separate naming pass over all tables.  Collection names
  are chosen per table while its relations are generated.
- Index rows are grouped by the string `table::index`, not by the pair,
  so two different pairs can share a group (`Builder.IndexKeyCollision`).
- Related-class imports are sorted by raw table name, not by formatted
  class name.
- Neither table-name nor column-name uniqueness is enforced.  With
  repeated column names, only the first column of a name receives key
  flags.  The lemmas that need uniqueness take it as a precondition.

## Model

| member | source | states |
|---|---|---|
| Schema.NewTable | src/readers/models/Table.ts:8-15 | A new table has the given name and schema, no columns, keys or indexes, and no primary-key name. |
| Schema.GetColumn | src/readers/models/Table.ts:21-23 | Finds a column with the name iff one exists, and then returns the first such column in table order. |
| Schema.PrimaryColumns | src/readers/models/Table.ts:17-19 | The result holds exactly the table's primary columns, each as often as the table holds it. |
| Schema.PrimaryColumnsKeepOrder | src/readers/models/Table.ts:17-19 | Filtering keeps column order: the primary columns of `a + b` are those of `a` followed by those of `b`. |
| Schema.SetPrimaryKey | src/readers/models/Table.ts:25-27 | Records the primary-key name and changes nothing else in the table. |
| Schema.NewDatabase | src/core/schema/models/Database.ts:7-9 | A new database has the given schema and no tables. |
| Schema.AddTable | src/core/schema/models/Database.ts:11-13 | Appends the table after the existing ones and keeps the schema. |
| Schema.GetTableByName | src/core/schema/models/Database.ts:15-17 | Finds a table iff one has the name, and then returns the first such table. |
| Schema.AddTableThenGet | src/core/schema/models/Database.ts:11-17 | After adding a table, its name is found.  An earlier table of the same name still shadows it; otherwise the added table is found. |
| Grouping.GroupByCharacterized | src/core/schema/mssql/builder.ts:34-39 | Grouping rows by key through an insertion-ordered map gives one group per distinct key, in first-seen order, holding that key's rows in arrival order. |
| Grouping.GroupByWellFormed | src/core/schema/mssql/builder.ts:86-98 | Every group is non-empty and no two groups share a key. |
| Grouping.UpsertNewKey | src/core/schema/mssql/builder.ts:36-37 | Opening a group for a key not yet seen keeps the grouping invariant for the rows read so far. |
| Grouping.UpsertOldKey | src/core/schema/mssql/builder.ts:37-38 | Appending a row to an existing group keeps the grouping invariant. |
| Builder.NewColumns | src/core/schema/mssql/builder.ts:18-31 | One column per catalog row, in row order, each built from its row with both key flags off. |
| Builder.CreateTablesCharacterized | src/core/schema/mssql/builder.ts:14-32 | One table per distinct table name, in first-seen order, with distinct names, each holding the columns of its own rows in row order. |
| Builder.PkGroups | src/core/schema/mssql/builder.ts:34-39 | One group per table named by the key rows, in first-seen order.  Each group holds that table's key columns in row order and takes its key name from the table's first key row. |
| Builder.PkGroupsFor | src/core/schema/mssql/builder.ts:34-43 | A table without key rows is named by no key group; a table with key rows is named by exactly one, listing its rows' columns. |
| Builder.IndexGroups | src/core/schema/mssql/builder.ts:54-71 | One group per distinct `table::index` string, in first-seen order.  Table, index name and unique flag come from the group's first row, and the columns are the group's rows in order. |
| Builder.ForeignKeys | src/core/schema/mssql/builder.ts:86-98 | One key per constraint name, in first-seen order, with pairwise distinct names.  Source and target tables come from the first row of the constraint, and the two column lists pair up its rows in arrival order. |
| Builder.MarkColumns | src/core/schema/mssql/builder.ts:45-49 | Flags exactly the first column of each listed name, keeps every column name, and leaves every other column unchanged. |
| Builder.MarkColumnStep | src/core/schema/mssql/builder.ts:46-48 | One lookup and flag keeps the column names and which column is the first of its name, and flags only the first column with the looked-up name. |
| Builder.ApplyAll | src/core/schema/mssql/builder.ts:41-43 | A stage keeps the number of tables and leaves a table no group names unchanged.  When the loop body keeps names, every table keeps its name. |
| Builder.StepsKeepNames | src/core/schema/mssql/builder.ts:41-108 | None of the four loop bodies renames a table. |
| Builder.ApplyAllDistinct | src/core/schema/mssql/builder.ts:41-43 | A stage updates each table by exactly the groups naming it, in group order, and table names stay distinct. |
| Builder.MarkColumnsAppend | src/core/schema/mssql/builder.ts:45-49 | Marking the names `a + b` is marking `a`, then `b`. |
| Builder.FindColumnSameNames | src/readers/models/Table.ts:21-23 | Column lookup depends only on the column names, so setting flags never changes which column a name finds. |
| Builder.ApplyAllPointwise | src/core/schema/mssql/builder.ts:41-43 | Applying the groups to tables with distinct names gives each table exactly the groups aimed at its name, in group order. |
| Builder.ApplyToTableName | src/core/schema/mssql/builder.ts:41-84 | No stage renames a table. |
| Builder.ApplyToTableNoMatch | src/core/schema/mssql/builder.ts:42-43 | A group whose table is missing is skipped: a table no group names is unchanged. |
| Builder.ApplyToTableOneMatch | src/core/schema/mssql/builder.ts:41-52 | A table that exactly one group names receives exactly that group's update. |
| Builder.PkStageOnTable | src/core/schema/mssql/builder.ts:34-52 | The primary-key stage flags the table's listed key columns and appends one primary index, with both flags set, listing the key's columns in row order. |
| Builder.IndexStageOnTable | src/core/schema/mssql/builder.ts:54-84 | The index stage flags a column unique when a unique index covers it, and appends one index per `table::index` group, in first-seen order, with the group's columns. |
| Builder.ForeignKeysFrom | src/core/schema/mssql/builder.ts:100-103 | The keys attached to a table are exactly the grouped keys whose source is that table. |
| Builder.ForeignKeysTo | src/core/schema/mssql/builder.ts:105-108 | The inverse keys of a table are exactly the grouped keys whose target is that table. |
| Builder.ForeignKeyStageOnTable | src/core/schema/mssql/builder.ts:100-103 | Attaching keys to source tables appends, in group order, exactly the keys leaving that table. |
| Builder.InverseStageOnTable | src/core/schema/mssql/builder.ts:105-108 | Attaching keys to target tables appends, in group order, exactly the keys entering that table. |
| Builder.ForeignKeysFirstRow | src/core/schema/mssql/builder.ts:86-98 | A key's source and target tables are those of the earliest row carrying its constraint name. |
| Builder.FlagsOnTable | src/core/schema/mssql/builder.ts:41-84 | After both key stages, a column is primary or unique iff it is the first column of its name and its name is listed by a primary key or a unique index of its table. |
| Builder.FlagsWithDistinctColumnNames | src/core/schema/mssql/builder.ts:41-84 | With distinct column names, a column is primary iff its name is a key column, and unique iff a unique index lists it. |
| Builder.BuildTableShape | src/core/schema/mssql/builder.ts:34-108 | The four stages together: both flag passes on the columns, the primary index before the secondary ones, and the keys leaving and entering the table. |
| Builder.IndexStepShape | src/core/schema/mssql/builder.ts:73-84 | An index group touches only the table it names.  A unique group flags its columns unique, and every group appends one index that is not a primary key. |
| Builder.StagedFields | src/core/schema/mssql/builder.ts:14-108 | A freshly created table after the four stages keeps its name and schema and has no key name.  Its columns carry their key flags, and it holds exactly the indexes and keys the stages append. |
| Builder.BuildTableName | src/core/schema/mssql/builder.ts:41-108 | The four stages together keep a table's name. |
| Builder.ShapedTableBuilt | src/core/schema/mssql/builder.ts:14-108 | A freshly created table, after the four stages, is what the builder promises for its name. |
| Builder.BuildTableCharacterized | src/core/schema/mssql/builder.ts:14-108 | Every stage applied to a freshly created table yields what the builder promises for its name. |
| Builder.BuildDatabasePointwise | src/core/schema/mssql/builder.ts:10-115 | The database holds the created tables in order, each updated by exactly the groups that name it. |
| Builder.BuildDatabase | src/core/schema/mssql/builder.ts:10-115 | The database has the builder's schema and one table per distinct table name of the column rows, in first-seen order. |
| Builder.StagesKeepNames | src/core/schema/mssql/builder.ts:41-108 | The four loops together keep the number of tables and each table's name. |
| Builder.AddTables | src/core/schema/mssql/builder.ts:110-112 | Adding the tables appends them in map order and keeps the schema. |
| Builder.BuildDatabaseCharacterized | src/core/schema/mssql/builder.ts:10-115 | The database has the builder's schema and one table per distinct table name, in first-seen order.  Each table has its columns with their key flags, its primary index then its secondary indexes, and the keys leaving and entering it. |
| Builder.ForeignKeyAttachedAtBothEnds | src/core/schema/mssql/builder.ts:100-108 | A foreign key is in a table's `foreignKeys` iff the table is its source, and in its `inverseForeignKeys` iff the table is its target. |
| Builder.BuiltTableNamesDistinct | src/core/schema/mssql/builder.ts:14-32 | Table names in the result are distinct and are exactly the table names of the column rows. |
| Builder.RenamedDistinct | src/core/schema/mssql/builder.ts:110-112 | Tables named position by position like a list of distinct-named tables have distinct names, and exactly those names. |
| Builder.IndexKeyCollision | src/core/schema/mssql/builder.ts:60 | The rows (`a::b`, `c`) and (`a`, `b::c`) differ, yet they land in one index group under the first row's table. |
| NameFormatter.InsertBoundaries | src/core/utils/name-formatter.ts:53 | The boundary scan only lengthens the text and keeps its first character. |
| NameFormatter.InsertBoundariesNone | src/core/utils/name-formatter.ts:53 | Text with no capital after a lower-case letter or digit is unchanged. |
| NameFormatter.InsertBoundariesSplit | src/core/utils/name-formatter.ts:53 | Where a lower-case letter or digit meets a capital, exactly one space is inserted between them. |
| NameFormatter.Unseparate | src/core/utils/name-formatter.ts:54 | Each `-` and `_` becomes a space; every other character is kept. |
| NameFormatter.Words | src/core/utils/name-formatter.ts:56-57 | Splitting on white-space runs yields non-empty words free of white space. |
| NameFormatter.WordsJoin | src/core/utils/name-formatter.ts:56-57 | Splitting words that were joined by single spaces gives the same words back. |
| NameFormatter.SplitWords | src/core/utils/name-formatter.ts:51-58 | Every word is non-empty, lower-case, and free of white space and separators. |
| NameFormatter.Capitalize | src/core/utils/name-formatter.ts:60-62 | The first character is upper-cased, the rest lower-cased, and the length is kept. |
| NameFormatter.ToCamelCase | src/core/utils/name-formatter.ts:2-5 | The result starts with a non-capital.  Lower-cased, it is the input's words glued together. |
| NameFormatter.CamelLowered | src/core/utils/name-formatter.ts:2-5 | The first word lower-cased, followed by the other words capitalised, starts with a non-capital and lower-cases to the words glued together. |
| NameFormatter.ToPascalCase | src/core/utils/name-formatter.ts:7-9 | Lower-cased, the result is the input's words glued together. |
| NameFormatter.CapitalizedLowered | src/core/utils/name-formatter.ts:7-9 | Capitalised words, glued and lower-cased, are the words glued together. |
| NameFormatter.ToSnakeCase | src/core/utils/name-formatter.ts:11-15 | The result has no capital, and splitting it gives back exactly the input's words, so applying it twice is applying it once. |
| NameFormatter.ToKebabCase | src/core/utils/name-formatter.ts:17-21 | The result has no capital, and splitting it gives back exactly the input's words, so applying it twice is applying it once. |
| NameFormatter.SnakeIsKebabUnderscored | src/core/utils/name-formatter.ts:11-21 | The snake form is the kebab form with every `-` turned into `_`. |
| NameFormatter.SplitJoined | src/core/utils/name-formatter.ts:51-58 | Words joined by `_` or `-` split back into the same words. |
| NameFormatter.SplitGlued | src/core/utils/name-formatter.ts:51-62 | Capitalised words glued together split back into the words, when every joint is a word boundary. |
| NameFormatter.PascalRoundTrip | src/core/utils/name-formatter.ts:7-9 | When the words glue cleanly, Pascal case keeps them and is idempotent. |
| NameFormatter.CamelAsPieces | src/core/utils/name-formatter.ts:2-5 | Camel case is the first word as split, followed by the remaining words capitalised. |
| NameFormatter.CamelRoundTrip | src/core/utils/name-formatter.ts:2-5 | When the words glue cleanly, camel case keeps them and is idempotent. |
| NameFormatter.SnakeToPascal | src/core/utils/name-formatter.ts:7-9 | Snake text re-cased to Pascal capitalises each word: `user_account` becomes `UserAccount`. |
| NameFormatter.PascalToSnake | src/core/utils/name-formatter.ts:11-15 | Pascal text re-cased to snake recovers its words: `UserAccount` becomes `user_account`. |
| NameFormatter.KebabToCamel | src/core/utils/name-formatter.ts:2-5 | Kebab text re-cased to camel keeps its first word and capitalises the rest: `my-table` becomes `myTable`. |
| NameFormatter.PascalMergesWords | src/core/utils/name-formatter.ts:7-9 | Without clean joints Pascal case loses a boundary: `a_b` becomes `AB`, which splits as the single word `ab`. |
| NameFormatter.CamelOfSeparatorsFails | src/core/utils/name-formatter.ts:2-5 | A name made only of separators has no first word, so camel case throws. |
| NameFormatter.ApplyCase | src/core/utils/name-formatter.ts:23-34 | Fails iff camel case is asked of text with no words.  Otherwise camel, pascal, snake and kebab styles give exactly the camel, pascal, snake and kebab conversions of the text.  Camel and pascal results lower-case to the text's words glued together; snake and kebab results have no capitals and split back into the text's words. |
| NameFormatter.ApplyAffixes | src/core/utils/name-formatter.ts:36-38 | The prefix, then the name, then the suffix; an absent affix is empty. |
| NameFormatter.WithExtension | src/core/utils/name-formatter.ts:48 | A non-empty extension is appended after a dot; an absent or empty one adds nothing. |
| NameFormatter.FormatName | src/core/utils/name-formatter.ts:40-49 | The affixes are attached before re-casing, so they are re-cased too; the extension is added afterwards.  Fails iff camel case meets a name with no words. |
| NameFormatter.KebabPrefixWords | src/core/utils/name-formatter.ts:51-58 | A word, a `-` and a single-word name split into the word and the lower-cased name. |
| NameFormatter.KebabPrefixRecased | src/core/utils/name-formatter.ts:36-49 | A one-word prefix ending in `-` stays in front of the lower-cased name in kebab case: affixes are re-cased with the name. |
| NameFormatter.PrefixRecased | src/core/utils/name-formatter.ts:36-49 | The prefix `i-` before `Order`, in kebab case, gives `i-order`. |
| NameFormatterContextual.Format | src/core/utils/name-formatter-contextual.ts:37-40 | An absent configuration leaves the name unchanged; a present one formats without extension.  Fails only for camel case. |
| NameFormatterContextual.ToFileFormat | src/core/utils/name-formatter-contextual.ts:22-27 | File names read only the file section; without one the name is unchanged.  With one, the name gets the section's affixes, is converted to its case style and gets its file extension, if any, after a dot; it fails iff camel case is asked of affixed text with no words. |
| NameFormatterContextual.ToClassFormat | src/core/utils/name-formatter-contextual.ts:29-31 | Class names read only the class section; without one the name is unchanged.  With one, the name gets the section's affixes and is converted to its case style, never with a file extension; it fails iff camel case is asked of affixed text with no words. |
| NameFormatterContextual.ToPropertyFormat | src/core/utils/name-formatter-contextual.ts:33-35 | Property names read only the property section; without one the name is unchanged.  With one, the name gets the section's affixes and is converted to its case style, never with a file extension; it fails iff camel case is asked of affixed text with no words. |
| NameFormatterContextual.SectionsIndependent | src/core/utils/name-formatter-contextual.ts:22-40 | Changing one section never changes how the other two kinds of name are formatted. |
| NameFormatterContextual.ClassIsFileWithoutExtension | src/core/utils/name-formatter-contextual.ts:22-40 | A class name is formatted exactly as a file name would be under the same settings without an extension. |
| NameFormatterContextual.FileExtensionAppended | src/core/utils/name-formatter-contextual.ts:22-27 | With an extension configured, a formatted file name ends in a dot and the extension. |
| NameFormatterContextual.PropertyLowercase | src/core/utils/name-formatter-contextual.ts:33-35 | Snake and kebab property names always format and contain no capitals. |
| ImportPath.Dirname | src/core/utils/import-path-resolver.ts:11 | The directory is the path without its last segment; the root is its own directory. |
| ImportPath.CommonPrefix | src/core/utils/import-path-resolver.ts:12 | The shared leading run of two paths is maximal. |
| ImportPath.RelativeResolves | src/core/utils/import-path-resolver.ts:12 | Following the relative path from the start directory leads back to the target. |
| ImportPath.RelativeBelow | src/core/utils/import-path-resolver.ts:12 | A target below the start directory is reached without climbing. |
| ImportPath.GetImportPath | src/core/utils/import-path-resolver.ts:7-15 | The specifier always starts with a dot.  It is the relative path with slashes normalised and `.ts` removed, with `./` in front unless it already starts with a dot. |
| ImportPath.ImportBelow | src/core/utils/import-path-resolver.ts:7-15 | A target in the importing file's directory or below is imported as `./` followed by its remaining segments, without `.ts`. |
| ImportPath.SubdirectoryExample | src/core/utils/import-path-resolver.ts:7-15 | `out/a.ts` importing `out/sub/b.ts` writes `./sub/b`. |
| ImportPath.SiblingExample | src/core/utils/import-path-resolver.ts:7-15 | `out/x/a.ts` importing `out/y/b.ts` writes `../y/b`, and no `./` is added. |
| PropertyGenerator.KeptColumns | src/core/output/generators/property-generator.ts:12-15 | Keeps exactly the columns whose name is not the first source column of one of the table's foreign keys, each as often as the table holds it. |
| PropertyGenerator.KeptColumnsKeepOrder | src/core/output/generators/property-generator.ts:14-15 | Filtering keeps column order: the kept columns of `a + b` are those of `a` followed by those of `b`. |
| PropertyGenerator.EmittedColumns | src/core/output/generators/property-generator.ts:11-18 | Every column not covered by a key, each as often as the table holds it, in name order; columns of one name keep their table order. |
| PropertyGenerator.ForeignKeyColumnsSkipped | src/core/output/generators/property-generator.ts:12-15 | No property is emitted for the first source column of any foreign key. |
| PropertyGenerator.ColumnOptions | src/core/output/generators/property-generator.ts:41-64 | The options are exactly those that apply to the column, in fixed order: nullable, unique, length, precision, scale, default. |
| PropertyGenerator.ColumnOptionsUnique | src/core/output/generators/property-generator.ts:41-64 | Any list in that order holding the same options is the option list. |
| PropertyGenerator.DecoratorText | src/core/output/generators/property-generator.ts:23-34 | The decorator opens with `@` and the name of the decorator chosen for the column, and closes its call. |
| PropertyGenerator.CleanDefault | src/core/output/generators/property-generator.ts:60-62 | The default text has every quote removed, then one enclosing pair of parentheses around non-empty single-line text; it never contains a quote. |
| PropertyGenerator.DefaultLiteralClosed | src/core/output/generators/property-generator.ts:60-62 | A written default never closes the quoted literal it sits in. |
| PropertyGenerator.DefaultStripsOneLayer | src/core/output/generators/property-generator.ts:60-62 | A doubly parenthesised default such as `((x))` keeps one pair of parentheses. |
| PropertyGenerator.OptionsText | src/core/output/generators/property-generator.ts:63 | The option text is empty iff there are no options. |
| PropertyGenerator.TsType | src/core/output/generators/property-generator.ts:66-72 | Numeric catalog types map to `number`, `bit` to `boolean`, date types to `Date`, all others to `string`, ignoring letter case. |
| PropertyGenerator.TsTypeIgnoresCase | src/core/output/generators/property-generator.ts:67 | Upper-casing the catalog type does not change the TypeScript type. |
| PropertyGenerator.PropertyLine | src/core/output/generators/property-generator.ts:20-39 | Fails iff the property name cannot be formatted.  Otherwise the line is the decorator, a line break and a tab, the formatted name and the type. |
| PropertyGenerator.TypeAnnotation | src/core/output/generators/property-generator.ts:36-38 | The declaration's type is the column's TypeScript type, and it is widened by `null` (the declaration ends in `null;`) exactly when the column is nullable. |
| PropertyGenerator.NullableAnnotation | src/core/output/generators/property-generator.ts:37-38 | No written TypeScript type ends in `l`, so the declaration ends in the `null` widening exactly when it was added. |
| PropertyGenerator.PropertyLineShape | src/core/output/generators/property-generator.ts:23-38 | A property opens with the decorator chosen for the column and closes with its type annotation. |
| PropertyGenerator.Generate | src/core/output/generators/property-generator.ts:11-18 | One line per emitted column in name order; fails iff some column's name fails to format. |
| PropertyGenerator.Symbols | src/core/output/generators/property-generator.ts:23-34 | Records the decorator name of each emitted column, in emitted order. |
| PropertyGenerator.GenerateTotal | src/core/output/generators/property-generator.ts:11-18 | Without a camel-case property configuration, generation never fails. |
| RelationGenerator.ManyToOneOf | src/core/output/generators/relation-generator.ts:15-31 | A key on this table becomes a relation to the target class.  The property is the first source column without its trailing `Id`, and the back-reference is this table's property name plus `s`.  Fails iff the key has no source column or a name cannot be formatted. |
| RelationGenerator.ManyToOneText | src/core/output/generators/relation-generator.ts:25-29 | The block opens with `@ManyToOne` pointing at the target class and ends by declaring the property with that class as its type. |
| RelationGenerator.ManyToOnes | src/core/output/generators/relation-generator.ts:15-31 | One relation per owned key, in key order; fails iff one key fails. |
| RelationGenerator.OneToManyOf | src/core/output/generators/relation-generator.ts:36-45 | An inverse key becomes a collection of the source class.  Its alias is the source table's property name, and its inverse side is the source column without `Id`.  Fails iff the key has no source column or a name cannot be formatted. |
| RelationGenerator.OneToManyText | src/core/output/generators/relation-generator.ts:44 | The block opens with `@OneToMany` pointing at the source class and ends by declaring the property as an array of that class. |
| RelationGenerator.Aliases | src/core/output/generators/relation-generator.ts:39 | The alias of each referencing table is its name in property format, in key order; fails iff one of them fails. |
| RelationGenerator.OneToManysNamed | src/core/output/generators/relation-generator.ts:36-45 | One collection per inverse key, in key order, under the given names; fails iff one of them fails. |
| RelationGenerator.VisitCharacterized | src/core/output/generators/relation-generator.ts:34-40 | One read of the counter, an object literal: the name is the alias plus `s`, with `NaN` appended exactly when the alias is `__proto__` or a name `{}` inherits that no earlier key used.  The counter stays as the earlier keys left it, plus this key. |
| RelationGenerator.PlainNamesAsWritten | src/core/output/generators/relation-generator.ts:34-40 | Where no alias is a name `{}` inherits, every collection is named the alias plus `s`. |
| RelationGenerator.InheritedNamesExample | src/core/output/generators/relation-generator.ts:40 | The aliases `valueOf`, `valueOf` are named `valueOfsNaN`, then `valueOfs`. |
| RelationGenerator.InheritedAliasExample | src/core/output/generators/relation-generator.ts:33-46 | `customer` referenced twice from a table named `valueOf` gets the collections `valueOfsNaN`, then `valueOfs`. |
| RelationGenerator.OneToManysAsWritten | src/core/output/generators/relation-generator.ts:33-46 | As written: one collection per inverse key, in key order, named by the counter as the code runs it on an object literal.  Fails iff some key's names cannot be formatted. |
| RelationGenerator.AsWrittenDuplicateProperty | src/core/output/generators/relation-generator.ts:34-40 | Two inverse keys from the same source table produce collections with the same property name.  The one exception is when the first of them is the first use of a name `{}` inherits, such as `valueOf`, which alone gets `NaN` appended. |
| RelationGenerator.TwiceReferencedExample | src/core/output/generators/relation-generator.ts:33-46 | `customer` referenced twice from `order` gets two `orders` collections as written; numbered, the second is `orders2`. |
| RelationGenerator.Names | src/core/output/generators/relation-generator.ts:34-40 | The k-th use of an alias is named alias plus `s`, with the number k appended when k is 2 or more. |
| RelationGenerator.NumberedNamesExample | src/core/output/generators/relation-generator.ts:40 | Numbered, the aliases `order`, `order` are named `orders`, then `orders2`. |
| RelationGenerator.OccurrenceIncreases | src/core/output/generators/relation-generator.ts:40 | A later key with the same alias is a later use of that alias. |
| RelationGenerator.CollectionNameInjective | src/core/output/generators/relation-generator.ts:40 | A numbered collection name determines both its alias and its number. |
| RelationGenerator.NamesDistinct | src/core/output/generators/relation-generator.ts:34-40 | The numbered collection names are pairwise distinct. |
| RelationGenerator.NamesAgreeWithoutRepeats | src/core/output/generators/relation-generator.ts:34-40 | Where no alias repeats, numbering changes no name. |
| RelationGenerator.AsWrittenNamesClash | src/core/output/generators/relation-generator.ts:34-40 | For two keys with the same alias, the names as written coincide unless the first is the first use of an inherited name; the numbered names always differ. |
| RelationGenerator.OneToManys | src/core/output/generators/relation-generator.ts:33-46 | Numbered: one collection per inverse key, in key order, named by their numbered names, and no two with the same property. |
| RelationGenerator.NumberingKeepsFailures | src/core/output/generators/relation-generator.ts:33-46 | Numbering the names fails exactly where the code as written fails. |
| RelationGenerator.Render | src/core/output/generators/relation-generator.ts:11-13 | Every owned relation first, in key order, then every collection, one text each. |
| RelationGenerator.Generate | src/core/output/generators/relation-generator.ts:11-13 | Fails iff an owned key or an inverse key fails; otherwise renders the owned relations, then the collections named as written. |
| RelationGenerator.GenerateNumbered | src/core/output/generators/relation-generator.ts:11-13 | Fails on exactly the tables the code as written fails on; otherwise renders the owned relations and the numbered collections. |
| RelationGenerator.Symbols | src/core/output/generators/relation-generator.ts:17-18 | Records `ManyToOne` and `JoinColumn` iff the table owns a key, and `OneToMany` iff it is referenced. |
| RelationGenerator.EndsAgree | src/core/output/generators/relation-generator.ts:15-46 | The two ends of a key agree.  The owner's back-reference is the first collection name on the referenced side, and the owner's property is that collection's inverse side. |
| IndexDecoratorGenerator.SortedIndexes | src/core/output/generators/index-decorator-generator.ts:15 | The indexes rearranged into name order, a permutation of them; indexes of one name keep their stored order. |
| IndexDecoratorGenerator.IndexLine | src/core/output/generators/index-decorator-generator.ts:16-20 | Each index becomes one `@Index` decorator: its name, then its columns quoted in stored order, and it ends in `, { unique: true })` exactly when the index is unique. |
| IndexDecoratorGenerator.UniqueOption | src/core/output/generators/index-decorator-generator.ts:18-19 | After a column list closed by `]`, the text ends in the unique option exactly when the option was added. |
| IndexDecoratorGenerator.Generate | src/core/output/generators/index-decorator-generator.ts:9-22 | Empty iff the table has no index; otherwise one decorator per index in name order, one per line. |
| IndexDecoratorGenerator.Symbols | src/core/output/generators/index-decorator-generator.ts:12 | Records `Index` iff the table has an index, and no other name. |
| IndexDecoratorGenerator.GenerateIgnoresOrder | src/core/output/generators/index-decorator-generator.ts:15 | With distinct index names, the order the indexes are stored in does not change the output. |
| ImportGenerator.MentionsRelated | src/core/output/generators/import-generator.ts:13-20 | A name is visited by the two loops (key targets, then inverse-key sources) exactly when the table is related to it. |
| ImportGenerator.Related | src/core/output/generators/import-generator.ts:13-20 | The related tables are exactly the targets of the table's keys and the sources of its inverse keys, each once. |
| ImportGenerator.Imported | src/core/output/generators/import-generator.ts:23-25 | Exactly the related tables whose name differs from the table's own, ignoring case, in strictly increasing code-point order. |
| ImportGenerator.ImportLine | src/core/output/generators/import-generator.ts:26-31 | Imports the formatted class from the path between the two formatted file names; fails iff a name fails. |
| ImportGenerator.BaseLine | src/core/output/generators/import-generator.ts:34 | The line opens `import { ` and closes ` } from 'typeorm';`. |
| ImportGenerator.BaseLineSorted | src/core/output/generators/import-generator.ts:34 | The line lists exactly the used names, each as often as it was recorded, in non-decreasing code-point order. |
| ImportGenerator.BaseLineIgnoresOrder | src/core/output/generators/import-generator.ts:34 | The `typeorm` import depends only on which names were used, not on the order they were recorded in. |
| ImportGenerator.Block | src/core/output/generators/import-generator.ts:35 | The block starts with the `typeorm` import and ends in a line break. |
| ImportGenerator.Lines | src/core/output/generators/import-generator.ts:22-32 | One line per imported table in that order; fails iff one fails. |
| ImportGenerator.Generate | src/core/output/generators/import-generator.ts:12-36 | The `typeorm` line, then the related imports, one per line, ending in a line break. |
| ImportGenerator.SideBySideImport | src/core/output/generators/import-generator.ts:26-31 | Without file or class naming, and with both files in one directory, a class is imported from `./` plus its name. |
| EntityGenerator.UsedSymbols | src/core/output/generators/entity-generator.ts:9 | `Entity` plus the names recorded by the index, property and relation parts, each once. |
| EntityGenerator.UsedSymbolsExactly | src/core/output/generators/entity-generator.ts:17-26 | The `typeorm` import names exactly the decorators the file uses.  That is `Entity`, `Index` iff there are indexes, each emitted column's decorator, and the relation decorators iff there are relations of that kind. |
| EntityGenerator.Body | src/core/output/generators/entity-generator.ts:36 | The class body is empty iff there are no members. |
| EntityGenerator.Assemble | src/core/output/generators/entity-generator.ts:30-40 | The empty parts are dropped.  After the imports come the index line only when there are indexes, the entity decorator, the class line, the body only when there are members, and the closing brace. |
| EntityGenerator.Generate | src/core/output/generators/entity-generator.ts:17-41 | Fails iff properties, relations, imports or the class name fail; otherwise assembles the parts in the fixed order. |
| EntityGenerator.GenerateMembers | src/core/output/generators/entity-generator.ts:36 | One class member per emitted column and per key on either side. |
| EntityGenerator.GenerateLayout | src/core/output/generators/entity-generator.ts:17-41 | A file opens with the `typeorm` import, has an index line iff the table has indexes, and closes the class. |
| EntityWriter.FileKey | src/core/output/entity-writer.ts:19 | The key is the formatted file name plus `.ts`, or the table name plus `.ts` without a file section; fails iff the name fails. |
| EntityWriter.WriteAll | src/core/output/entity-writer.ts:12-23 | Fails iff some table's name or entity fails; otherwise the keys are exactly the tables' file names. |
| EntityWriter.GenerateEntities | src/core/output/entity-writer.ts:12-23 | Fails iff some table's file name or entity fails; otherwise the keys are exactly the tables' file names. |
| EntityWriter.ToMap | src/core/output/entity-writer.ts:13-20 | The keys of the map are exactly the keys written to it. |
| EntityWriter.ToMapLastWins | src/core/output/entity-writer.ts:15-20 | The entry left under a key is the last one written to it. |
| EntityWriter.FileHoldsItsTable | src/core/output/entity-writer.ts:15-20 | A table's file holds that table's entity, unless a later table has the same file name. |
| EntityWriter.OneFilePerTable | src/core/output/entity-writer.ts:12-23 | Distinct file names give exactly one file per table, each holding its table's entity. |
| EntityWriter.DefaultFileNamesDistinct | src/core/output/entity-writer.ts:19 | Without a file section, distinct table names give distinct file names. |
| LegacyEntityWriter.ClassName | src/writers/entity-writer.ts:158-160 | The first character is upper-cased and the rest kept. |
| LegacyEntityWriter.CamelCase | src/writers/entity-writer.ts:162-164 | The first character is lower-cased and the rest kept. |
| LegacyEntityWriter.FirstLetterOnly | src/writers/entity-writer.ts:158-164 | Each conversion undoes the other's effect on the first letter, and a class name equals its table name ignoring case. |
| LegacyEntityWriter.FirstLetterCaseCollides | src/writers/entity-writer.ts:158-160 | Tables `order` and `Order` get the same class, and hence the same file. |
| LegacyEntityWriter.Columns | src/writers/entity-writer.ts:72-75 | The columns not covered by a key, each as often as the table holds it.  They are a permutation of the newer generator's columns. |
| LegacyEntityWriter.ColumnsKeepOrder | src/writers/entity-writer.ts:72-75 | Column order is kept: the columns written for `a + b` are those written for `a` followed by those written for `b`. |
| LegacyEntityWriter.ColumnText | src/writers/entity-writer.ts:76-93 | A column opens with its decorator, indented, and ends by declaring the column name with its type annotation. |
| LegacyEntityWriter.Options | src/writers/entity-writer.ts:134-148 | The options are exactly those that apply under this writer's rules, in the fixed order. |
| LegacyEntityWriter.OptionsAgree | src/writers/entity-writer.ts:134-148 | For types other than `datetime2` and `decimal`, and a default without quotes, the options equal the newer generator's. |
| LegacyEntityWriter.Datetime2KeepsLength | src/writers/entity-writer.ts:136-140 | A sized `datetime2` column keeps its length here and loses it in the newer generator. |
| LegacyEntityWriter.DefaultKeepsQuotes | src/writers/entity-writer.ts:143-145 | A quoted default keeps its quotes here, while the newer generator removes them. |
| LegacyEntityWriter.ColumnTextAgrees | src/writers/entity-writer.ts:76-93 | Where the options agree and no property naming is set, a column is written with the newer generator's decorator.  Only the indentation of the declaration differs. |
| LegacyEntityWriter.ManyToOneOf | src/writers/entity-writer.ts:97-113 | The property is the first source column camel-cased without `Id`; the target class and the back-reference come from the table names.  Fails iff the key has no source column. |
| LegacyEntityWriter.ManyToOneText | src/writers/entity-writer.ts:107-111 | The block opens with `@ManyToOne` pointing at the target class and ends by declaring the property with that class as its type, indented by two spaces. |
| LegacyEntityWriter.ManyToOneAgrees | src/writers/entity-writer.ts:97-113 | For names already cased as this writer would case them, the relation equals the newer generator's without naming configuration. |
| LegacyEntityWriter.ManyToOnes | src/writers/entity-writer.ts:97-113 | One relation per owned key, in key order; fails iff a key has no source column. |
| LegacyEntityWriter.OneToManyOf | src/writers/entity-writer.ts:115-132 | A collection under the given name; fails iff the key has no source column. |
| LegacyEntityWriter.OneToManyText | src/writers/entity-writer.ts:127-130 | The block opens with `@OneToMany` pointing at the source class and ends by declaring the collection as an array of that class, indented by two spaces. |
| LegacyEntityWriter.PluralNotInherited | src/writers/entity-writer.ts:116-129 | No name `{}` inherits ends in `s`, so every counter this writer reads starts unset and the numbering is the one the writer intends. |
| LegacyEntityWriter.NumberedNames | src/writers/entity-writer.ts:116-129 | One name per collection: the k-th use of a name gets k appended from the second use on. |
| LegacyEntityWriter.OneToManys | src/writers/entity-writer.ts:115-132 | One collection per inverse key, named by counting each alias-plus-`s` name; fails iff a key has no source column. |
| LegacyEntityWriter.NumberedNamesByAlias | src/writers/entity-writer.ts:122-129 | Counting by collection name numbers exactly as counting by alias does. |
| LegacyEntityWriter.OneToManyNamesDistinct | src/writers/entity-writer.ts:115-132 | A class's collections have pairwise distinct names, the same names the numbered newer generator gives. |
| LegacyEntityWriter.EndsAgree | src/writers/entity-writer.ts:97-132 | The owner's back-reference is the collection's name on the other side, and the owner's property is the collection's inverse side. |
| LegacyEntityWriter.RelatedClasses | src/writers/entity-writer.ts:44-46 | The related class names, each once: two related tables with one class name give one import. |
| LegacyEntityWriter.ImportedClasses | src/writers/entity-writer.ts:49-51 | The related classes other than the table's own, ignoring case, in strictly increasing code-point order. |
| LegacyEntityWriter.ImportedClassesAgree | src/writers/entity-writer.ts:43-56 | A class is imported iff it is the class of a table the newer generator imports. |
| LegacyEntityWriter.ImportLineAgrees | src/writers/entity-writer.ts:52 | For files side by side with no naming configuration, the newer generator writes this same import line. |
| LegacyEntityWriter.Imports | src/writers/entity-writer.ts:43-56 | The `typeorm` line alone when no class is imported; otherwise it is followed by the class imports, one per line. |
| LegacyEntityWriter.ImportsStart | src/writers/entity-writer.ts:48-55 | The imports start with the `typeorm` line. |
| LegacyEntityWriter.ImportsAsBlock | src/writers/entity-writer.ts:43-56 | With a final line break added, the imports are the newer generator's import block. |
| LegacyEntityWriter.UsedSymbols | src/writers/entity-writer.ts:21-32 | The recorded `typeorm` names are exactly the newer generator's, each once. |
| LegacyEntityWriter.BaseLineAgrees | src/writers/entity-writer.ts:48 | Both writers produce the same `typeorm` import line. |
| LegacyEntityWriter.Properties | src/writers/entity-writer.ts:26-30 | Columns, then owned relations, then collections, one entry each. |
| LegacyEntityWriter.GenerateEntity | src/writers/entity-writer.ts:20-41 | Fails iff a key on either side has no source column; otherwise fills the fixed template. |
| LegacyEntityWriter.Template | src/writers/entity-writer.ts:34-40 | The template starts with the imports and a blank line and ends by closing the class. |
| LegacyEntityWriter.GenerateEntityLayout | src/writers/entity-writer.ts:20-41 | A file opens with the same `typeorm` import as the newer generator's and closes the class. |
| LegacyEntityWriter.GenerateEntityMembers | src/writers/entity-writer.ts:26-30 | One property per kept column and per key on either side. |
| LegacyEntityWriter.GenerateEntities | src/writers/entity-writer.ts:8-18 | Fails iff some table fails; otherwise the file names are exactly the class names plus `.ts`. |
| LegacyEntityWriter.OneFilePerClass | src/writers/entity-writer.ts:8-18 | Distinct class names give one file per table, each holding its table's entity. |
| Ordering.SortStrings | src/core/output/generators/import-generator.ts:25 | A rearrangement of its input into non-decreasing code-point order. |
| Ordering.SortBy | src/core/output/generators/property-generator.ts:16 | A permutation of its input, sorted by the key in code-point order. |
| Ordering.SortByStable | src/core/output/generators/property-generator.ts:16 | The sort is stable: the elements sharing a key keep their order. |
| Ordering.SortedUnique | src/core/output/generators/property-generator.ts:16 | With distinct keys there is only one sorted arrangement, so the result of a sort does not depend on the algorithm. |

## Left out

- Reading the catalog is left out: the fetcher, the database drivers and
  the connection.  The builder takes the four row lists as parameters.
- The command line, `main.ts` and the file writers are left out.
  `FileWriter.resolvePath` reads the file system, so the import-path
  model takes it as a parameter `place` that maps a file name to its
  absolute path, already normalised into segments.
- `path.relative` and `path.dirname` are modelled for POSIX paths only.
  A Windows path would reach the back-slash replacement, which the model
  states but does not exercise.
- The `Index` model class is not part of this model.  Its shape
  (name, columns, primary-key flag, unique flag) is taken from the
  builder's constructor calls.
- `async`/`await` is taken as sequential evaluation.  No step of the
  core runs two awaited calls whose order matters.
- Letter case is mapped for ASCII only: `toLowerCase` and
  `toUpperCase` leave every character outside A-Z and a-z unchanged.
  Other Unicode case mappings are not modelled.
- Ordering.Le: every sort is by code point, the order of Dafny's `char`.
  The default `sort()` compares UTF-16 code units, which agrees with it
  except for characters above U+FFFF.  `localeCompare` (property and
  index order) is an ICU collation and differs from it.  ICU orders
  letters ignoring case first (`a` < `B` < `c`, where code points give
  `B` < `a`), and it places `_`, other punctuation and digits by its own
  table.  So names that differ in letter case, or mix `_` and digits
  with letters, can come out in another order in the source.  The model
  states only the code-point order.
- In-place sorting mutates the table's `indexes` (both index generators)
  and `foreignKeys`/`inverseForeignKeys` (the earlier writer).  The model
  returns sorted copies and leaves the table unchanged.  The earlier
  writer's comparator-less sorts of objects keep their order.
- `Table.pkName` is set only by `setPrimaryKey`, which the builder never
  calls.  The model keeps the field and the setter and nothing more.
- The `used` set shared between generators is modelled as each
  generator's own list of recorded names, merged in the source's order.
- `length`, `precision` and `scale` are JavaScript numbers in the source
  and `int` in the model.  The catalog query yields only integers for
  them, so fractions, `NaN` and the number-to-text rules for them are
  not modelled.
- Text is joined verbatim: names holding quotes or line breaks are
  written into the output unescaped, as in the source.

## Findings

| source | as written | input that shows it | evidently intended | confidence | as-written member | corrected member |
|---|---|---|---|---|---|---|
| src/core/output/generators/relation-generator.ts:34-40 | `count[alias]` is read from an object literal but never assigned for an ordinary alias, so every collection is named alias plus `s`.  Only a name `{}` inherits, such as `valueOf`, reads truthy, and `++` on it gives `NaN` | table `customer` referenced by two foreign keys from table `order`: both collections are declared as `orders` in one class.  Referenced twice from a table `valueOf`, the collections are `valueOfsNaN` and `valueOfs` | number repeated collections per alias (`orders`, `orders2`), as the earlier writer does | high (not executed) | RelationGenerator.OneToManysAsWritten, RelationGenerator.Generate, RelationGenerator.AsWrittenDuplicateProperty, RelationGenerator.TwiceReferencedExample, RelationGenerator.InheritedAliasExample | RelationGenerator.OneToManys, RelationGenerator.GenerateNumbered, RelationGenerator.NamesDistinct |
