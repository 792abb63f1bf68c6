/** The earlier single-file entity writer.  It takes no naming
    configuration: a class name is the table name with a capital first
    letter, a property is named after its column, and a related class is
    imported from `./` followed by its class name.  It shares the column
    decorators, the type mapping, the index decorators and the `typeorm`
    import line with the newer generators; where its rules differ, a lemma
    below says how. */
module LegacyEntityWriter {
  import opened Common
  import opened Ordering
  import opened Schema
  import PropertyGenerator
  import RelationGenerator
  import IndexDecoratorGenerator
  import ImportGenerator
  import EntityGenerator
  import EntityWriter
  import NameFormatterContextual
  import ImportPath

  // ---------------------------------------------------------------------
  // Names
  // ---------------------------------------------------------------------

  /** `getClassName`: the first character upper-cased, the rest kept. */
  function ClassName(name: string): (r: string)
    ensures |r| == |name|
    ensures name != [] ==> r[0] == ToUpperChar(name[0]) && r[1..] == name[1..]
  {
    if name == [] then [] else [ToUpperChar(name[0])] + name[1..]
  }

  /** `camelCase`: the first character lower-cased, the rest kept. */
  function CamelCase(s: string): (r: string)
    ensures |r| == |s|
    ensures s != [] ==> r[0] == ToLowerChar(s[0]) && r[1..] == s[1..]
  {
    if s == [] then [] else [ToLowerChar(s[0])] + s[1..]
  }

  lemma LowerOfUpperChar(c: char)
    ensures ToLowerChar(ToUpperChar(c)) == ToLowerChar(c)
    ensures ToUpperChar(ToLowerChar(c)) == ToUpperChar(c)
  {
  }

  /** Both conversions touch only the first letter, so each forgets what
      the other did, and neither changes the name read without case. */
  lemma FirstLetterOnly(s: string)
    ensures CamelCase(ClassName(s)) == CamelCase(s)
    ensures ClassName(CamelCase(s)) == ClassName(s)
    ensures Lower(ClassName(s)) == Lower(s)
  {
    if s != [] {
      LowerOfUpperChar(s[0]);
      assert CamelCase(ClassName(s)) == [ToLowerChar(s[0])] + s[1..];
      assert ClassName(CamelCase(s)) == [ToUpperChar(s[0])] + s[1..];
      assert forall i :: 0 <= i < |s| ==> Lower(ClassName(s))[i] == Lower(s)[i];
    }
  }

  /** Two tables whose names differ only in the case of the first letter
      share a class name, and so a file. */
  lemma FirstLetterCaseCollides()
    ensures ClassName("order") == ClassName("Order") == "Order"
  {
    assert ToUpperChar('o') == 'O';
    assert "order"[1..] == "rder";
    assert "Order"[1..] == "rder";
    assert ['O'] + "rder" == "Order";
  }

  // ---------------------------------------------------------------------
  // Columns
  // ---------------------------------------------------------------------

  /** The columns written as properties.  A `sort()` without a comparator
      compares every column by the same string, `[object Object]`, so the
      stable sort leaves them in column order: this writer keeps the
      columns the newer generator keeps, in their original order. */
  function Columns(t: Table): (r: seq<Column>)
    ensures forall c :: c in r <==> c in t.columns && !PropertyGenerator.IsForeignKeyColumn(t, c.name)
    ensures forall c :: multiset(r)[c] == if PropertyGenerator.IsForeignKeyColumn(t, c.name) then 0 else multiset(t.columns)[c]
    ensures multiset(r) == multiset(PropertyGenerator.EmittedColumns(t))
  {
    PropertyGenerator.KeptColumns(t)
  }

  /** Column order is kept: the columns written for `a + b` are those
      written for `a` followed by those written for `b`. */
  lemma ColumnsKeepOrder(t: Table, a: seq<Column>, b: seq<Column>)
    requires t.columns == a + b
    ensures Columns(t) == Columns(t.(columns := a)) + Columns(t.(columns := b))
  {
    PropertyGenerator.KeptColumnsKeepOrder(t, a, b);
  }

  /** Raw types that never take a size here: the newer list without
      `datetime2`. */
  const UnsizedTypes: seq<string> := ["datetime", "bit", "date", "int", "bigint", "smallint"]

  predicate Sized(c: Column) { c.sqlType !in UnsizedTypes }

  /** Whether an option, with its value, applies to a column.  Only `text`
      drops its length, and the default loses one pair of parentheses but
      keeps its quotes. */
  predicate Applies(c: Column, o: PropertyGenerator.ColumnOption)
  {
    match o
    case Nullable => c.isNullable
    case Unique => c.isUnique
    case Length(n) => Sized(c) && PropertyGenerator.Truthy(c.length) && c.sqlType != "text" && n == c.length.value
    case Precision(n) => Sized(c) && PropertyGenerator.Truthy(c.precision) && n == c.precision.value
    case Scale(n) => Sized(c) && PropertyGenerator.Truthy(c.scale) && n == c.scale.value
    case Default(e) => PropertyGenerator.HasDefault(c) && e == PropertyGenerator.StripParens(c.defaultValue.value)
  }

  /** One candidate of each kind, in rank order. */
  function Candidates(c: Column): (r: seq<PropertyGenerator.ColumnOption>)
    ensures |r| == 6
    ensures forall i :: 0 <= i < |r| ==> PropertyGenerator.Rank(r[i]) == i
  {
    [ PropertyGenerator.Nullable,
      PropertyGenerator.Unique,
      PropertyGenerator.Length(if c.length.Some? then c.length.value else 0),
      PropertyGenerator.Precision(if c.precision.Some? then c.precision.value else 0),
      PropertyGenerator.Scale(if c.scale.Some? then c.scale.value else 0),
      PropertyGenerator.Default(if c.defaultValue.Some? then PropertyGenerator.StripParens(c.defaultValue.value) else "") ]
  }

  /** `getColumnOptions`, before rendering. */
  function Options(c: Column): (r: seq<PropertyGenerator.ColumnOption>)
    ensures PropertyGenerator.StrictlyRanked(r)
    ensures forall o :: o in r <==> Applies(c, o)
  {
    var cands := Candidates(c);
    var r := Filter(cands, o => Applies(c, o));
    PropertyGenerator.FilterRanked(cands, o => Applies(c, o));
    forall o ensures o in r <==> Applies(c, o) {
      if Applies(c, o) {
        assert cands[PropertyGenerator.Rank(o)] == o;
      }
    }
    r
  }

  /** For any type other than `datetime2` and `decimal`, and a default
      without quotes, both writers give a column the same options. */
  lemma OptionsAgree(c: Column)
    requires c.sqlType != "datetime2" && c.sqlType != "decimal"
    requires c.defaultValue.Some? ==> '\'' !in c.defaultValue.value
    ensures Options(c) == PropertyGenerator.ColumnOptions(c)
  {
    forall o ensures o in Options(c) <==> o in PropertyGenerator.ColumnOptions(c) {
      assert Applies(c, o) <==> PropertyGenerator.Applies(c, o);
    }
    PropertyGenerator.ColumnOptionsUnique(c, Options(c));
  }

  /** A sized `datetime2` column keeps its length here and loses it in the
      newer generator. */
  lemma Datetime2KeepsLength(c: Column)
    requires c.sqlType == "datetime2" && PropertyGenerator.Truthy(c.length)
    ensures PropertyGenerator.Length(c.length.value) in Options(c)
    ensures PropertyGenerator.Length(c.length.value) !in PropertyGenerator.ColumnOptions(c)
  {
    assert Applies(c, PropertyGenerator.Length(c.length.value));
  }

  /** A quoted default keeps its quotes here; the newer generator removes
      them. */
  lemma DefaultKeepsQuotes(c: Column)
    requires PropertyGenerator.HasDefault(c) && '\'' in c.defaultValue.value
    ensures var e := PropertyGenerator.StripParens(c.defaultValue.value);
            && PropertyGenerator.Default(e) in Options(c)
            && '\'' in e
            && PropertyGenerator.Default(e) !in PropertyGenerator.ColumnOptions(c)
  {
    var d := c.defaultValue.value;
    var e := PropertyGenerator.StripParens(d);
    assert Applies(c, PropertyGenerator.Default(e));
    if PropertyGenerator.Parenthesised(d) {
      var k :| 0 <= k < |d| && d[k] == '\'';
      assert k != 0 && k != |d| - 1;
      assert e[k - 1] == '\'';
    }
  }

  /** The column decorator, with this writer's options. */
  function Decorator(c: Column): string
  {
    PropertyGenerator.DecoratorHead(c) + PropertyGenerator.ArgsWith(c, PropertyGenerator.OptionsText(Options(c))) + ")"
  }

  /** A column property: the decorator, then the declaration on its own
      line, both indented by two spaces. */
  function ColumnText(c: Column): (r: string)
    ensures StartsWith(r, "  " + Decorator(c) + "\n  ")
    ensures EndsWith(r, c.name + PropertyGenerator.TypeAnnotation(c))
  {
    var head := "  " + Decorator(c) + "\n  ";
    var declaration := c.name + PropertyGenerator.TypeAnnotation(c);
    PrefixOfAppend(head, declaration);
    head + declaration
  }

  /** Where the options agree, a column is written as the newer generator
      writes it without a property-name configuration, except that the
      declaration is indented by two spaces instead of a tab. */
  lemma ColumnTextAgrees(o: NameFormatterContextual.FormatterOptions, c: Column)
    requires o.propertyNaming.None?
    requires c.sqlType != "datetime2" && c.sqlType != "decimal"
    requires c.defaultValue.Some? ==> '\'' !in c.defaultValue.value
    ensures var d := PropertyGenerator.DecoratorText(c);
            && ColumnText(c) == "  " + d + "\n  " + c.name + PropertyGenerator.TypeAnnotation(c)
            && PropertyGenerator.PropertyLine(o, c) == Some("  " + d + "\n\t" + c.name + PropertyGenerator.TypeAnnotation(c))
  {
    OptionsAgree(c);
    assert Decorator(c) == PropertyGenerator.DecoratorText(c);
  }

  // ---------------------------------------------------------------------
  // Relations
  // ---------------------------------------------------------------------

  /** The many-to-one relation for `fk`: `None` when the key has no
      source column, whose `replace` would be called on `undefined`. */
  function ManyToOneOf(t: Table, fk: ForeignKey): (r: Option<RelationGenerator.ManyToOne>)
    ensures r.None? <==> fk.sourceColumns == []
    ensures r.Some? ==> && r.value.property == CamelCase(RelationGenerator.StripId(fk.sourceColumns[0]))
                        && r.value.targetClass == ClassName(fk.targetTable)
                        && r.value.backReference == CamelCase(t.name) + "s"
                        && r.value.sourceColumn == fk.sourceColumns[0]
                        && r.value.targetColumn == RelationGenerator.FirstOrUndefined(fk.targetColumns)
  {
    if fk.sourceColumns == [] then None
    else
      var source := fk.sourceColumns[0];
      Some(RelationGenerator.ManyToOne(CamelCase(RelationGenerator.StripId(source)), ClassName(fk.targetTable),
                                       CamelCase(t.name) + "s", source,
                                       RelationGenerator.FirstOrUndefined(fk.targetColumns)))
  }

  /** Where the names are already cased as this writer would case them,
      it builds the relation the newer generator builds without a naming
      configuration. */
  lemma ManyToOneAgrees(o: NameFormatterContextual.FormatterOptions, t: Table, fk: ForeignKey)
    requires o.propertyNaming.None? && o.classNaming.None?
    requires fk.sourceColumns != []
    requires CamelCase(RelationGenerator.StripId(fk.sourceColumns[0])) == RelationGenerator.StripId(fk.sourceColumns[0])
    requires ClassName(fk.targetTable) == fk.targetTable && CamelCase(t.name) == t.name
    ensures ManyToOneOf(t, fk) == RelationGenerator.ManyToOneOf(o, t, fk)
  {
  }

  /** As in the newer generator, with every line indented by two spaces. */
  function ManyToOneText(m: RelationGenerator.ManyToOne): (r: string)
    ensures StartsWith(r, "  @ManyToOne(() => " + m.targetClass + ", ")
    ensures EndsWith(r, "  " + m.property + ": " + m.targetClass + ";")
  {
    var head := "  @ManyToOne(() => " + m.targetClass + ", ";
    var middle := m.property + " => " + m.property + "." + m.backReference + ")\n"
                  + "  @JoinColumn([{ name: '" + m.sourceColumn + "', referencedColumnName: '" + m.targetColumn + "' }])\n";
    var declaration := "  " + m.property + ": " + m.targetClass + ";";
    Framed(head, middle, declaration);
    head + middle + declaration
  }

  /** `generateManyToOneRelations`, before rendering.  The comparator-less
      `sort()` leaves the keys in their order. */
  function ManyToOnes(t: Table): (r: Option<seq<RelationGenerator.ManyToOne>>)
    ensures r.None? <==> exists i :: 0 <= i < |t.foreignKeys| && t.foreignKeys[i].sourceColumns == []
    ensures r.Some? ==> |r.value| == |t.foreignKeys|
                        && forall i :: 0 <= i < |t.foreignKeys| ==> ManyToOneOf(t, t.foreignKeys[i]) == Some(r.value[i])
  {
    MapOption(t.foreignKeys, fk => ManyToOneOf(t, fk))
  }

  function AliasOf(fk: ForeignKey): string { CamelCase(fk.sourceTable) }

  /** The collection name before numbering: the alias plus `s`. */
  function PropertyOf(fk: ForeignKey): string { AliasOf(fk) + "s" }

  /** The one-to-many relation for `fk` under the collection name
      `property`; `None` when the key has no source column. */
  function OneToManyOf(fk: ForeignKey, property: string): (r: Option<RelationGenerator.OneToMany>)
    ensures r.None? <==> fk.sourceColumns == []
    ensures r.Some? ==> && r.value.property == property
                        && r.value.sourceClass == ClassName(fk.sourceTable)
                        && r.value.alias == AliasOf(fk)
                        && r.value.inverse == CamelCase(RelationGenerator.StripId(fk.sourceColumns[0]))
  {
    if fk.sourceColumns == [] then None
    else Some(RelationGenerator.OneToMany(property, ClassName(fk.sourceTable), AliasOf(fk),
                                          CamelCase(RelationGenerator.StripId(fk.sourceColumns[0]))))
  }

  function OneToManyText(r: RelationGenerator.OneToMany): (s: string)
    ensures StartsWith(s, "  @OneToMany(() => " + r.sourceClass + ", ")
    ensures EndsWith(s, "  " + r.property + ": " + r.sourceClass + "[];")
  {
    var head := "  @OneToMany(() => " + r.sourceClass + ", ";
    var middle := r.alias + " => " + r.alias + "." + r.inverse + ")\n";
    var declaration := "  " + r.property + ": " + r.sourceClass + "[];";
    Framed(head, middle, declaration);
    head + middle + declaration
  }

  /** The counter of this writer is keyed by the unnumbered collection
      name: its `k`-th use, for `k` above one, carries the number `k`. */
  function NumberedNames(props: seq<string>): (r: seq<string>)
    ensures |r| == |props|
  {
    seq(|props|, i requires 0 <= i < |props| =>
      var k := RelationGenerator.Occurrence(props, i);
      if k > 1 then props[i] + NatToString(k) else props[i])
  }

  /** This writer counts under the alias plus `s`, and no name `{}`
      inherits ends in `s`: every counter starts from `undefined`, so the
      numbering below is the one the source performs. */
  lemma PluralNotInherited(alias: string)
    ensures RelationGenerator.Plain(alias + "s")
  {
    var p := alias + "s";
    assert p[|p| - 1] == 's';
    forall m | m in RelationGenerator.ObjectPrototypeMembers || m == "__proto__" ensures m != p {
      assert m[|m| - 1] != 's';
    }
  }

  /** `generateOneToManyRelations`, before rendering: collections named
      alias plus `s`, numbered from the second use of a name on. */
  function OneToManys(t: Table): (r: Option<seq<RelationGenerator.OneToMany>>)
    ensures r.None? <==> exists i :: 0 <= i < |t.inverseForeignKeys| && t.inverseForeignKeys[i].sourceColumns == []
    ensures r.Some? ==> |r.value| == |t.inverseForeignKeys|
    ensures var names := NumberedNames(MapSeq(t.inverseForeignKeys, PropertyOf));
            r.Some? ==> forall i :: 0 <= i < |t.inverseForeignKeys| ==> OneToManyOf(t.inverseForeignKeys[i], names[i]) == Some(r.value[i])
  {
    var inv := t.inverseForeignKeys;
    var names := NumberedNames(MapSeq(inv, PropertyOf));
    var pairs := seq(|inv|, i requires 0 <= i < |inv| => (inv[i], names[i]));
    var r := MapOption(pairs, (p: (ForeignKey, string)) => OneToManyOf(p.0, p.1));
    assert forall i :: 0 <= i < |inv| ==> pairs[i] == (inv[i], names[i]);
    r
  }

  /** `Plurals` commutes with taking a prefix. */
  lemma SuffixedPrefix(xs: seq<string>, k: nat)
    requires k <= |xs|
    ensures RelationGenerator.Plurals(xs)[..k] == RelationGenerator.Plurals(xs[..k])
  {
  }

  /** Appending `s` keeps counts: `x + "s"` occurs among the suffixed
      names as often as `x` among the names. */
  lemma {:induction false} CountSuffixed(xs: seq<string>, x: string)
    ensures RelationGenerator.CountIn(RelationGenerator.Plurals(xs), x + "s") == RelationGenerator.CountIn(xs, x)
    decreases |xs|
  {
    if xs != [] {
      var init := xs[..|xs| - 1];
      SuffixedPrefix(xs, |xs| - 1);
      CountSuffixed(init, x);
      if xs[|xs| - 1] != x {
        AppendCancels(xs[|xs| - 1], x, "s");
      }
    }
  }

  /** Counting by collection name numbers the collections as counting by
      alias does, because appending `s` never makes two names equal. */
  lemma NumberedNamesByAlias(aliases: seq<string>)
    ensures NumberedNames(RelationGenerator.Plurals(aliases)) == RelationGenerator.Names(aliases)
  {
    var props := RelationGenerator.Plurals(aliases);
    forall i | 0 <= i < |aliases|
      ensures NumberedNames(props)[i] == RelationGenerator.Names(aliases)[i]
    {
      SuffixedPrefix(aliases, i + 1);
      CountSuffixed(aliases[..i + 1], aliases[i]);
      assert RelationGenerator.Occurrence(props, i) == RelationGenerator.Occurrence(aliases, i);
    }
  }

  /** The collections of a class all have different names, and each is
      the name the numbered newer generator gives the same aliases. */
  lemma OneToManyNamesDistinct(t: Table)
    requires OneToManys(t).Some?
    ensures var rs := OneToManys(t).value;
            var aliases := MapSeq(t.inverseForeignKeys, AliasOf);
            && (forall i :: 0 <= i < |rs| ==> rs[i].property == RelationGenerator.Names(aliases)[i])
            && (forall i, j :: 0 <= i < j < |rs| ==> rs[i].property != rs[j].property)
  {
    var aliases := MapSeq(t.inverseForeignKeys, AliasOf);
    assert MapSeq(t.inverseForeignKeys, PropertyOf) == RelationGenerator.Plurals(aliases);
    NumberedNamesByAlias(aliases);
    RelationGenerator.NamesDistinct(aliases);
  }

  /** The two ends of one key agree: the back-reference of the owning side
      is the collection of the first key from that table, and the
      collection's inverse is the owning side's property. */
  lemma EndsAgree(s: Table, fk: ForeignKey)
    requires fk.sourceTable == s.name && fk.sourceColumns != []
    ensures ManyToOneOf(s, fk).value.backReference == OneToManyOf(fk, PropertyOf(fk)).value.property
    ensures ManyToOneOf(s, fk).value.property == OneToManyOf(fk, PropertyOf(fk)).value.inverse
  {
  }

  // ---------------------------------------------------------------------
  // Imports
  // ---------------------------------------------------------------------

  /** The related classes as a `Set` of class names: two related tables
      whose names differ only in the first letter's case give one class. */
  function RelatedClasses(t: Table): (r: seq<string>)
    ensures NoDuplicates(r)
    ensures forall n :: n in r <==> exists m :: ImportGenerator.IsRelated(t, m) && n == ClassName(m)
  {
    var mentioned := ImportGenerator.Mentions(t);
    var r := Distinct(MapSeq(mentioned, ClassName));
    forall n ensures n in r <==> exists m :: ImportGenerator.IsRelated(t, m) && n == ClassName(m) {
      MapSeqMember(mentioned, ClassName, n);
      if exists m :: ImportGenerator.IsRelated(t, m) && n == ClassName(m) {
        var m :| ImportGenerator.IsRelated(t, m) && n == ClassName(m);
        ImportGenerator.MentionsRelated(t, m);
      }
      if exists m :: m in mentioned && n == ClassName(m) {
        var m :| m in mentioned && n == ClassName(m);
        ImportGenerator.MentionsRelated(t, m);
      }
    }
    r
  }

  /** The imported classes: the related classes other than the table's own,
      in code-point order. */
  function ImportedClasses(t: Table): (r: seq<string>)
    ensures forall i, j :: 0 <= i < j < |r| ==> Le(r[i], r[j]) && r[i] != r[j]
    ensures forall n :: n in r <==> n in RelatedClasses(t) && ImportGenerator.NotSelf(t, n)
  {
    var related := RelatedClasses(t);
    var kept := Filter(related, n => ImportGenerator.NotSelf(t, n));
    var r := SortStrings(kept);
    FilterNoDuplicates(related, n => ImportGenerator.NotSelf(t, n));
    PermutationNoDuplicates(kept, r);
    forall n ensures n in r <==> n in related && ImportGenerator.NotSelf(t, n) {
      assert n in r <==> n in multiset(r);
      assert n in kept <==> n in multiset(kept);
      if n in related && ImportGenerator.NotSelf(t, n) {
        var i :| 0 <= i < |related| && related[i] == n;
        assert related[i] in kept;
      }
    }
    r
  }

  /** This writer imports the class of every table the newer generator
      imports, and nothing else. */
  lemma ImportedClassesAgree(t: Table, n: string)
    ensures n in ImportedClasses(t) <==> exists m :: m in ImportGenerator.Imported(t) && n == ClassName(m)
  {
    var imported := ImportGenerator.Imported(t);
    var classes := ImportedClasses(t);
    if exists m :: m in imported && n == ClassName(m) {
      var m :| m in imported && n == ClassName(m);
      assert ImportGenerator.IsRelated(t, m) && ImportGenerator.NotSelf(t, m);
      FirstLetterOnly(m);
      assert ImportGenerator.NotSelf(t, n);
      assert n in RelatedClasses(t);
    }
    if n in classes {
      assert n in RelatedClasses(t) && ImportGenerator.NotSelf(t, n);
      var m :| ImportGenerator.IsRelated(t, m) && n == ClassName(m);
      FirstLetterOnly(m);
      assert ImportGenerator.NotSelf(t, m);
      assert m in imported;
    }
  }

  function ImportLine(n: string): string
  {
    "import { " + n + " } from './" + n + "';"
  }

  /** The newer generator writes the same line for a class in the same
      directory, when no naming configuration applies. */
  lemma ImportLineAgrees(o: NameFormatterContextual.FormatterOptions, place: string -> ImportPath.Segments,
                         t: Table, n: string, dir: ImportPath.Segments)
    requires o.fileNaming.None? && o.classNaming.None?
    requires place(t.name + ".ts") == dir + [t.name + ".ts"]
    requires place(n + ".ts") == dir + [n + ".ts"]
    requires n != [] && n[0] != '.' && '\\' !in n
    ensures ImportGenerator.ImportLine(o, place, t, n) == Some(ImportLine(n))
  {
    ImportGenerator.SideBySideImport(o, place, t, n, dir);
    var head := "import { " + n;
    ConcatAssoc(head + " } from '", "./", n);
    ConcatAssoc(head, " } from '", "./");
    FromHere();
  }

  lemma FromHere()
    ensures " } from '" + "./" == " } from './"
  {
  }

  /** `generateImports`: the `typeorm` line, then the class imports when
      there are any. */
  function Imports(used: seq<string>, classes: seq<string>): (r: string)
    ensures classes == [] ==> r == ImportGenerator.BaseLine(used)
    ensures classes != [] ==> r == ImportGenerator.BaseLine(used) + "\n" + Join(MapSeq(classes, ImportLine), "\n")
  {
    var base := ImportGenerator.BaseLine(used);
    var lines := Join(MapSeq(classes, ImportLine), "\n");
    assert lines == "" <==> classes == [] by {
      if classes != [] {
        JoinFirst(MapSeq(classes, ImportLine), "\n");
      }
    }
    var kept := DropEmpty([base, lines]);
    assert kept == [base] + (if lines == "" then [] else [lines]) by {
      DropEmptyCons(base, [lines]);
      DropEmptyCons(lines, []);
    }
    assert lines != "" ==> Join(kept, "\n") == base + "\n" + lines by {
      if lines != "" {
        JoinCons(base, [lines], "\n");
      }
    }
    Join(kept, "\n")
  }

  /** The import block of this writer is the newer generator's block
      without its final newline. */
  lemma ImportsAsBlock(used: seq<string>, classes: seq<string>)
    ensures Imports(used, classes) + "\n" == ImportGenerator.Block(ImportGenerator.BaseLine(used), MapSeq(classes, ImportLine))
  {
    var lines := MapSeq(classes, ImportLine);
    if lines != [] {
      JoinCons(ImportGenerator.BaseLine(used), lines, "\n");
    }
  }

  // ---------------------------------------------------------------------
  // The file
  // ---------------------------------------------------------------------

  /** The `typeorm` names in the order they are added: `Entity`, `Index`,
      the column decorators, then the relation decorators. */
  function UsedSymbols(t: Table): (r: seq<string>)
    ensures NoDuplicates(r)
    ensures forall s :: s in r <==> s in EntityGenerator.UsedSymbols(t)
  {
    var afterIndexes := AddAll(["Entity"], IndexDecoratorGenerator.Symbols(t));
    var afterColumns := AddAll(afterIndexes, MapSeq(Columns(t), PropertyGenerator.SymbolOf));
    var r := AddAll(afterColumns, RelationGenerator.Symbols(t));
    forall s ensures s in MapSeq(Columns(t), PropertyGenerator.SymbolOf) <==> s in PropertyGenerator.Symbols(t) {
      MapSeqMember(Columns(t), PropertyGenerator.SymbolOf, s);
      MapSeqMember(PropertyGenerator.EmittedColumns(t), PropertyGenerator.SymbolOf, s);
    }
    r
  }

  /** Both writers open the file with the same `typeorm` import. */
  lemma BaseLineAgrees(t: Table)
    ensures ImportGenerator.BaseLine(UsedSymbols(t)) == ImportGenerator.BaseLine(EntityGenerator.UsedSymbols(t))
  {
    SameMembersPermutation(UsedSymbols(t), EntityGenerator.UsedSymbols(t));
    ImportGenerator.BaseLineIgnoresOrder(UsedSymbols(t), EntityGenerator.UsedSymbols(t));
  }

  /** The entity template: imports, a blank line, the index decorators on
      a line of their own (empty when there are none), the entity and
      class lines, the properties separated by blank lines, and the
      closing brace. */
  function Template(imports: string, indices: string, t: Table, className: string, properties: seq<string>): (r: string)
    ensures StartsWith(r, imports + "\n\n") && StartsWith(r, imports)
    ensures EndsWith(r, "\n}")
  {
    var head := imports + "\n\n";
    var middle := indices + "\n" + EntityGenerator.EntityLine(t) + "\n"
                  + EntityGenerator.ClassLine(className) + "\n" + Join(properties, "\n\n");
    Framed(head, middle, "\n}");
    PrefixOfAppend(imports, "\n\n");
    PrefixTransitive(head + middle + "\n}", head, imports);
    head + middle + "\n}"
  }

  /** The properties: columns, then owned relations, then collections. */
  function Properties(t: Table, ms: seq<RelationGenerator.ManyToOne>, rs: seq<RelationGenerator.OneToMany>): (r: seq<string>)
    ensures |r| == |Columns(t)| + |ms| + |rs|
  {
    MapSeq(Columns(t), ColumnText) + MapSeq(ms, ManyToOneText) + MapSeq(rs, OneToManyText)
  }

  /** `generateEntity`: `None` when a key on either side has no source
      column. */
  function GenerateEntity(t: Table, className: string): (r: Option<string>)
    ensures r.None? <==> || (exists i :: 0 <= i < |t.foreignKeys| && t.foreignKeys[i].sourceColumns == [])
                         || (exists i :: 0 <= i < |t.inverseForeignKeys| && t.inverseForeignKeys[i].sourceColumns == [])
    ensures r.Some? ==>
              r.value == Template(Imports(UsedSymbols(t), ImportedClasses(t)), IndexDecoratorGenerator.Generate(t),
                                  t, className, Properties(t, ManyToOnes(t).value, OneToManys(t).value))
  {
    var ms := ManyToOnes(t);
    var rs := OneToManys(t);
    if ms.None? || rs.None? then None
    else
      Some(Template(Imports(UsedSymbols(t), ImportedClasses(t)), IndexDecoratorGenerator.Generate(t),
                    t, className, Properties(t, ms.value, rs.value)))
  }

  lemma ImportsStart(used: seq<string>, classes: seq<string>)
    ensures StartsWith(Imports(used, classes), ImportGenerator.BaseLine(used))
  {
    var base := ImportGenerator.BaseLine(used);
    if classes != [] {
      PrefixOfAppend(base, "\n" + Join(MapSeq(classes, ImportLine), "\n"));
    }
  }

  /** A generated file opens with the same `typeorm` import as the newer
      generator's and closes the class on its last line. */
  lemma GenerateEntityLayout(t: Table, className: string)
    requires GenerateEntity(t, className).Some?
    ensures StartsWith(GenerateEntity(t, className).value, ImportGenerator.BaseLine(EntityGenerator.UsedSymbols(t)))
    ensures EndsWith(GenerateEntity(t, className).value, "\n}")
  {
    var imports := Imports(UsedSymbols(t), ImportedClasses(t));
    ImportsStart(UsedSymbols(t), ImportedClasses(t));
    BaseLineAgrees(t);
    PrefixTransitive(GenerateEntity(t, className).value, imports, ImportGenerator.BaseLine(UsedSymbols(t)));
  }

  /** One property per kept column and per key on either side, as many as
      the newer generator's members. */
  lemma GenerateEntityMembers(t: Table)
    requires ManyToOnes(t).Some? && OneToManys(t).Some?
    ensures |Properties(t, ManyToOnes(t).value, OneToManys(t).value)|
            == |PropertyGenerator.EmittedColumns(t)| + |t.foreignKeys| + |t.inverseForeignKeys|
  {
    assert |Columns(t)| == |PropertyGenerator.EmittedColumns(t)| by {
      assert |multiset(Columns(t))| == |multiset(PropertyGenerator.EmittedColumns(t))|;
    }
  }

  /** `generateEntities`: one file per class name, `.ts` appended; a later
      table whose class name repeats an earlier one replaces its file. */
  function GenerateEntities(db: Database): (r: Option<map<string, string>>)
    ensures r.None? <==> exists i :: 0 <= i < |db.tables| && GenerateEntity(db.tables[i], ClassName(db.tables[i].name)).None?
    ensures r.Some? ==> forall k :: k in r.value <==> exists i :: 0 <= i < |db.tables| && k == ClassName(db.tables[i].name) + ".ts"
  {
    forall i | 0 <= i < |db.tables|
      ensures FileKey(db.tables[i]) == Some(ClassName(db.tables[i].name) + ".ts")
      ensures Generate(db.tables[i]) == GenerateEntity(db.tables[i], ClassName(db.tables[i].name))
    {
    }
    EntityWriter.WriteAll(FileKey, Generate, db.tables)
  }

  function FileKey(t: Table): Option<string> { Some(ClassName(t.name) + ".ts") }

  function Generate(t: Table): Option<string> { GenerateEntity(t, ClassName(t.name)) }

  /** Tables with distinct class names get one file each, holding their
      entity. */
  lemma OneFilePerClass(db: Database)
    requires GenerateEntities(db).Some?
    requires forall i, j :: 0 <= i < j < |db.tables| ==> ClassName(db.tables[i].name) != ClassName(db.tables[j].name)
    ensures |GenerateEntities(db).value| == |db.tables|
    ensures forall i :: 0 <= i < |db.tables| ==>
              var k := ClassName(db.tables[i].name) + ".ts";
              && k in GenerateEntities(db).value && Generate(db.tables[i]).Some?
              && GenerateEntities(db).value[k] == Generate(db.tables[i]).value
  {
    forall i, j | 0 <= i < j < |db.tables| ensures FileKey(db.tables[i]) != FileKey(db.tables[j]) {
      AppendCancels(ClassName(db.tables[i].name), ClassName(db.tables[j].name), ".ts");
    }
    EntityWriter.OneFilePerTable(FileKey, Generate, db.tables);
  }
}
