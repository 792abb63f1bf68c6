/** `PropertyGenerator`: one decorated class property per column that is
    not the first source column of a foreign key, in column-name order. */
module PropertyGenerator {
  import opened Common
  import opened Ordering
  import opened Schema
  import opened NameFormatterContextual

  // ---------------------------------------------------------------------
  // Which columns become properties
  // ---------------------------------------------------------------------

  /** `fkCols.has(name)`: `name` is the first source column of one of the
      table's foreign keys (a key with no source column contributes
      `undefined`, which no name equals). */
  predicate IsForeignKeyColumn(t: Table, name: string)
  {
    exists i :: 0 <= i < |t.foreignKeys| && t.foreignKeys[i].sourceColumns != []
                && t.foreignKeys[i].sourceColumns[0] == name
  }

  function ColumnName(c: Column): string { c.name }

  /** The columns not covered by a foreign key, in column order. */
  function KeptColumns(t: Table): (r: seq<Column>)
    ensures forall c :: c in r <==> c in t.columns && !IsForeignKeyColumn(t, c.name)
    ensures forall c :: multiset(r)[c] == if IsForeignKeyColumn(t, c.name) then 0 else multiset(t.columns)[c]
  {
    var p := Kept(t);
    var r := Filter(t.columns, p);
    forall c | c in r ensures !IsForeignKeyColumn(t, c.name) {
      var i :| 0 <= i < |r| && r[i] == c;
      assert p(r[i]);
    }
    FilterMultiset(t.columns, p);
    r
  }

  /** The filter's test: the column is not the first source column of a
      foreign key. */
  function Kept(t: Table): Column -> bool
  {
    (c: Column) => !IsForeignKeyColumn(t, c.name)
  }

  /** Filtering keeps column order: the kept columns of `a + b` are those
      of `a` followed by those of `b`. */
  lemma KeptColumnsKeepOrder(t: Table, a: seq<Column>, b: seq<Column>)
    requires t.columns == a + b
    ensures KeptColumns(t) == KeptColumns(t.(columns := a)) + KeptColumns(t.(columns := b))
  {
    FilterAppend(a, b, Kept(t));
    FilterSameTest(a, Kept(t), Kept(t.(columns := a)));
    FilterSameTest(b, Kept(t), Kept(t.(columns := b)));
  }

  /** The emitted columns: every column not covered by a foreign key, each
      as often as it occurs, ordered by name with ties in column order. */
  function EmittedColumns(t: Table): (r: seq<Column>)
    ensures forall c :: c in r <==> c in t.columns && !IsForeignKeyColumn(t, c.name)
    ensures forall c :: multiset(r)[c] == if IsForeignKeyColumn(t, c.name) then 0 else multiset(t.columns)[c]
    ensures multiset(r) == multiset(KeptColumns(t))
    ensures SortedBy(r, ColumnName)
    ensures forall n :: WithKey(r, ColumnName, n) == WithKey(KeptColumns(t), ColumnName, n)
  {
    var kept := KeptColumns(t);
    var r := SortBy(kept, ColumnName);
    SortByStable(kept, ColumnName);
    forall c ensures c in r <==> c in t.columns && !IsForeignKeyColumn(t, c.name) {
      assert c in r <==> c in multiset(r);
      assert c in kept <==> c in multiset(kept);
    }
    r
  }

  // ---------------------------------------------------------------------
  // Decorators
  // ---------------------------------------------------------------------

  datatype Decorator = PrimaryGeneratedColumn | PrimaryColumn | PlainColumn

  /** Identity columns are generated keys, other key columns plain keys,
      everything else an ordinary column. */
  function DecoratorOf(c: Column): Decorator
  {
    if c.isIdentity then PrimaryGeneratedColumn
    else if c.isPrimary then PrimaryColumn
    else PlainColumn
  }

  /** The name imported from `typeorm` for a decorator. */
  function Symbol(d: Decorator): string
  {
    match d
    case PrimaryGeneratedColumn => "PrimaryGeneratedColumn"
    case PrimaryColumn => "PrimaryColumn"
    case PlainColumn => "Column"
  }

  // ---------------------------------------------------------------------
  // Column options
  // ---------------------------------------------------------------------

  /** One entry of the decorator's option object. */
  datatype ColumnOption =
    | Nullable
    | Unique
    | Length(n: int)
    | Precision(n: int)
    | Scale(n: int)
    | Default(expr: string)

  /** The position of each kind of option in the object. */
  function Rank(o: ColumnOption): nat
  {
    match o
    case Nullable => 0
    case Unique => 1
    case Length(_) => 2
    case Precision(_) => 3
    case Scale(_) => 4
    case Default(_) => 5
  }

  predicate StrictlyRanked(os: seq<ColumnOption>)
  {
    forall i, j :: 0 <= i < j < |os| ==> Rank(os[i]) < Rank(os[j])
  }

  /** Raw types that never take a size (compared case-sensitively). */
  const UnsizedTypes: seq<string> := ["datetime", "datetime2", "bit", "date", "int", "bigint", "smallint"]

  /** Raw types that take a precision but no length. */
  const LengthlessTypes: seq<string> := ["text", "decimal"]

  /** A JavaScript truthy number: present and not zero. */
  predicate Truthy(n: Option<int>) { n.Some? && n.value != 0 }

  predicate HasLength(c: Column)
  {
    c.sqlType !in UnsizedTypes && Truthy(c.length) && c.sqlType !in LengthlessTypes
  }

  predicate HasPrecision(c: Column) { c.sqlType !in UnsizedTypes && Truthy(c.precision) }

  predicate HasScale(c: Column) { c.sqlType !in UnsizedTypes && Truthy(c.scale) }

  /** A non-empty default expression (an empty string is falsy). */
  predicate HasDefault(c: Column) { c.defaultValue.Some? && c.defaultValue.value != "" }

  /** Characters that JavaScript's `.` does not match. */
  predicate LineTerminator(ch: char)
  {
    ch == '\n' || ch == '\r' || ch == '\U{2028}' || ch == '\U{2029}'
  }

  /** `^\((.+)\)$` matches: a parenthesised, non-empty, single-line text. */
  predicate Parenthesised(s: string)
  {
    |s| >= 3 && s[0] == '(' && s[|s| - 1] == ')'
    && forall i :: 1 <= i < |s| - 1 ==> !LineTerminator(s[i])
  }

  /** Removes one pair of enclosing parentheses, if the pattern matches. */
  function StripParens(s: string): (r: string)
    ensures Parenthesised(s) ==> s == "(" + r + ")"
    ensures !Parenthesised(s) ==> r == s
  {
    if Parenthesised(s) then s[1..|s| - 1] else s
  }

  /** The default expression as written into `default: () => '…'`: every
      single quote removed, then one pair of outer parentheses. */
  function CleanDefault(d: string): (r: string)
    ensures '\'' !in r
    ensures |r| <= |d|
    ensures Parenthesised(RemoveChar(d, '\'')) ==> RemoveChar(d, '\'') == "(" + r + ")"
    ensures !Parenthesised(RemoveChar(d, '\'')) ==> r == RemoveChar(d, '\'')
  {
    var unquoted := RemoveChar(d, '\'');
    var r := StripParens(unquoted);
    assert r == unquoted || unquoted == "(" + r + ")";
    assert forall i :: 0 <= i < |r| ==> r[i] in unquoted;
    r
  }

  /** Whether an option, with its value, applies to a column. */
  predicate Applies(c: Column, o: ColumnOption)
  {
    match o
    case Nullable => c.isNullable
    case Unique => c.isUnique
    case Length(n) => HasLength(c) && n == c.length.value
    case Precision(n) => HasPrecision(c) && n == c.precision.value
    case Scale(n) => HasScale(c) && n == c.scale.value
    case Default(e) => HasDefault(c) && e == CleanDefault(c.defaultValue.value)
  }

  /** One candidate of each kind, in rank order, carrying the column's
      value where it has one. */
  function Candidates(c: Column): (r: seq<ColumnOption>)
    ensures |r| == 6
    ensures forall i :: 0 <= i < |r| ==> Rank(r[i]) == i
  {
    [ Nullable,
      Unique,
      Length(if c.length.Some? then c.length.value else 0),
      Precision(if c.precision.Some? then c.precision.value else 0),
      Scale(if c.scale.Some? then c.scale.value else 0),
      Default(if c.defaultValue.Some? then CleanDefault(c.defaultValue.value) else "") ]
  }

  /** `columnOptions`, before rendering: the options that apply to the
      column, in the order the object lists them. */
  function ColumnOptions(c: Column): (r: seq<ColumnOption>)
    ensures StrictlyRanked(r)
    ensures forall o :: o in r <==> Applies(c, o)
  {
    var cands := Candidates(c);
    var r := Filter(cands, o => Applies(c, o));
    FilterRanked(cands, o => Applies(c, o));
    forall o ensures o in r <==> Applies(c, o) {
      if Applies(c, o) {
        assert cands[Rank(o)] == o;
      }
    }
    r
  }

  lemma {:induction false} FilterRanked(xs: seq<ColumnOption>, p: ColumnOption -> bool)
    requires StrictlyRanked(xs)
    ensures StrictlyRanked(Filter(xs, p))
  {
    if xs != [] {
      var rest := Filter(xs[1..], p);
      FilterRanked(xs[1..], p);
      forall o | o in rest ensures Rank(xs[0]) < Rank(o) {
        var k :| 0 <= k < |xs[1..]| && xs[1..][k] == o;
        assert xs[k + 1] == o;
      }
    }
  }

  /** The option list is the only one with these entries in this order:
      membership and ranking determine it completely. */
  lemma ColumnOptionsUnique(c: Column, os: seq<ColumnOption>)
    requires StrictlyRanked(os)
    requires forall o :: o in os <==> o in ColumnOptions(c)
    ensures os == ColumnOptions(c)
  {
    SameRankedEqual(os, ColumnOptions(c));
  }

  lemma {:induction false} SameRankedEqual(a: seq<ColumnOption>, b: seq<ColumnOption>)
    requires StrictlyRanked(a) && StrictlyRanked(b)
    requires forall o :: o in a <==> o in b
    ensures a == b
    decreases |a| + |b|
  {
    assert a == [] <==> b == [] by {
      if a != [] { assert a[0] in a; }
      if b != [] { assert b[0] in b; }
    }
    if a != [] {
      assert a[0] in a && b[0] in b;
      HeadMinimal(b, a[0]);
      HeadMinimal(a, b[0]);
      forall o ensures o in a[1..] <==> o in b[1..] {
        if o in a[1..] {
          TailMember(a, b, o);
        }
        if o in b[1..] {
          TailMember(b, a, o);
        }
      }
      SameRankedEqual(a[1..], b[1..]);
      assert a == [a[0]] + a[1..];
      assert b == [b[0]] + b[1..];
    }
  }

  /** The head of a strictly ranked list has the least rank, and is the
      only element of that rank. */
  lemma HeadMinimal(a: seq<ColumnOption>, o: ColumnOption)
    requires StrictlyRanked(a) && o in a
    ensures Rank(a[0]) <= Rank(o)
    ensures Rank(o) == Rank(a[0]) ==> o == a[0]
  {
    var k :| 0 <= k < |a| && a[k] == o;
    assert k == 0 || Rank(a[0]) < Rank(a[k]);
  }

  /** With equal heads, a member of one tail is a member of the other. */
  lemma TailMember(a: seq<ColumnOption>, b: seq<ColumnOption>, o: ColumnOption)
    requires StrictlyRanked(a) && StrictlyRanked(b)
    requires a != [] && b != [] && a[0] == b[0]
    requires forall x :: x in a <==> x in b
    requires o in a[1..]
    ensures o in b[1..]
  {
    var k :| 0 <= k < |a[1..]| && a[1..][k] == o;
    assert Rank(a[0]) < Rank(a[k + 1]);
    assert o in b;
    var m :| 0 <= m < |b| && b[m] == o;
    assert m != 0;
    assert b[1..][m - 1] == o;
  }

  function OptionText(o: ColumnOption): string
  {
    match o
    case Nullable => "nullable: true"
    case Unique => "unique: true"
    case Length(n) => "length: " + IntToString(n)
    case Precision(n) => "precision: " + IntToString(n)
    case Scale(n) => "scale: " + IntToString(n)
    case Default(e) => "default: () => '" + e + "'"
  }

  /** The options as they follow the column name: nothing at all, or a
      comma and the entries separated by commas. */
  function OptionsText(os: seq<ColumnOption>): (r: string)
    ensures os == [] <==> r == ""
  {
    if os == [] then "" else ", " + Join(seq(|os|, i requires 0 <= i < |os| => OptionText(os[i])), ", ")
  }

  /** The decorator's argument list around the rendered options: a
      generated key takes the type inside the object, other columns before
      it. */
  function ArgsWith(c: Column, opts: string): string
  {
    match DecoratorOf(c)
    case PrimaryGeneratedColumn => "{ type: '" + c.sqlType + "', name: '" + c.name + "'" + opts + " }"
    case _ => "'" + c.sqlType + "', { name: '" + c.name + "'" + opts + " }"
  }

  function DecoratorArgs(c: Column): string
  {
    ArgsWith(c, OptionsText(ColumnOptions(c)))
  }

  /** The decorator up to its opening parenthesis. */
  function DecoratorHead(c: Column): string
  {
    "@" + Symbol(DecoratorOf(c)) + "("
  }

  /** The decorator is the one chosen for the column, called with its
      options. */
  function DecoratorText(c: Column): (r: string)
    ensures StartsWith(r, "@" + Symbol(DecoratorOf(c)) + "(") && EndsWith(r, ")")
  {
    Framed(DecoratorHead(c), DecoratorArgs(c), ")");
    DecoratorHead(c) + DecoratorArgs(c) + ")"
  }

  // ---------------------------------------------------------------------
  // TypeScript types
  // ---------------------------------------------------------------------

  const NumberTypes: seq<string> := ["int", "decimal", "float", "bigint", "smallint", "numeric", "money"]
  const DateTypes: seq<string> := ["datetime", "date", "smalldatetime", "timestamp"]

  /** `tsType`: the property's TypeScript type, from the type name read
      without regard to case; anything unrecognised is a string. */
  function TsType(sqlType: string): (r: string)
    ensures r == "number" || r == "boolean" || r == "Date" || r == "string"
    ensures r == "number" <==> Lower(sqlType) in NumberTypes
    ensures r == "boolean" <==> Lower(sqlType) == "bit"
    ensures r == "Date" <==> Lower(sqlType) in DateTypes
  {
    var ty := Lower(sqlType);
    if ty in NumberTypes then "number"
    else if ty == "bit" then "boolean"
    else if ty in DateTypes then "Date"
    else "string"
  }

  /** Re-casing the catalog type does not change the TypeScript type. */
  lemma TsTypeIgnoresCase(sqlType: string)
    ensures TsType(Upper(sqlType)) == TsType(sqlType)
  {
    LowerOfUpper(sqlType);
  }

  lemma LowerOfUpper(s: string)
    ensures Lower(Upper(s)) == Lower(s)
  {
    assert forall i :: 0 <= i < |s| ==> Lower(Upper(s))[i] == Lower(s)[i];
  }

  // ---------------------------------------------------------------------
  // Properties
  // ---------------------------------------------------------------------

  function NullableSuffix(c: Column): string
  {
    if c.isNullable then " | null" else ""
  }

  /** The declared type, widened by `null` exactly when the column is
      nullable. */
  function TypeAnnotation(c: Column): (r: string)
    ensures StartsWith(r, ": " + TsType(c.sqlType))
    ensures EndsWith(r, " | null;") <==> c.isNullable
  {
    NullableAnnotation(TsType(c.sqlType), c.isNullable);
    ": " + TsType(c.sqlType) + NullableSuffix(c) + ";"
  }

  /** No TypeScript type the generator writes ends in `l`, so the suffix
      ` | null;` appears exactly when it was added. */
  lemma NullableAnnotation(t: string, nullable: bool)
    requires t == "number" || t == "boolean" || t == "Date" || t == "string"
    ensures var r := ": " + t + (if nullable then " | null" else "") + ";";
            StartsWith(r, ": " + t) && (EndsWith(r, " | null;") <==> nullable)
  {
    var suffix := if nullable then " | null" else "";
    var r := ": " + t + suffix + ";";
    Framed(": " + t, suffix, ";");
    if nullable {
      assert r[|r| - 8..] == suffix + ";";
    } else {
      assert r[|r| - 2] == t[|t| - 1];
    }
  }

  /** `buildColumn`: the decorator on the first line, the declaration on
      the second; `None` when the property name cannot be formatted. */
  function PropertyLine(o: FormatterOptions, c: Column): (r: Option<string>)
    ensures r.None? <==> ToPropertyFormat(o, c.name).None?
    ensures r.Some? ==>
              r.value == "  " + DecoratorText(c) + "\n\t" + ToPropertyFormat(o, c.name).value
                         + TypeAnnotation(c)
  {
    match ToPropertyFormat(o, c.name)
    case None => None
    case Some(p) =>
      Some("  " + DecoratorText(c) + "\n\t" + p + TypeAnnotation(c))
  }

  /** The line opens with the decorator whose name is recorded as used,
      and closes with the declared type (widened by `null` exactly when
      the column is nullable). */
  lemma PropertyLineShape(o: FormatterOptions, c: Column)
    requires ToPropertyFormat(o, c.name).Some?
    ensures StartsWith(PropertyLine(o, c).value, "  " + DecoratorHead(c))
    ensures EndsWith(PropertyLine(o, c).value, TypeAnnotation(c))
  {
    var p := ToPropertyFormat(o, c.name).value;
    var d := DecoratorText(c);
    var front := "  " + d + "\n\t" + p;
    PrefixOfAppend(front, TypeAnnotation(c));
    PrefixOfAppend("  " + d + "\n\t", p);
    PrefixOfAppend("  " + d, "\n\t");
    PrefixTransitive(front, "  " + d + "\n\t", "  " + d);
    PrefixTransitive(front + TypeAnnotation(c), front, "  " + d);
    PrefixOfAppend(DecoratorHead(c) + DecoratorArgs(c), ")");
    PrefixOfAppend(DecoratorHead(c), DecoratorArgs(c));
    PrefixTransitive(d, DecoratorHead(c) + DecoratorArgs(c), DecoratorHead(c));
    PrefixPrepend("  ", d, DecoratorHead(c));
    PrefixTransitive(front + TypeAnnotation(c), "  " + d, "  " + DecoratorHead(c));
  }

  /** `generate`: the property lines in emitted order, or `None` as soon
      as one name cannot be formatted. */
  function Generate(o: FormatterOptions, t: Table): (r: Option<seq<string>>)
    ensures var cols := EmittedColumns(t);
            r.None? <==> exists i :: 0 <= i < |cols| && PropertyLine(o, cols[i]).None?
    ensures var cols := EmittedColumns(t);
            r.Some? ==> |r.value| == |cols| && forall i :: 0 <= i < |cols| ==> PropertyLine(o, cols[i]) == Some(r.value[i])
  {
    MapOption(EmittedColumns(t), c => PropertyLine(o, c))
  }

  function SymbolOf(c: Column): string { Symbol(DecoratorOf(c)) }

  /** The decorator names recorded while generating, in emitted order. */
  function Symbols(t: Table): (r: seq<string>)
    ensures |r| == |EmittedColumns(t)|
    ensures forall i :: 0 <= i < |r| ==> r[i] == Symbol(DecoratorOf(EmittedColumns(t)[i]))
  {
    MapSeq(EmittedColumns(t), SymbolOf)
  }

  /** Without a camel-case property configuration every name formats, so
      generation cannot fail. */
  lemma GenerateTotal(o: FormatterOptions, t: Table)
    requires o.propertyNaming.None? || o.propertyNaming.value.style != NameFormatter.Camel
    ensures Generate(o, t).Some?
  {
  }

  /** No property is generated for a foreign-key column: that column is
      rendered as a relation instead. */
  lemma ForeignKeyColumnsSkipped(t: Table, i: nat)
    requires i < |t.foreignKeys| && t.foreignKeys[i].sourceColumns != []
    ensures forall c :: c in EmittedColumns(t) ==> c.name != t.foreignKeys[i].sourceColumns[0]
  {
  }

  /** A default expression never ends the quoted literal it is written in. */
  lemma DefaultLiteralClosed(c: Column, e: string)
    requires Default(e) in ColumnOptions(c)
    ensures '\'' !in e
  {
  }

  /** Only one pair of parentheses is removed, so a catalog default such
      as `((0))` keeps its inner pair. */
  lemma DefaultStripsOneLayer(x: string)
    requires x != [] && '\'' !in x
    requires forall i :: 0 <= i < |x| ==> !LineTerminator(x[i])
    ensures CleanDefault("((" + x + "))") == "(" + x + ")"
  {
    var s := "((" + x + "))";
    assert '\'' !in s;
    assert Parenthesised(s);
    assert s[1..|s| - 1] == "(" + x + ")";
  }
}
