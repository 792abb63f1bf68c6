/** `ImportGenerator`: the import block of an entity file.  The first line
    imports the decorators used from `typeorm`; then one line per related
    table, in name order, imports its class from its generated file. */
module ImportGenerator {
  import opened Common
  import opened Ordering
  import opened Schema
  import opened NameFormatterContextual
  import opened ImportPath

  /** `n` is the target of one of the table's keys or the source of a key
      pointing at it. */
  predicate IsRelated(t: Table, n: string)
  {
    || (exists i :: 0 <= i < |t.foreignKeys| && t.foreignKeys[i].targetTable == n)
    || (exists i :: 0 <= i < |t.inverseForeignKeys| && t.inverseForeignKeys[i].sourceTable == n)
  }

  function TargetTable(fk: ForeignKey): string { fk.targetTable }
  function SourceTable(fk: ForeignKey): string { fk.sourceTable }

  /** Every related table name in the order the source visits them:
      targets of owned keys, then sources of referencing keys, repeats
      included. */
  function Mentions(t: Table): seq<string>
  {
    MapSeq(t.foreignKeys, TargetTable) + MapSeq(t.inverseForeignKeys, SourceTable)
  }

  /** The related tables as a `Set`: each once, in first-seen order,
      targets before sources. */
  function Related(t: Table): (r: seq<string>)
    ensures forall n :: n in r <==> IsRelated(t, n)
    ensures NoDuplicates(r)
  {
    var r := Distinct(Mentions(t));
    forall n ensures n in r <==> IsRelated(t, n) {
      MentionsRelated(t, n);
    }
    r
  }

  lemma MentionsRelated(t: Table, n: string)
    ensures n in Mentions(t) <==> IsRelated(t, n)
  {
    var all := Mentions(t);
    var targets := MapSeq(t.foreignKeys, TargetTable);
    if IsRelated(t, n) {
      if exists i :: 0 <= i < |t.foreignKeys| && t.foreignKeys[i].targetTable == n {
        var i :| 0 <= i < |t.foreignKeys| && t.foreignKeys[i].targetTable == n;
        assert all[i] == n;
      } else {
        var i :| 0 <= i < |t.inverseForeignKeys| && t.inverseForeignKeys[i].sourceTable == n;
        assert all[|targets| + i] == n;
      }
    }
    if n in all {
      var k :| 0 <= k < |all| && all[k] == n;
      if k < |targets| {
        assert t.foreignKeys[k].targetTable == n;
      } else {
        assert t.inverseForeignKeys[k - |targets|].sourceTable == n;
      }
    }
  }

  /** The table's own name, in any letter case, is not imported. */
  predicate NotSelf(t: Table, n: string) { Lower(n) != Lower(t.name) }

  /** The related tables imported, in code-point order, each once. */
  function Imported(t: Table): (r: seq<string>)
    ensures forall n :: n in r <==> IsRelated(t, n) && NotSelf(t, n)
    ensures forall i, j :: 0 <= i < j < |r| ==> Le(r[i], r[j]) && r[i] != r[j]
  {
    var related := Related(t);
    var kept := Filter(related, n => NotSelf(t, n));
    var r := SortStrings(kept);
    FilterNoDuplicates(related, n => NotSelf(t, n));
    PermutationNoDuplicates(kept, r);
    forall n ensures n in r <==> IsRelated(t, n) && NotSelf(t, n) {
      assert n in r <==> n in multiset(r);
      assert n in kept <==> n in multiset(kept);
      if n in related && NotSelf(t, n) {
        var i :| 0 <= i < |related| && related[i] == n;
        assert related[i] in kept;
      }
    }
    r
  }

  /** One related-class import: the class name, and the path from this
      table's file to the related table's file.  `None` when one of the
      names cannot be formatted. */
  function ImportLine(o: FormatterOptions, place: string -> Segments, t: Table, n: string): (r: Option<string>)
    ensures r.None? <==> || ToFileFormat(o, t.name).None?
                         || ToFileFormat(o, n).None?
                         || ToClassFormat(o, n).None?
    ensures r.Some? ==>
              r.value == "import { " + ToClassFormat(o, n).value + " } from '"
                         + GetImportPath(place, ToFileFormat(o, t.name).value + ".ts", ToFileFormat(o, n).value + ".ts")
                         + "';"
  {
    var current := ToFileFormat(o, t.name);
    var related := ToFileFormat(o, n);
    var className := ToClassFormat(o, n);
    if current.None? || related.None? || className.None? then None
    else
      var path := GetImportPath(place, current.value + ".ts", related.value + ".ts");
      Some("import { " + className.value + " } from '" + path + "';")
  }

  /** `line` imports exactly the names `used`, listed in code-point order. */
  ghost predicate ImportsSorted(line: string, used: seq<string>)
  {
    exists names ::
      && multiset(names) == multiset(used)
      && (forall i, j :: 0 <= i < j < |names| ==> Le(names[i], names[j]))
      && line == "import { " + Join(names, ", ") + " } from 'typeorm';"
  }

  /** The `typeorm` import, naming the used decorators in code-point order. */
  function BaseLine(used: seq<string>): (r: string)
    ensures StartsWith(r, "import { ") && EndsWith(r, " } from 'typeorm';")
  {
    Framed("import { ", Join(SortStrings(used), ", "), " } from 'typeorm';");
    "import { " + Join(SortStrings(used), ", ") + " } from 'typeorm';"
  }

  /** The line lists the used names, each as often as it was used, in
      order. */
  lemma BaseLineSorted(used: seq<string>)
    ensures ImportsSorted(BaseLine(used), used)
  {
    var names := SortStrings(used);
    assert BaseLine(used) == "import { " + Join(names, ", ") + " } from 'typeorm';";
  }

  /** The `typeorm` import depends only on which names were used, not on
      the order they were recorded in. */
  lemma BaseLineIgnoresOrder(u: seq<string>, v: seq<string>)
    requires NoDuplicates(u) && multiset(u) == multiset(v)
    ensures BaseLine(u) == BaseLine(v)
  {
    var a := SortStrings(u);
    var b := SortStrings(v);
    PermutationNoDuplicates(u, a);
    assert forall i, j :: 0 <= i < j < |a| ==> Le(Identity(a[i]), Identity(a[j]));
    assert forall i, j :: 0 <= i < j < |b| ==> Le(Identity(b[i]), Identity(b[j]));
    SortedUnique(a, b, Identity);
  }

  /** The import lines joined into one block that ends in a newline. */
  function Block(base: string, lines: seq<string>): (r: string)
    ensures StartsWith(r, base) && EndsWith(r, "\n")
    ensures lines == [] ==> r == base + "\n"
  {
    var block := Join([base] + lines, "\n");
    assert block == base || block == base + "\n" + Join(lines, "\n") by {
      if lines != [] {
        JoinCons(base, lines, "\n");
      }
    }
    PrefixOfAppend(base, "\n" + Join(lines, "\n"));
    PrefixOfAppend(block, "\n");
    PrefixTransitive(block + "\n", block, base);
    block + "\n"
  }

  /** The related-class imports in name order; `None` as soon as one
      fails. */
  function Lines(o: FormatterOptions, place: string -> Segments, t: Table): (r: Option<seq<string>>)
    ensures var names := Imported(t);
            r.None? <==> exists i :: 0 <= i < |names| && ImportLine(o, place, t, names[i]).None?
    ensures var names := Imported(t);
            r.Some? ==> |r.value| == |names|
                        && forall i :: 0 <= i < |names| ==> ImportLine(o, place, t, names[i]) == Some(r.value[i])
  {
    MapOption(Imported(t), n => ImportLine(o, place, t, n))
  }

  /** `generate`: the `typeorm` line, then the related imports. */
  function Generate(o: FormatterOptions, place: string -> Segments, t: Table, used: seq<string>): (r: Option<string>)
    ensures r.None? <==> Lines(o, place, t).None?
    ensures r.Some? ==> r.value == Block(BaseLine(used), Lines(o, place, t).value)
  {
    match Lines(o, place, t)
    case None => None
    case Some(lines) => Some(Block(BaseLine(used), lines))
  }

  /** Without a file-naming configuration and with the files laid side by
      side, a related class is imported from `./` and its table name. */
  lemma SideBySideImport(o: FormatterOptions, place: string -> Segments, t: Table, n: string, dir: Segments)
    requires o.fileNaming.None? && o.classNaming.None?
    requires place(t.name + ".ts") == dir + [t.name + ".ts"]
    requires place(n + ".ts") == dir + [n + ".ts"]
    requires n != [] && n[0] != '.' && '\\' !in n
    ensures ImportLine(o, place, t, n) == Some("import { " + n + " } from '" + ("./" + n) + "';")
  {
    var to := dir + [n + ".ts"];
    assert ToFileFormat(o, t.name) == Some(t.name);
    assert ToFileFormat(o, n) == Some(n);
    assert ToClassFormat(o, n) == Some(n);
    assert Dirname(place(t.name + ".ts")) == dir;
    assert to[..|dir|] == dir;
    assert to[|dir|..] == [n + ".ts"];
    ImportBelow(place, t.name + ".ts", n + ".ts");
    assert Join([n + ".ts"], "/") == n + ".ts";
    StripAppended(n, ".ts");
    assert GetImportPath(place, t.name + ".ts", n + ".ts") == "./" + n;
  }
}
