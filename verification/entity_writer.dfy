/** `EntityWriter.generateEntities`: one generated file per table, keyed by
    the formatted file name plus `.ts`.  The source fills a JavaScript
    `Map` in table order, so a later table whose file name collides with
    an earlier one replaces that entry; a name that cannot be formatted
    aborts the whole run. */
module EntityWriter {
  import opened Common
  import opened Schema
  import opened NameFormatterContextual
  import opened ImportPath
  import EntityGenerator

  /** The map key of a table's file. */
  function FileKey(o: FormatterOptions, t: Table): (r: Option<string>)
    ensures r.None? <==> ToFileFormat(o, t.name).None?
    ensures r.Some? ==> EndsWith(r.value, ".ts")
    ensures o.fileNaming.None? ==> r == Some(t.name + ".ts")
  {
    match ToFileFormat(o, t.name)
    case None => None
    case Some(f) =>
      PrefixOfAppend(f, ".ts");
      Some(f + ".ts")
  }

  /** One table's entry: its file name and its generated text, or `None`
      when either cannot be produced.  `key` and `generate` stand for the
      writer's file naming and entity generation. */
  function Entry(key: Table -> Option<string>, generate: Table -> Option<string>, t: Table): (r: Option<(string, string)>)
    ensures r.None? <==> key(t).None? || generate(t).None?
    ensures r.Some? ==> r.value == (key(t).value, generate(t).value)
  {
    var k := key(t);
    var code := generate(t);
    if k.None? || code.None? then None else Some((k.value, code.value))
  }

  /** `Map.set` applied to each entry in turn, starting from an empty map. */
  function ToMap(es: seq<(string, string)>): (m: map<string, string>)
    ensures forall k :: k in m <==> exists i :: 0 <= i < |es| && es[i].0 == k
    decreases |es|
  {
    if es == [] then map[]
    else
      var init := es[..|es| - 1];
      var m := ToMap(init);
      assert forall i :: 0 <= i < |init| ==> init[i] == es[i];
      m[es[|es| - 1].0 := es[|es| - 1].1]
  }

  /** The entry that stays under a key is the last one written to it. */
  lemma {:induction false} ToMapLastWins(es: seq<(string, string)>, i: nat)
    requires i < |es|
    requires forall j :: i < j < |es| ==> es[j].0 != es[i].0
    ensures es[i].0 in ToMap(es) && ToMap(es)[es[i].0] == es[i].1
    decreases |es|
  {
    if i < |es| - 1 {
      var init := es[..|es| - 1];
      assert forall j :: i < j < |init| ==> init[j] == es[j];
      ToMapLastWins(init, i);
    }
  }

  /** With keys that never repeat, every entry becomes its own map entry. */
  lemma {:induction false} ToMapSize(es: seq<(string, string)>)
    requires forall i, j :: 0 <= i < j < |es| ==> es[i].0 != es[j].0
    ensures |ToMap(es)| == |es|
    decreases |es|
  {
    if es != [] {
      var init := es[..|es| - 1];
      ToMapSize(init);
      var last := es[|es| - 1];
      assert forall i :: 0 <= i < |init| ==> init[i].0 != last.0;
      assert ToMap(es).Keys == ToMap(init).Keys + {last.0};
    }
  }

  /** The loop of `generateEntities` over the tables: the file map, or
      `None` when some table cannot be named or generated. */
  function WriteAll(key: Table -> Option<string>, generate: Table -> Option<string>, tables: seq<Table>): (r: Option<map<string, string>>)
    ensures r.None? <==> exists i :: 0 <= i < |tables| && (key(tables[i]).None? || generate(tables[i]).None?)
    ensures r.Some? ==> forall k :: k in r.value <==> exists i :: 0 <= i < |tables| && key(tables[i]) == Some(k)
  {
    var es := MapOption(tables, t => Entry(key, generate, t));
    if es.None? then None
    else
      var m := ToMap(es.value);
      assert forall i :: 0 <= i < |tables| ==> Entry(key, generate, tables[i]) == Some(es.value[i]);
      Some(m)
  }

  /** The text stored under a table's file name is that table's generated
      entity, unless a later table is given the same file name. */
  lemma FileHoldsItsTable(key: Table -> Option<string>, generate: Table -> Option<string>, tables: seq<Table>, i: nat)
    requires WriteAll(key, generate, tables).Some?
    requires i < |tables|
    requires forall j :: i < j < |tables| ==> key(tables[j]) != key(tables[i])
    ensures key(tables[i]).Some? && generate(tables[i]).Some?
    ensures WriteAll(key, generate, tables).value[key(tables[i]).value] == generate(tables[i]).value
  {
    var es := MapOption(tables, t => Entry(key, generate, t)).value;
    forall j | i < j < |es| ensures es[j].0 != es[i].0 {
      assert Entry(key, generate, tables[j]) == Some(es[j]);
    }
    assert Entry(key, generate, tables[i]) == Some(es[i]);
    ToMapLastWins(es, i);
  }

  /** Tables with distinct file names give one file each, holding that
      table's entity. */
  lemma OneFilePerTable(key: Table -> Option<string>, generate: Table -> Option<string>, tables: seq<Table>)
    requires WriteAll(key, generate, tables).Some?
    requires forall i, j :: 0 <= i < j < |tables| ==> key(tables[i]) != key(tables[j])
    ensures |WriteAll(key, generate, tables).value| == |tables|
    ensures forall i :: 0 <= i < |tables| ==>
              WriteAll(key, generate, tables).value[key(tables[i]).value] == generate(tables[i]).value
  {
    var es := MapOption(tables, t => Entry(key, generate, t)).value;
    forall i, j | 0 <= i < j < |es| ensures es[i].0 != es[j].0 {
      assert Entry(key, generate, tables[i]) == Some(es[i]);
      assert Entry(key, generate, tables[j]) == Some(es[j]);
    }
    ToMapSize(es);
    forall i | 0 <= i < |tables|
      ensures WriteAll(key, generate, tables).value[key(tables[i]).value] == generate(tables[i]).value
    {
      FileHoldsItsTable(key, generate, tables, i);
    }
  }

  /** `generateEntities`: files named by the file-name configuration plus
      `.ts`, holding the generated entities. */
  function GenerateEntities(o: FormatterOptions, place: string -> Segments, db: Database): (r: Option<map<string, string>>)
    ensures r.None? <==> exists i :: 0 <= i < |db.tables| &&
                           (FileKey(o, db.tables[i]).None? || EntityGenerator.Generate(o, place, db.tables[i]).None?)
    ensures r.Some? ==> forall k :: k in r.value <==> exists i :: 0 <= i < |db.tables| && FileKey(o, db.tables[i]) == Some(k)
  {
    WriteAll(t => FileKey(o, t), t => EntityGenerator.Generate(o, place, t), db.tables)
  }

  /** Without a file-naming section, distinct table names are distinct file
      names, so every table keeps its own file. */
  lemma DefaultFileNamesDistinct(o: FormatterOptions, tables: seq<Table>)
    requires o.fileNaming.None?
    requires forall i, j :: 0 <= i < j < |tables| ==> tables[i].name != tables[j].name
    ensures forall i, j :: 0 <= i < j < |tables| ==> FileKey(o, tables[i]) != FileKey(o, tables[j])
  {
    forall i, j | 0 <= i < j < |tables| ensures FileKey(o, tables[i]) != FileKey(o, tables[j]) {
      AppendCancels(tables[i].name, tables[j].name, ".ts");
    }
  }
}
