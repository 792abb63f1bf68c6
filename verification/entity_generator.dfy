/** `EntityGenerator`: the complete source text of one entity file.  The
    parts are produced in a fixed order (index decorators, properties,
    relations, imports) so that the `typeorm` import can name every
    decorator the other parts used. */
module EntityGenerator {
  import opened Common
  import opened Schema
  import opened NameFormatterContextual
  import opened ImportPath
  import IndexDecoratorGenerator
  import PropertyGenerator
  import RelationGenerator
  import ImportGenerator

  /** The `typeorm` names used: `Entity` first, then those recorded by the
      index, property and relation generators, in that order, each once. */
  function UsedSymbols(t: Table): (r: seq<string>)
    ensures NoDuplicates(r)
    ensures forall s :: s in r <==> || s == "Entity"
                                    || s in IndexDecoratorGenerator.Symbols(t)
                                    || s in PropertyGenerator.Symbols(t)
                                    || s in RelationGenerator.Symbols(t)
  {
    var afterIndexes := AddAll(["Entity"], IndexDecoratorGenerator.Symbols(t));
    var afterProperties := AddAll(afterIndexes, PropertyGenerator.Symbols(t));
    AddAll(afterProperties, RelationGenerator.Symbols(t))
  }

  /** The `typeorm` import names exactly the decorators the file uses:
      `Entity` always, `Index` when there are indexes, the column decorator
      of each generated property, and the relation decorators when there
      are relations of that kind. */
  lemma UsedSymbolsExactly(t: Table, s: string)
    ensures s in UsedSymbols(t) <==>
              || s == "Entity"
              || (s == "Index" && t.indexes != [])
              || (exists c :: c in PropertyGenerator.EmittedColumns(t)
                              && s == PropertyGenerator.Symbol(PropertyGenerator.DecoratorOf(c)))
              || (t.foreignKeys != [] && (s == "ManyToOne" || s == "JoinColumn"))
              || (t.inverseForeignKeys != [] && s == "OneToMany")
  {
    MapSeqMember(PropertyGenerator.EmittedColumns(t), PropertyGenerator.SymbolOf, s);
  }

  function EntityLine(t: Table): string
  {
    "@Entity('" + t.name + "', { schema: '" + t.schema + "' })"
  }

  function ClassLine(className: string): string
  {
    "export class " + className + " {"
  }

  function Indent(p: string): string { "  " + p }

  /** The class body: every member indented, a blank line between two. */
  function Body(members: seq<string>): (r: string)
    ensures r == "" <==> members == []
  {
    var lines := MapSeq(members, Indent);
    if members == [] then ""
    else
      JoinFirst(lines, "\n\n");
      Join(lines, "\n\n")
  }

  /** The parts of the file, empty ones dropped, one per line.  The empty
      part listed after the imports is always dropped, so the blank line
      after the imports comes from the newline they end in; the index block
      and the body take a line only when they are non-empty. */
  function Assemble(imports: string, indices: string, t: Table, className: string, members: seq<string>): (r: string)
    ensures var rest := EntityLine(t) + "\n" + ClassLine(className) + "\n"
                        + (if members == [] then "" else Body(members) + "\n") + "}";
            imports != "" ==> r == imports + "\n" + (if indices == "" then rest else indices + "\n" + rest)
  {
    if imports != "" then
      LayoutLines(imports, indices, EntityLine(t), ClassLine(className), Body(members));
      Join(DropEmpty([imports, "", indices, EntityLine(t), ClassLine(className), Body(members), "}"]), "\n")
    else
      Join(DropEmpty([imports, "", indices, EntityLine(t), ClassLine(className), Body(members), "}"]), "\n")
  }

  lemma LayoutLines(imports: string, indices: string, e: string, c: string, b: string)
    requires imports != "" && e != "" && c != ""
    ensures var rest := e + "\n" + c + "\n" + (if b == "" then "" else b + "\n") + "}";
            Join(DropEmpty([imports, "", indices, e, c, b, "}"]), "\n")
            == imports + "\n" + (if indices == "" then rest else indices + "\n" + rest)
  {
    var tail := [e] + ([c] + ((if b == "" then [] else [b]) + ["}"]));
    var rest := e + "\n" + c + "\n" + (if b == "" then "" else b + "\n") + "}";
    assert DropEmpty([imports, "", indices, e, c, b, "}"]) == [imports] + (if indices == "" then [] else [indices]) + tail by {
      DropSeven(imports, indices, e, c, b);
    }
    assert Join(tail, "\n") == rest by {
      JoinTail(e, c, b);
    }
    if indices != "" {
      JoinAfterTwo(imports, indices, tail);
    } else {
      JoinAfterOne(imports, tail);
    }
  }

  lemma JoinAfterTwo(a: string, b: string, tail: seq<string>)
    requires tail != []
    ensures Join([a] + [b] + tail, "\n") == a + "\n" + (b + "\n" + Join(tail, "\n"))
  {
    JoinCons(b, tail, "\n");
    assert [a] + [b] + tail == [a] + ([b] + tail);
    JoinCons(a, [b] + tail, "\n");
  }

  lemma JoinAfterOne(a: string, tail: seq<string>)
    requires tail != []
    ensures Join([a] + [] + tail, "\n") == a + "\n" + Join(tail, "\n")
  {
    assert [a] + [] + tail == [a] + tail;
    JoinCons(a, tail, "\n");
  }

  /** The last lines: entity decorator, class line, body when present, and
      the closing brace. */
  lemma JoinTail(e: string, c: string, b: string)
    ensures Join([e] + ([c] + ((if b == "" then [] else [b]) + ["}"])), "\n")
            == e + "\n" + c + "\n" + (if b == "" then "" else b + "\n") + "}"
  {
    var last := (if b == "" then [] else [b]) + ["}"];
    assert Join(last, "\n") == (if b == "" then "" else b + "\n") + "}" by {
      if b != "" {
        JoinCons(b, ["}"], "\n");
      } else {
        assert last == ["}"];
      }
    }
    JoinCons(c, last, "\n");
    JoinCons(e, [c] + last, "\n");
  }

  /** The seven parts with the empty second one dropped, and the index
      block and the body dropped when empty.  The entity and class lines
      are never empty. */
  lemma DropSeven(a: string, c: string, d: string, e: string, f: string)
    requires a != "" && d != "" && e != ""
    ensures DropEmpty([a, "", c, d, e, f, "}"])
            == [a] + (if c == "" then [] else [c]) + ([d] + ([e] + ((if f == "" then [] else [f]) + ["}"])))
  {
    assert [a, "", c, d, e, f, "}"] == [a] + ([""] + ([c] + ([d] + ([e] + ([f] + ["}"])))));
    DropSevenNested(a, c, d, e, f);
  }

  lemma DropSevenNested(a: string, c: string, d: string, e: string, f: string)
    requires a != "" && d != "" && e != ""
    ensures DropEmpty([a] + ([""] + ([c] + ([d] + ([e] + ([f] + ["}"]))))))
            == [a] + (if c == "" then [] else [c]) + ([d] + ([e] + ((if f == "" then [] else [f]) + ["}"])))
  {
    DropEmptyCons("}", []);
    assert ["}"] + [] == ["}"];
    DropEmptyCons(f, ["}"]);
    DropEmptyCons(e, [f] + ["}"]);
    DropEmptyCons(d, [e] + ([f] + ["}"]));
    DropEmptyCons(c, [d] + ([e] + ([f] + ["}"])));
    DropEmptyCons("", [c] + ([d] + ([e] + ([f] + ["}"]))));
    DropEmptyCons(a, [""] + ([c] + ([d] + ([e] + ([f] + ["}"])))));
  }

  /** `generate`: `None` when any part fails to format a name. */
  function Generate(o: FormatterOptions, place: string -> Segments, t: Table): (r: Option<string>)
    ensures r.None? <==> || PropertyGenerator.Generate(o, t).None?
                         || RelationGenerator.Generate(o, t).None?
                         || ImportGenerator.Generate(o, place, t, UsedSymbols(t)).None?
                         || ToClassFormat(o, t.name).None?
    ensures r.Some? ==>
              r.value == Assemble(ImportGenerator.Generate(o, place, t, UsedSymbols(t)).value,
                                  IndexDecoratorGenerator.Generate(t), t, ToClassFormat(o, t.name).value,
                                  PropertyGenerator.Generate(o, t).value + RelationGenerator.Generate(o, t).value)
  {
    var indices := IndexDecoratorGenerator.Generate(t);
    var properties := PropertyGenerator.Generate(o, t);
    var relations := RelationGenerator.Generate(o, t);
    var imports := ImportGenerator.Generate(o, place, t, UsedSymbols(t));
    var className := ToClassFormat(o, t.name);
    if properties.None? || relations.None? || imports.None? || className.None? then None
    else Some(Assemble(imports.value, indices, t, className.value, properties.value + relations.value))
  }

  /** The class body holds one member per emitted column and per
      relation, properties first. */
  lemma GenerateMembers(o: FormatterOptions, t: Table)
    requires PropertyGenerator.Generate(o, t).Some? && RelationGenerator.Generate(o, t).Some?
    ensures var members := PropertyGenerator.Generate(o, t).value + RelationGenerator.Generate(o, t).value;
            |members| == |PropertyGenerator.EmittedColumns(t)| + |t.foreignKeys| + |t.inverseForeignKeys|
  {
  }

  /** A generated file opens with the `typeorm` import block, has an index
      line only when the table has indexes, and ends with the class. */
  lemma GenerateLayout(o: FormatterOptions, place: string -> Segments, t: Table)
    requires Generate(o, place, t).Some?
    ensures var imports := ImportGenerator.Generate(o, place, t, UsedSymbols(t)).value;
            var members := PropertyGenerator.Generate(o, t).value + RelationGenerator.Generate(o, t).value;
            var rest := EntityLine(t) + "\n" + ClassLine(ToClassFormat(o, t.name).value) + "\n"
                        + (if members == [] then "" else Body(members) + "\n") + "}";
            && StartsWith(imports, ImportGenerator.BaseLine(UsedSymbols(t)))
            && Generate(o, place, t).value
               == imports + "\n"
                  + (if t.indexes == [] then rest else IndexDecoratorGenerator.Generate(t) + "\n" + rest)
  {
    var imports := ImportGenerator.Generate(o, place, t, UsedSymbols(t)).value;
    assert StartsWith(imports, ImportGenerator.BaseLine(UsedSymbols(t)));
    var members := PropertyGenerator.Generate(o, t).value + RelationGenerator.Generate(o, t).value;
  }
}
