/** `RelationGenerator`: a `@ManyToOne` property for each foreign key the
    table owns, then a `@OneToMany` property for each foreign key that
    points at it. */
module RelationGenerator {
  import opened Common
  import opened Schema
  import opened NameFormatterContextual

  /** `s.replace(/Id$/, '')`. */
  function StripId(s: string): string { StripSuffix(s, "Id") }

  /** A list's first entry as a template literal shows it: `undefined`
      when the list is empty. */
  function FirstOrUndefined(xs: seq<string>): string
  {
    if xs == [] then "undefined" else xs[0]
  }

  // ---------------------------------------------------------------------
  // Many-to-one: the owning side
  // ---------------------------------------------------------------------

  datatype ManyToOne = ManyToOne(
    property: string,       // the relation property, from the first source column
    targetClass: string,    // the referenced entity class
    backReference: string,  // the inverse collection on the referenced class
    sourceColumn: string,   // the join column
    targetColumn: string)   // the column it references

  /** The many-to-one relation for `fk` declared on `t`.  `None` when the
      key has no source column (the source reads `.replace` of
      `undefined`) or a name cannot be formatted. */
  function ManyToOneOf(o: FormatterOptions, t: Table, fk: ForeignKey): (r: Option<ManyToOne>)
    ensures r.None? <==> || fk.sourceColumns == []
                         || ToPropertyFormat(o, StripId(fk.sourceColumns[0])).None?
                         || ToClassFormat(o, fk.targetTable).None?
                         || ToPropertyFormat(o, t.name).None?
    ensures r.Some? ==> && r.value.property == ToPropertyFormat(o, StripId(fk.sourceColumns[0])).value
                        && r.value.targetClass == ToClassFormat(o, fk.targetTable).value
                        && r.value.backReference == ToPropertyFormat(o, t.name).value + "s"
                        && r.value.sourceColumn == fk.sourceColumns[0]
                        && r.value.targetColumn == FirstOrUndefined(fk.targetColumns)
  {
    if fk.sourceColumns == [] then None
    else
      var property := ToPropertyFormat(o, StripId(fk.sourceColumns[0]));
      var targetClass := ToClassFormat(o, fk.targetTable);
      var back := ToPropertyFormat(o, t.name);
      if property.None? || targetClass.None? || back.None? then None
      else Some(ManyToOne(property.value, targetClass.value, back.value + "s",
                          fk.sourceColumns[0], FirstOrUndefined(fk.targetColumns)))
  }

  /** The block opens with the `ManyToOne` decorator, pointing at the
      target class, and ends declaring the property with that class as its
      type; the `JoinColumn` line sits between. */
  function ManyToOneText(m: ManyToOne): (r: string)
    ensures StartsWith(r, "\t@ManyToOne(() => " + m.targetClass + ", ")
    ensures EndsWith(r, "\t" + m.property + ": " + m.targetClass + ";")
  {
    var head := "\t@ManyToOne(() => " + m.targetClass + ", ";
    var middle := m.property + " => " + m.property + "." + m.backReference + ")\n"
                  + "\t@JoinColumn([{ name: '" + m.sourceColumn + "', referencedColumnName: '" + m.targetColumn + "' }])\n";
    var declaration := "\t" + m.property + ": " + m.targetClass + ";";
    Framed(head, middle, declaration);
    head + middle + declaration
  }

  /** `generateManyToOne`, before rendering: one relation per owned key,
      in key order. */
  function ManyToOnes(o: FormatterOptions, t: Table): (r: Option<seq<ManyToOne>>)
    ensures r.None? <==> exists i :: 0 <= i < |t.foreignKeys| && ManyToOneOf(o, t, t.foreignKeys[i]).None?
    ensures r.Some? ==> |r.value| == |t.foreignKeys|
                        && forall i :: 0 <= i < |t.foreignKeys| ==> ManyToOneOf(o, t, t.foreignKeys[i]) == Some(r.value[i])
  {
    MapOption(t.foreignKeys, fk => ManyToOneOf(o, t, fk))
  }

  // ---------------------------------------------------------------------
  // One-to-many: the inverse side
  // ---------------------------------------------------------------------

  datatype OneToMany = OneToMany(
    property: string,     // the collection property
    sourceClass: string,  // the referencing entity class
    alias: string,        // the arrow-function parameter
    inverse: string)      // the owning property on the referencing class

  /** The alias of each referencing table, or `None` when one cannot be
      formatted. */
  function Aliases(o: FormatterOptions, t: Table): (r: Option<seq<string>>)
    ensures r.None? <==> exists i :: 0 <= i < |t.inverseForeignKeys|
                                       && ToPropertyFormat(o, t.inverseForeignKeys[i].sourceTable).None?
    ensures r.Some? ==> |r.value| == |t.inverseForeignKeys|
                        && forall i :: 0 <= i < |r.value| ==>
                             ToPropertyFormat(o, t.inverseForeignKeys[i].sourceTable) == Some(r.value[i])
  {
    MapOption(t.inverseForeignKeys, (fk: ForeignKey) => ToPropertyFormat(o, fk.sourceTable))
  }

  /** The one-to-many relation for `fk` under the collection name
      `property`. */
  function OneToManyOf(o: FormatterOptions, fk: ForeignKey, property: string): (r: Option<OneToMany>)
    ensures r.None? <==> || ToPropertyFormat(o, fk.sourceTable).None?
                         || ToClassFormat(o, fk.sourceTable).None?
                         || fk.sourceColumns == []
                         || ToPropertyFormat(o, StripId(fk.sourceColumns[0])).None?
    ensures r.Some? ==> && r.value.property == property
                        && r.value.alias == ToPropertyFormat(o, fk.sourceTable).value
                        && r.value.sourceClass == ToClassFormat(o, fk.sourceTable).value
                        && r.value.inverse == ToPropertyFormat(o, StripId(fk.sourceColumns[0])).value
  {
    var alias := ToPropertyFormat(o, fk.sourceTable);
    var sourceClass := ToClassFormat(o, fk.sourceTable);
    if alias.None? || sourceClass.None? || fk.sourceColumns == [] then None
    else
      var inverse := ToPropertyFormat(o, StripId(fk.sourceColumns[0]));
      if inverse.None? then None
      else Some(OneToMany(property, sourceClass.value, alias.value, inverse.value))
  }

  /** The block opens with the `OneToMany` decorator, pointing at the
      source class, and ends declaring the collection as an array of it. */
  function OneToManyText(r: OneToMany): (s: string)
    ensures StartsWith(s, "\t@OneToMany(() => " + r.sourceClass + ", ")
    ensures EndsWith(s, "\t" + r.property + ": " + r.sourceClass + "[];")
  {
    var head := "\t@OneToMany(() => " + r.sourceClass + ", ";
    var middle := r.alias + " => " + r.alias + "." + r.inverse + ")\n";
    var declaration := "\t" + r.property + ": " + r.sourceClass + "[];";
    Framed(head, middle, declaration);
    head + middle + declaration
  }

  /** The one-to-many relations in key order, the `i`-th named `names[i]`. */
  function OneToManysNamed(o: FormatterOptions, t: Table, names: seq<string>): (r: Option<seq<OneToMany>>)
    requires |names| == |t.inverseForeignKeys|
    ensures r.None? <==> exists i :: 0 <= i < |names| && OneToManyOf(o, t.inverseForeignKeys[i], names[i]).None?
    ensures r.Some? ==> |r.value| == |names|
                        && forall i :: 0 <= i < |names| ==>
                             OneToManyOf(o, t.inverseForeignKeys[i], names[i]) == Some(r.value[i])
  {
    var inv := t.inverseForeignKeys;
    var pairs := seq(|inv|, i requires 0 <= i < |inv| => (inv[i], names[i]));
    var r := MapOption(pairs, (p: (ForeignKey, string)) => OneToManyOf(o, p.0, p.1));
    assert forall i :: 0 <= i < |names| ==> pairs[i] == (inv[i], names[i]);
    r
  }

  // ---------------------------------------------------------------------
  // Collection names
  // ---------------------------------------------------------------------

  /** Each alias plus `s`: the plural the collection names start from. */
  function Plurals(aliases: seq<string>): (r: seq<string>)
    ensures |r| == |aliases|
  {
    seq(|aliases|, i requires 0 <= i < |aliases| => aliases[i] + "s")
  }

  /** How often `x` occurs in `xs`. */
  function CountIn(xs: seq<string>, x: string): nat
  {
    if xs == [] then 0 else CountIn(xs[..|xs| - 1], x) + (if xs[|xs| - 1] == x then 1 else 0)
  }

  /** Which use of its alias the `i`-th key is: 1 for the first. */
  function Occurrence(aliases: seq<string>, i: nat): (k: nat)
    requires i < |aliases|
    ensures k >= 1
  {
    assert aliases[..i + 1][..i] == aliases[..i];
    CountIn(aliases[..i + 1], aliases[i])
  }

  /** The collection name of the `k`-th use of an alias: the first is the
      alias plus `s`, later ones carry their number. */
  function CollectionName(alias: string, k: nat): string
  {
    if k <= 1 then alias + "s" else alias + "s" + NatToString(k)
  }

  /** Collection names numbered per alias, as the earlier entity writer
      does. */
  function Names(aliases: seq<string>): (r: seq<string>)
    ensures |r| == |aliases|
    ensures forall i :: 0 <= i < |aliases| ==> r[i] == CollectionName(aliases[i], Occurrence(aliases, i))
  {
    seq(|aliases|, i requires 0 <= i < |aliases| => CollectionName(aliases[i], Occurrence(aliases, i)))
  }

  lemma {:induction false} CountInPrefixMonotone(xs: seq<string>, x: string, i: nat, j: nat)
    requires i <= j <= |xs|
    ensures CountIn(xs[..i], x) <= CountIn(xs[..j], x)
    decreases j - i
  {
    if i < j {
      CountInPrefixMonotone(xs, x, i, j - 1);
      assert xs[..j][..j - 1] == xs[..j - 1];
    }
  }

  /** A later key with the same alias is a later use of it. */
  lemma OccurrenceIncreases(aliases: seq<string>, i: nat, j: nat)
    requires i < j < |aliases| && aliases[i] == aliases[j]
    ensures Occurrence(aliases, i) < Occurrence(aliases, j)
  {
    assert aliases[..j + 1][..j] == aliases[..j];
    CountInPrefixMonotone(aliases, aliases[i], i + 1, j);
  }

  /** Number of decimal digits at the end of `s`. */
  function TrailingDigits(s: string): (n: nat)
    ensures n <= |s|
  {
    if s == [] || !IsDigit(s[|s| - 1]) then 0 else 1 + TrailingDigits(s[..|s| - 1])
  }

  lemma {:induction false} TrailingDigitsOf(p: string, d: string)
    requires p != [] && !IsDigit(p[|p| - 1])
    requires forall i :: 0 <= i < |d| ==> IsDigit(d[i])
    ensures TrailingDigits(p + d) == |d|
    decreases |d|
  {
    if d != [] {
      assert (p + d)[..|p + d| - 1] == p + d[..|d| - 1];
      TrailingDigitsOf(p, d[..|d| - 1]);
    } else {
      assert p + d == p;
    }
  }

  /** A collection name determines its alias and its number. */
  lemma CollectionNameInjective(a: string, k: nat, b: string, m: nat)
    requires k >= 1 && m >= 1
    ensures CollectionName(a, k) == CollectionName(b, m) ==> a == b && k == m
  {
    var x := CollectionName(a, k);
    var y := CollectionName(b, m);
    if x == y {
      assert TrailingDigits(x) == 0 <==> k == 1 by {
        if k == 1 {
          assert IsDigit(x[|x| - 1]) == IsDigit('s');
        } else {
          TrailingDigitsOf(a + "s", NatToString(k));
        }
      }
      assert TrailingDigits(y) == 0 <==> m == 1 by {
        if m == 1 {
          assert IsDigit(y[|y| - 1]) == IsDigit('s');
        } else {
          TrailingDigitsOf(b + "s", NatToString(m));
        }
      }
      if k == 1 {
        assert a == x[..|x| - 1] == b;
      } else {
        var d := NatToString(k);
        var e := NatToString(m);
        TrailingDigitsOf(a + "s", d);
        TrailingDigitsOf(b + "s", e);
        assert d == x[|x| - |d|..] == e;
        assert a + "s" == x[..|x| - |d|] == b + "s";
        assert a == (a + "s")[..|a|];
        assert b == (b + "s")[..|b|];
        NatToStringRoundTrip(k);
        NatToStringRoundTrip(m);
      }
    }
  }

  /** The numbered names never clash: each key gets its own collection. */
  lemma NamesDistinct(aliases: seq<string>)
    ensures NoDuplicates(Names(aliases))
  {
    var r := Names(aliases);
    forall i, j | 0 <= i < j < |r| ensures r[i] != r[j] {
      CollectionNameInjective(aliases[i], Occurrence(aliases, i), aliases[j], Occurrence(aliases, j));
      if aliases[i] == aliases[j] {
        OccurrenceIncreases(aliases, i, j);
      }
    }
  }

  /** Where no alias repeats, numbering changes nothing: the first use of
      an alias is named exactly as the source names it. */
  lemma NamesAgreeWithoutRepeats(aliases: seq<string>)
    requires NoDuplicates(aliases)
    ensures Names(aliases) == Plurals(aliases)
  {
    forall i | 0 <= i < |aliases| ensures Occurrence(aliases, i) == 1 {
      FirstUse(aliases, i);
    }
  }

  lemma FirstUse(aliases: seq<string>, i: nat)
    requires i < |aliases|
    requires forall j :: 0 <= j < i ==> aliases[j] != aliases[i]
    ensures Occurrence(aliases, i) == 1
  {
    NotCounted(aliases[..i], aliases[i]);
    assert aliases[..i + 1][..i] == aliases[..i];
  }

  lemma {:induction false} NotCounted(xs: seq<string>, x: string)
    requires forall j :: 0 <= j < |xs| ==> xs[j] != x
    ensures CountIn(xs, x) == 0
  {
    if xs != [] {
      NotCounted(xs[..|xs| - 1], x);
    }
  }

  // ---------------------------------------------------------------------
  // The counter as written
  // ---------------------------------------------------------------------

  /** The names a `{}` object inherits from `Object.prototype`, apart from
      `__proto__`: reading one of them yields a function. */
  const ObjectPrototypeMembers: set<string> :=
    {"constructor", "hasOwnProperty", "isPrototypeOf", "propertyIsEnumerable",
     "toLocaleString", "toString", "valueOf", "__defineGetter__",
     "__defineSetter__", "__lookupGetter__", "__lookupSetter__"}

  /** A value `count[alias]` can hold: `undefined`, an inherited member
      (a function, or the prototype object itself), a number, or NaN. */
  datatype Slot = Missing | Inherited | Count(n: nat) | NotANumber

  /** `count[alias]`: an own property if one was written, otherwise what
      `{}` inherits under that name. */
  function Read(own: map<string, Slot>, alias: string): Slot
  {
    if alias in own then own[alias]
    else if alias == "__proto__" || alias in ObjectPrototypeMembers then Inherited
    else Missing
  }

  /** JavaScript truthiness: objects and functions are truthy, and so is
      every number except 0 and NaN. */
  predicate Truthy(v: Slot)
  {
    v.Inherited? || (v.Count? && v.n != 0)
  }

  /** `++v`: a number goes up by one; anything else converts to NaN. */
  function Increment(v: Slot): (w: Slot)
    ensures w.Count? || w.NotANumber?
  {
    if v.Count? then Count(v.n + 1) else NotANumber
  }

  /** The text of a number in a template literal. */
  function NumberText(v: Slot): string
  {
    if v.Count? then NatToString(v.n) else "NaN"
  }

  /** `count[alias] = v`: an own property is written, except under
      `__proto__`, whose setter ignores a value that is not an object. */
  function Write(own: map<string, Slot>, alias: string, v: Slot): map<string, Slot>
  {
    if alias == "__proto__" then own else own[alias := v]
  }

  /** One key on the numbering line: the collection name, and the counter
      object's own properties afterwards. */
  function Visit(own: map<string, Slot>, alias: string): (string, map<string, Slot>)
  {
    var v := Read(own, alias);
    if Truthy(v) then
      var w := Increment(v);
      (alias + "s" + NumberText(w), Write(own, alias, w))
    else (alias + "s", own)
  }

  datatype Run = Run(names: seq<string>, count: map<string, Slot>)

  /** The numbering loop of `generateOneToMany` as written, started from
      an empty object literal: the names and the counter after them. */
  function RunAsWritten(aliases: seq<string>): (r: Run)
    ensures |r.names| == |aliases|
  {
    if aliases == [] then Run([], map[])
    else
      var prev := RunAsWritten(aliases[..|aliases| - 1]);
      var step := Visit(prev.count, aliases[|aliases| - 1]);
      Run(prev.names + [step.0], step.1)
  }

  /** The collection names the source gives the keys. */
  function NamesAsWritten(aliases: seq<string>): (r: seq<string>)
    ensures |r| == |aliases|
  {
    RunAsWritten(aliases).names
  }

  /** Whether `count[alias]` is truthy when the `i`-th key is reached: the
      alias is a name `{}` inherits and no earlier key has replaced it by
      NaN (under `__proto__` nothing can replace it). */
  predicate ReadsInherited(aliases: seq<string>, i: nat)
    requires i < |aliases|
  {
    aliases[i] == "__proto__" || (aliases[i] in ObjectPrototypeMembers && aliases[i] !in aliases[..i])
  }

  /** The counter's own properties after the keys `seen`: NaN under each
      inherited member name among them, and nothing else. */
  ghost predicate CounterAfter(own: map<string, Slot>, seen: seq<string>)
  {
    && (forall a :: a in own <==> a in seen && a in ObjectPrototypeMembers)
    && (forall a :: a in own ==> own[a] == NotANumber)
  }

  lemma ProtoNotMember()
    ensures "__proto__" !in ObjectPrototypeMembers
  {
  }

  /** One key, against the counter the earlier keys left behind. */
  lemma VisitCharacterized(own: map<string, Slot>, seen: seq<string>, a: string)
    requires CounterAfter(own, seen)
    ensures CounterAfter(Visit(own, a).1, seen + [a])
    ensures Visit(own, a).0 == a + "s" + (if a == "__proto__" || (a in ObjectPrototypeMembers && a !in seen)
                                         then "NaN" else "")
  {
    ProtoNotMember();
    var seen' := seen + [a];
    assert forall x :: x in seen' <==> x in seen || x == a;
  }

  /** As written, the `i`-th collection is the alias plus `s`, followed by
      `NaN` exactly when the counter reads an inherited member there. */
  lemma {:induction false} NamesAsWrittenCharacterized(aliases: seq<string>)
    ensures CounterAfter(RunAsWritten(aliases).count, aliases)
    ensures forall i :: 0 <= i < |aliases| ==>
              NamesAsWritten(aliases)[i] == aliases[i] + "s" + (if ReadsInherited(aliases, i) then "NaN" else "")
    decreases |aliases|
  {
    if aliases != [] {
      var n := |aliases| - 1;
      var pre := aliases[..n];
      NamesAsWrittenCharacterized(pre);
      VisitCharacterized(RunAsWritten(pre).count, pre, aliases[n]);
      assert pre + [aliases[n]] == aliases;
      forall i | 0 <= i < n
        ensures NamesAsWritten(aliases)[i] == aliases[i] + "s" + (if ReadsInherited(aliases, i) then "NaN" else "")
      {
        assert aliases[..i] == pre[..i];
        assert NamesAsWritten(aliases)[i] == NamesAsWritten(pre)[i];
      }
    } else {
      assert forall a :: a !in RunAsWritten(aliases).count;
    }
  }

  /** An alias `{}` does not inherit reads `undefined`. */
  predicate Plain(alias: string)
  {
    alias != "__proto__" && alias !in ObjectPrototypeMembers
  }

  /** Where no alias is an inherited name, the counter never takes effect:
      every collection is the alias plus `s`. */
  lemma PlainNamesAsWritten(aliases: seq<string>)
    requires forall i :: 0 <= i < |aliases| ==> Plain(aliases[i])
    ensures NamesAsWritten(aliases) == Plurals(aliases)
  {
    NamesAsWrittenCharacterized(aliases);
    forall i | 0 <= i < |aliases| ensures NamesAsWritten(aliases)[i] == Plurals(aliases)[i] {
      assert !ReadsInherited(aliases, i);
      assert aliases[i] + "s" + "" == aliases[i] + "s";
    }
  }

  /** Two keys with the same alias get the same name as written, unless the
      first of them is the first use of an inherited member name, which
      alone carries `NaN`; numbered, their names always differ. */
  lemma AsWrittenNamesClash(aliases: seq<string>, i: nat, j: nat)
    requires i < j < |aliases| && aliases[i] == aliases[j]
    ensures NamesAsWritten(aliases)[i] == NamesAsWritten(aliases)[j]
            <==> !(aliases[i] in ObjectPrototypeMembers && aliases[i] !in aliases[..i])
    ensures Names(aliases)[i] != Names(aliases)[j]
  {
    NamesDistinct(aliases);
    NamesAsWrittenCharacterized(aliases);
    ProtoNotMember();
    assert aliases[i] == aliases[..j][i];
    if ReadsInherited(aliases, i) != ReadsInherited(aliases, j) {
      assert aliases[i] + "s" + "NaN" != aliases[i] + "s" by {
        assert |aliases[i] + "s" + "NaN"| != |aliases[i] + "s"|;
      }
    }
  }

  // ---------------------------------------------------------------------
  // Generation
  // ---------------------------------------------------------------------

  /** Whether the collection for `fk` cannot be produced, whatever its
      name. */
  predicate CollectionFails(o: FormatterOptions, fk: ForeignKey)
  {
    || ToPropertyFormat(o, fk.sourceTable).None?
    || ToClassFormat(o, fk.sourceTable).None?
    || fk.sourceColumns == []
    || ToPropertyFormat(o, StripId(fk.sourceColumns[0])).None?
  }

  /** `generateOneToMany` as written: the collections in key order, named
      by the counter as the source runs it. */
  function OneToManysAsWritten(o: FormatterOptions, t: Table): (r: Option<seq<OneToMany>>)
    ensures r.None? <==> exists i :: 0 <= i < |t.inverseForeignKeys| && CollectionFails(o, t.inverseForeignKeys[i])
    ensures r.Some? ==> && Aliases(o, t).Some? && |r.value| == |t.inverseForeignKeys|
                        && forall i :: 0 <= i < |r.value| ==>
                             && OneToManyOf(o, t.inverseForeignKeys[i], r.value[i].property) == Some(r.value[i])
                             && r.value[i].property == NamesAsWritten(Aliases(o, t).value)[i]
  {
    match Aliases(o, t)
    case None => None
    case Some(aliases) =>
      OneToManysNamed(o, t, NamesAsWritten(aliases))
  }

  /** `generateOneToMany` with repeats numbered: no two collections of a
      class share a name. */
  function OneToManys(o: FormatterOptions, t: Table): (r: Option<seq<OneToMany>>)
    ensures r.None? <==> exists i :: 0 <= i < |t.inverseForeignKeys| && CollectionFails(o, t.inverseForeignKeys[i])
    ensures r.Some? ==> && Aliases(o, t).Some? && |r.value| == |t.inverseForeignKeys|
                        && forall i :: 0 <= i < |r.value| ==>
                             && OneToManyOf(o, t.inverseForeignKeys[i], r.value[i].property) == Some(r.value[i])
                             && r.value[i].property == Names(Aliases(o, t).value)[i]
    ensures r.Some? ==> forall i, j :: 0 <= i < j < |r.value| ==> r.value[i].property != r.value[j].property
  {
    match Aliases(o, t)
    case None => None
    case Some(aliases) =>
      NamesDistinct(aliases);
      OneToManysNamed(o, t, Names(aliases))
  }

  /** Numbering the collections changes no outcome: both versions fail on
      exactly the same tables. */
  lemma NumberingKeepsFailures(o: FormatterOptions, t: Table)
    ensures OneToManys(o, t).None? <==> OneToManysAsWritten(o, t).None?
  {
  }

  /** Two keys from the same table, rendered as written, declare the same
      collection property twice, unless the first of them is the first
      key whose alias is a name `{}` inherits. */
  lemma AsWrittenDuplicateProperty(o: FormatterOptions, t: Table, i: nat, j: nat)
    requires i < j < |t.inverseForeignKeys|
    requires t.inverseForeignKeys[i].sourceTable == t.inverseForeignKeys[j].sourceTable
    requires OneToManysAsWritten(o, t).Some?
    ensures var rs := OneToManysAsWritten(o, t).value;
            var aliases := Aliases(o, t).value;
            rs[i].property == rs[j].property
            <==> !(rs[i].alias in ObjectPrototypeMembers && rs[i].alias !in aliases[..i])
  {
    var aliases := Aliases(o, t).value;
    assert aliases[i] == aliases[j];
    AsWrittenNamesClash(aliases, i, j);
  }

  /** The rendered relations: each owned key's relation first, in key
      order, then each referencing key's collection, in key order. */
  function Render(ms: seq<ManyToOne>, rs: seq<OneToMany>): (r: seq<string>)
    ensures |r| == |ms| + |rs|
    ensures forall i :: 0 <= i < |ms| ==> r[i] == ManyToOneText(ms[i])
    ensures forall i :: 0 <= i < |rs| ==> r[|ms| + i] == OneToManyText(rs[i])
  {
    var a := MapSeq(ms, ManyToOneText);
    var b := MapSeq(rs, OneToManyText);
    var r := a + b;
    assert forall i :: 0 <= i < |a| ==> r[i] == a[i];
    assert forall i :: 0 <= i < |b| ==> r[|a| + i] == b[i];
    r
  }

  /** `generate`: the owned relations, then the collections named as the
      source names them; `None` when either part fails. */
  function Generate(o: FormatterOptions, t: Table): (r: Option<seq<string>>)
    ensures r.None? <==> || (exists i :: 0 <= i < |t.foreignKeys| && ManyToOneOf(o, t, t.foreignKeys[i]).None?)
                         || (exists i :: 0 <= i < |t.inverseForeignKeys| && CollectionFails(o, t.inverseForeignKeys[i]))
    ensures r.Some? ==> r.value == Render(ManyToOnes(o, t).value, OneToManysAsWritten(o, t).value)
  {
    var m := ManyToOnes(o, t);
    var n := OneToManysAsWritten(o, t);
    if m.None? || n.None? then None else Some(Render(m.value, n.value))
  }

  /** `generate` with repeated collections numbered, as intended: the
      same relations with pairwise distinct collection names. */
  function GenerateNumbered(o: FormatterOptions, t: Table): (r: Option<seq<string>>)
    ensures r.None? <==> Generate(o, t).None?
    ensures r.Some? ==> r.value == Render(ManyToOnes(o, t).value, OneToManys(o, t).value)
  {
    var m := ManyToOnes(o, t);
    var n := OneToManys(o, t);
    NumberingKeepsFailures(o, t);
    if m.None? || n.None? then None else Some(Render(m.value, n.value))
  }

  /** The `typeorm` names the relations use, once per key. */
  function Symbols(t: Table): (r: seq<string>)
    ensures forall s :: s in r <==> || (t.foreignKeys != [] && (s == "ManyToOne" || s == "JoinColumn"))
                                    || (t.inverseForeignKeys != [] && s == "OneToMany")
  {
    Repeat(["ManyToOne", "JoinColumn"], |t.foreignKeys|) + Repeat(["OneToMany"], |t.inverseForeignKeys|)
  }

  /** The two ends of one key agree: the owning side's back-reference is
      the collection the first referencing use declares, and the
      collection's inverse is the owning side's property. */
  lemma EndsAgree(o: FormatterOptions, s: Table, fk: ForeignKey)
    requires fk.sourceTable == s.name
    requires ManyToOneOf(o, s, fk).Some?
    requires OneToManyOf(o, fk, CollectionName(ToPropertyFormat(o, fk.sourceTable).value, 1)).Some?
    ensures var m := ManyToOneOf(o, s, fk).value;
            var r := OneToManyOf(o, fk, CollectionName(ToPropertyFormat(o, fk.sourceTable).value, 1)).value;
            m.backReference == r.property && r.inverse == m.property
  {
  }

  /** A `customer` table referenced twice from `order` (a billing and a
      shipping key), with no naming configuration: as written both
      collections are `orders`; numbered, the second is `orders2`. */
  lemma TwiceReferencedExample()
    ensures var o := FormatterOptions(None, None, None);
            var billing := ForeignKey("FK_billing", "order", ["billingId"], "customer", ["id"]);
            var shipping := ForeignKey("FK_shipping", "order", ["shippingId"], "customer", ["id"]);
            var t := Table("customer", "dbo", [], [], [], [billing, shipping], None);
            && OneToManysAsWritten(o, t).Some?
            && OneToManysAsWritten(o, t).value[0].property == "orders"
            && OneToManysAsWritten(o, t).value[1].property == "orders"
            && OneToManys(o, t).Some?
            && OneToManys(o, t).value[0].property == "orders"
            && OneToManys(o, t).value[1].property == "orders2"
  {
    var o := FormatterOptions(None, None, None);
    var billing := ForeignKey("FK_billing", "order", ["billingId"], "customer", ["id"]);
    var shipping := ForeignKey("FK_shipping", "order", ["shippingId"], "customer", ["id"]);
    var t := Table("customer", "dbo", [], [], [], [billing, shipping], None);
    var aliases := ["order", "order"];
    assert ToPropertyFormat(o, "order") == Some("order");
    var a := Aliases(o, t);
    assert a.Some? && a.value[0] == "order" && a.value[1] == "order";
    assert a.value == aliases;
    NumberedNamesExample();
    assert Plain("order");
    PlainNamesAsWritten(aliases);
    assert Plurals(aliases)[0] == "order" + "s";
  }

  /** A `customer` table referenced twice from a table named `valueOf`:
      the counter reads the inherited `valueOf` method, so the first
      collection is `valueOfsNaN` and the second, which reads the NaN just
      written, is `valueOfs`. */
  lemma InheritedAliasExample()
    ensures var o := FormatterOptions(None, None, None);
            var first := ForeignKey("FK_first", "valueOf", ["firstId"], "customer", ["id"]);
            var second := ForeignKey("FK_second", "valueOf", ["secondId"], "customer", ["id"]);
            var t := Table("customer", "dbo", [], [], [], [first, second], None);
            && OneToManysAsWritten(o, t).Some?
            && OneToManysAsWritten(o, t).value[0].property == "valueOfsNaN"
            && OneToManysAsWritten(o, t).value[1].property == "valueOfs"
  {
    var o := FormatterOptions(None, None, None);
    var first := ForeignKey("FK_first", "valueOf", ["firstId"], "customer", ["id"]);
    var second := ForeignKey("FK_second", "valueOf", ["secondId"], "customer", ["id"]);
    var t := Table("customer", "dbo", [], [], [], [first, second], None);
    var aliases := ["valueOf", "valueOf"];
    assert ToPropertyFormat(o, "valueOf") == Some("valueOf");
    var a := Aliases(o, t);
    assert a.Some? && a.value[0] == "valueOf" && a.value[1] == "valueOf";
    assert a.value == aliases;
    InheritedNamesExample();
  }

  lemma InheritedNamesExample()
    ensures NamesAsWritten(["valueOf", "valueOf"]) == ["valueOfsNaN", "valueOfs"]
  {
    var aliases := ["valueOf", "valueOf"];
    NamesAsWrittenCharacterized(aliases);
    assert "valueOf" in ObjectPrototypeMembers;
    assert aliases[..0] == [] && aliases[..1] == ["valueOf"];
    assert ReadsInherited(aliases, 0) && !ReadsInherited(aliases, 1);
    assert NamesAsWritten(aliases)[0] == "valueOf" + "s" + "NaN" == "valueOfsNaN";
    assert NamesAsWritten(aliases)[1] == "valueOf" + "s" + "" == "valueOfs";
    assert |NamesAsWritten(aliases)| == 2;
  }

  lemma NumberedNamesExample()
    ensures Names(["order", "order"]) == ["orders", "orders2"]
  {
    var aliases := ["order", "order"];
    assert Occurrence(aliases, 0) == 1 by {
      FirstUse(aliases, 0);
    }
    assert Occurrence(aliases, 1) == 2 by {
      OccurrenceIncreases(aliases, 0, 1);
      assert aliases[..2] == aliases;
      assert aliases[..1] == ["order"];
      assert CountIn(aliases[..1], "order") == 1;
    }
    assert NatToString(2) == "2";
    assert Names(aliases)[0] == "order" + "s" == "orders";
    assert Names(aliases)[1] == "order" + "s" + "2" == "orders2";
    assert |Names(aliases)| == 2;
  }
}
