/** `IndexDecoratorGenerator`: one `@Index` class decorator per index of
    the table, ordered by index name. */
module IndexDecoratorGenerator {
  import opened Common
  import opened Ordering
  import opened Schema

  function IndexName(idx: Index): string { idx.name }

  function Quoted(s: string): string { "'" + s + "'" }

  /** `@Index('name', ['a', 'b'])`: the name, then the columns quoted in
      stored order, with `{ unique: true }` exactly for a unique index. */
  function IndexLine(idx: Index): (r: string)
    ensures r != [] && r[0] == '@'
    ensures StartsWith(r, "@Index('" + idx.name + "', [" + Join(MapSeq(idx.columns, Quoted), ", ") + "]")
    ensures EndsWith(r, ", { unique: true })") <==> idx.isUnique
  {
    var head := "@Index('" + idx.name + "', [" + Join(MapSeq(idx.columns, Quoted), ", ") + "]";
    UniqueOption(head, idx.isUnique);
    head + (if idx.isUnique then ", { unique: true }" else "") + ")"
  }

  /** A list closed by `]`, then the options and `)`: the text ends in the
      unique option exactly when it was added. */
  lemma UniqueOption(head: string, unique: bool)
    requires head != [] && head[|head| - 1] == ']'
    ensures var r := head + (if unique then ", { unique: true }" else "") + ")";
            StartsWith(r, head) && (EndsWith(r, ", { unique: true })") <==> unique)
  {
    var option := if unique then ", { unique: true }" else "";
    var r := head + option + ")";
    Framed(head, option, ")");
    if unique {
      assert r[|r| - 19..] == option + ")";
    } else {
      assert r[|r| - 2] == ']';
    }
  }

  /** The table's indexes in name order (ties keep their order). */
  function SortedIndexes(t: Table): (r: seq<Index>)
    ensures multiset(r) == multiset(t.indexes)
    ensures SortedBy(r, IndexName)
    ensures forall n :: WithKey(r, IndexName, n) == WithKey(t.indexes, IndexName, n)
  {
    SortByStable(t.indexes, IndexName);
    SortBy(t.indexes, IndexName)
  }

  /** `generate`: the decorators one per line, or nothing at all for a
      table without indexes. */
  function Generate(t: Table): (r: string)
    ensures r == "" <==> t.indexes == []
    ensures t.indexes != [] ==> r == Join(MapSeq(SortedIndexes(t), IndexLine), "\n")
  {
    if t.indexes == [] then ""
    else
      var lines := MapSeq(SortedIndexes(t), IndexLine);
      assert |lines| == |t.indexes| && lines[0] != [];
      JoinFirst(lines, "\n");
      Join(lines, "\n")
  }

  /** The `typeorm` names the decorators use. */
  function Symbols(t: Table): (r: seq<string>)
    ensures "Index" in r <==> t.indexes != []
    ensures forall s :: s in r ==> s == "Index"
  {
    if t.indexes == [] then [] else ["Index"]
  }

  /** Reordering a table's indexes does not change the decorators, as long
      as no two share a name. */
  lemma GenerateIgnoresOrder(t: Table, u: Table)
    requires multiset(t.indexes) == multiset(u.indexes)
    requires forall i, j :: 0 <= i < j < |t.indexes| ==> t.indexes[i].name != t.indexes[j].name
    ensures Generate(t) == Generate(u)
  {
    var a := SortedIndexes(t);
    var b := SortedIndexes(u);
    forall i, j | 0 <= i < |a| && 0 <= j < |a| && IndexName(a[i]) == IndexName(a[j])
      ensures a[i] == a[j]
    {
      assert a[i] in multiset(t.indexes) && a[j] in multiset(t.indexes);
      var p :| 0 <= p < |t.indexes| && t.indexes[p] == a[i];
      var q :| 0 <= q < |t.indexes| && t.indexes[q] == a[j];
      assert t.indexes[p].name == t.indexes[q].name;
      assert p == q;
    }
    SortedUnique(a, b, IndexName);
    assert |t.indexes| == |multiset(t.indexes)| == |u.indexes|;
  }
}
