/** Grouping rows by a key into an insertion-ordered map.

    The schema builder repeatedly runs the same loop over catalog rows:
    look the row's key up in a JavaScript `Map`, create an entry on first
    sight, then push the row into that entry.  A `Map` iterates in
    insertion order, so the result is a list of groups whose keys are the
    distinct row keys in first-seen order.  `GroupBy` is that loop as a
    fold; `GroupByCharacterized` relates it to a direct description. */
module Grouping {
  import opened Common

  datatype Group<K, R> = Group(key: K, rows: seq<R>)

  /** The row keys, in row order (duplicates kept). */
  function KeysOf<K, R>(rows: seq<R>, key: R -> K): (ks: seq<K>)
    ensures |ks| == |rows|
    ensures forall i :: 0 <= i < |rows| ==> ks[i] == key(rows[i])
  {
    if rows == [] then [] else KeysOf(rows[..|rows| - 1], key) + [key(rows[|rows| - 1])]
  }

  /** The rows whose key is `k`, in row order. */
  function Select<K(==), R>(rows: seq<R>, key: R -> K, k: K): (s: seq<R>)
    ensures forall i :: 0 <= i < |s| ==> key(s[i]) == k
  {
    if rows == [] then []
    else Select(rows[..|rows| - 1], key, k) + (if key(rows[|rows| - 1]) == k then [rows[|rows| - 1]] else [])
  }

  lemma {:induction false} SelectEmpty<K, R>(rows: seq<R>, key: R -> K, k: K)
    ensures Select(rows, key, k) == [] <==> k !in KeysOf(rows, key)
  {
    if rows != [] {
      var init := rows[..|rows| - 1];
      SelectEmpty(init, key, k);
      assert KeysOf(rows, key) == KeysOf(init, key) + [key(rows[|rows| - 1])];
    }
  }

  /** The first row of a non-empty selection is the earliest row with key `k`. */
  lemma {:induction false} SelectFirst<K, R>(rows: seq<R>, key: R -> K, k: K)
    requires Select(rows, key, k) != []
    ensures exists i :: 0 <= i < |rows| && rows[i] == Select(rows, key, k)[0]
                        && (forall j :: 0 <= j < i ==> key(rows[j]) != k)
  {
    var init := rows[..|rows| - 1];
    var last := rows[|rows| - 1];
    var tail := if key(last) == k then [last] else [];
    assert Select(rows, key, k) == Select(init, key, k) + tail;
    if Select(init, key, k) == [] {
      SelectEmpty(init, key, k);
      var i := |rows| - 1;
      assert Select(rows, key, k)[0] == rows[i];
      forall j | 0 <= j < i ensures key(rows[j]) != k {
        assert KeysOf(init, key)[j] == key(rows[j]);
      }
    } else {
      SelectFirst(init, key, k);
      var i :| 0 <= i < |init| && init[i] == Select(init, key, k)[0]
               && (forall j :: 0 <= j < i ==> key(init[j]) != k);
      assert Select(rows, key, k)[0] == Select(init, key, k)[0];
      assert rows[i] == init[i];
      assert forall j :: 0 <= j < i ==> rows[j] == init[j];
    }
  }

  /** Index of the first group with key `k`, or `|gs|` if there is none. */
  function FindGroup<K(==), R>(gs: seq<Group<K, R>>, k: K): (i: nat)
    ensures i <= |gs|
    ensures i < |gs| ==> gs[i].key == k
    ensures forall j :: 0 <= j < i ==> gs[j].key != k
  {
    if gs == [] then 0
    else if gs[0].key == k then 0
    else 1 + FindGroup(gs[1..], k)
  }

  /** `if (!m.has(k)) m.set(k, []); m.get(k).push(r)`. */
  function Upsert<K(==), R>(gs: seq<Group<K, R>>, k: K, r: R): seq<Group<K, R>>
  {
    var i := FindGroup(gs, k);
    if i == |gs| then gs + [Group(k, [r])]
    else gs[i := gs[i].(rows := gs[i].rows + [r])]
  }

  /** The grouping loop, one row at a time in row order. */
  function GroupBy<K(==), R>(rows: seq<R>, key: R -> K): seq<Group<K, R>>
  {
    if rows == [] then []
    else Upsert(GroupBy(rows[..|rows| - 1], key), key(rows[|rows| - 1]), rows[|rows| - 1])
  }

  /** `gs` is the grouping of `rows`: one group per distinct key in
      first-seen order, holding exactly that key's rows in row order. */
  ghost predicate Characterizes<K, R>(gs: seq<Group<K, R>>, rows: seq<R>, key: R -> K)
  {
    && |gs| == |Distinct(KeysOf(rows, key))|
    && forall i :: 0 <= i < |gs| ==>
         gs[i].key == Distinct(KeysOf(rows, key))[i] && gs[i].rows == Select(rows, key, gs[i].key)
  }

  /** One more row appends its key. */
  lemma KeysSnoc<K, R>(init: seq<R>, r: R, key: R -> K)
    ensures KeysOf(init + [r], key) == KeysOf(init, key) + [key(r)]
  {
    assert (init + [r])[..|init|] == init;
  }

  /** One more key is kept only when it is new. */
  lemma DistinctSnoc<T>(xs: seq<T>, x: T)
    ensures Distinct(xs + [x]) == if x in Distinct(xs) then Distinct(xs) else Distinct(xs) + [x]
  {
    assert (xs + [x])[..|xs|] == xs;
  }

  lemma UpsertNewKey<K, R>(gs0: seq<Group<K, R>>, init: seq<R>, key: R -> K, r: R)
    requires Characterizes(gs0, init, key)
    requires FindGroup(gs0, key(r)) == |gs0|
    ensures Characterizes(Upsert(gs0, key(r), r), init + [r], key)
  {
    UpsertNewKeyGroups(gs0, init, key, r);
  }

  /** A row with a key no group has opens a group of its own at the end. */
  lemma UpsertNewKeyGroups<K, R>(gs0: seq<Group<K, R>>, init: seq<R>, key: R -> K, r: R)
    requires Characterizes(gs0, init, key)
    requires forall j :: 0 <= j < |gs0| ==> gs0[j].key != key(r)
    ensures Characterizes(gs0 + [Group(key(r), [r])], init + [r], key)
  {
    var k := key(r);
    var d0 := Distinct(KeysOf(init, key));
    KeysSnoc(init, r, key);
    DistinctSnoc(KeysOf(init, key), k);
    assert k !in d0 by {
      forall j | 0 <= j < |d0| ensures d0[j] != k {
        assert gs0[j].key == d0[j];
      }
    }
    var d := d0 + [k];
    assert Distinct(KeysOf(init + [r], key)) == d;
    var gs := gs0 + [Group(k, [r])];
    forall i | 0 <= i < |gs|
      ensures gs[i].key == d[i] && gs[i].rows == Select(init + [r], key, gs[i].key)
    {
      SelectSnoc(init, r, key, d[i]);
      if i < |gs0| {
        assert gs[i] == gs0[i] && d[i] == d0[i];
      } else {
        SelectEmpty(init, key, k);
      }
    }
  }

  lemma UpsertOldKey<K, R>(gs0: seq<Group<K, R>>, init: seq<R>, key: R -> K, r: R)
    requires Characterizes(gs0, init, key)
    requires FindGroup(gs0, key(r)) < |gs0|
    ensures Characterizes(Upsert(gs0, key(r), r), init + [r], key)
  {
    var i0 := FindGroup(gs0, key(r));
    UpsertOldKeyGroups(gs0, init, key, r, i0);
  }

  /** Adding a row to the group of its key: that group grows by the row,
      and every group still holds exactly its key's rows. */
  lemma UpsertOldKeyGroups<K, R>(gs0: seq<Group<K, R>>, init: seq<R>, key: R -> K, r: R, i0: nat)
    requires Characterizes(gs0, init, key)
    requires i0 < |gs0| && gs0[i0].key == key(r)
    ensures Characterizes(gs0[i0 := gs0[i0].(rows := gs0[i0].rows + [r])], init + [r], key)
  {
    var gs := gs0[i0 := gs0[i0].(rows := gs0[i0].rows + [r])];
    var d0 := Distinct(KeysOf(init, key));
    KeysSnoc(init, r, key);
    DistinctSnoc(KeysOf(init, key), key(r));
    assert d0[i0] == key(r);
    assert Distinct(KeysOf(init + [r], key)) == d0;
    forall i | 0 <= i < |gs|
      ensures gs[i].key == d0[i] && gs[i].rows == Select(init + [r], key, gs[i].key)
    {
      SelectSnoc(init, r, key, gs0[i].key);
      if i != i0 {
        assert gs0[i].key == d0[i] && gs0[i0].key == d0[i0];
      }
    }
  }

  /** One more row adds itself to its own key's selection only. */
  lemma SelectSnoc<K, R>(init: seq<R>, r: R, key: R -> K, k: K)
    ensures Select(init + [r], key, k) == Select(init, key, k) + (if key(r) == k then [r] else [])
  {
    assert (init + [r])[..|init|] == init;
  }

  /** The groups are exactly the distinct keys in first-seen order, and the
      group of key `k` holds exactly the rows with key `k`, in row order. */
  lemma {:induction false} GroupByCharacterized<K, R>(rows: seq<R>, key: R -> K)
    ensures |GroupBy(rows, key)| == |Distinct(KeysOf(rows, key))|
    ensures forall i :: 0 <= i < |GroupBy(rows, key)| ==>
              GroupBy(rows, key)[i].key == Distinct(KeysOf(rows, key))[i]
              && GroupBy(rows, key)[i].rows == Select(rows, key, GroupBy(rows, key)[i].key)
  {
    if rows != [] {
      var init := rows[..|rows| - 1];
      var r := rows[|rows| - 1];
      assert rows == init + [r];
      GroupByCharacterized(init, key);
      var gs0 := GroupBy(init, key);
      if FindGroup(gs0, key(r)) == |gs0| {
        UpsertNewKey(gs0, init, key, r);
      } else {
        UpsertOldKey(gs0, init, key, r);
      }
      assert Characterizes(GroupBy(rows, key), rows, key);
    }
  }

  /** Every group produced by the loop is non-empty and keys never repeat. */
  lemma GroupByWellFormed<K, R>(rows: seq<R>, key: R -> K)
    ensures forall i :: 0 <= i < |GroupBy(rows, key)| ==> |GroupBy(rows, key)[i].rows| > 0
    ensures forall i, j :: 0 <= i < j < |GroupBy(rows, key)| ==>
              GroupBy(rows, key)[i].key != GroupBy(rows, key)[j].key
  {
    GroupByCharacterized(rows, key);
    var gs := GroupBy(rows, key);
    forall i | 0 <= i < |gs| ensures |gs[i].rows| > 0 {
      var d := Distinct(KeysOf(rows, key));
      assert gs[i].key == d[i] && d[i] in KeysOf(rows, key);
      SelectEmpty(rows, key, gs[i].key);
    }
  }
}
