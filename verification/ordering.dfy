/** Ordinal string order and a stable sort.

    A Dafny `char` is a Unicode scalar value, so `Le` compares strings code
    point by code point.  JavaScript's comparator-less `Array.prototype.sort`
    compares UTF-16 code units, which agrees with code-point order below
    U+10000.  `localeCompare` is an ICU collation and is only approximated
    by this order.  Both sorts are stable in the engines the generator runs
    on, which the insertion sort below also is. */
module Ordering {
  import opened Common

  /** `a` sorts before or equal to `b` in code-point order. */
  predicate Le(a: string, b: string)
    decreases |a|
  {
    a == [] || (b != [] && (a[0] < b[0] || (a[0] == b[0] && Le(a[1..], b[1..]))))
  }

  lemma {:induction false} LeReflexive(a: string)
    ensures Le(a, a)
    decreases |a|
  {
    if a != [] {
      LeReflexive(a[1..]);
    }
  }

  lemma {:induction false} LeTotal(a: string, b: string)
    ensures Le(a, b) || Le(b, a)
    decreases |a|
  {
    if a != [] && b != [] && a[0] == b[0] {
      LeTotal(a[1..], b[1..]);
    }
  }

  lemma {:induction false} LeTransitive(a: string, b: string, c: string)
    requires Le(a, b) && Le(b, c)
    ensures Le(a, c)
    decreases |a|
  {
    if a != [] && a[0] == b[0] && b[0] == c[0] {
      LeTransitive(a[1..], b[1..], c[1..]);
    }
  }

  lemma {:induction false} LeAntisymmetric(a: string, b: string)
    requires Le(a, b) && Le(b, a)
    ensures a == b
    decreases |a|
  {
    if a != [] {
      LeAntisymmetric(a[1..], b[1..]);
      assert a == [a[0]] + a[1..];
      assert b == [b[0]] + b[1..];
    }
  }

  ghost predicate SortedBy<T>(xs: seq<T>, key: T -> string)
  {
    forall i, j :: 0 <= i < j < |xs| ==> Le(key(xs[i]), key(xs[j]))
  }

  /** Inserts `x` after every element whose key is not greater than its
      own, so that equal keys keep their arrival order. */
  function Insert<T>(ys: seq<T>, x: T, key: T -> string): (r: seq<T>)
    requires SortedBy(ys, key)
    ensures multiset(r) == multiset(ys) + multiset{x}
    ensures |r| == |ys| + 1
    ensures SortedBy(r, key)
  {
    if ys == [] then [x]
    else if !Le(key(ys[0]), key(x)) then
      InsertFrontSorted(ys, x, key);
      [x] + ys
    else
      var rest := Insert(ys[1..], x, key);
      InsertBehindSorted(ys, x, rest, key);
      assert ys == [ys[0]] + ys[1..];
      [ys[0]] + rest
  }

  /** An element whose key sorts strictly before the head's goes first. */
  lemma InsertFrontSorted<T>(ys: seq<T>, x: T, key: T -> string)
    requires SortedBy(ys, key) && ys != [] && !Le(key(ys[0]), key(x))
    ensures SortedBy([x] + ys, key)
  {
    LeTotal(key(ys[0]), key(x));
    forall j | 0 <= j < |ys| ensures Le(key(x), key(ys[j])) {
      if j == 0 {
      } else {
        LeTransitive(key(x), key(ys[0]), key(ys[j]));
      }
    }
    var r := [x] + ys;
    forall i, j | 0 <= i < j < |r| ensures Le(key(r[i]), key(r[j])) {
      if i == 0 {
        assert r[j] == ys[j - 1];
      } else {
        assert r[i] == ys[i - 1] && r[j] == ys[j - 1];
      }
    }
  }

  /** The head stays in front of the rest with the element inserted, when
      the element does not sort before it. */
  lemma InsertBehindSorted<T>(ys: seq<T>, x: T, rest: seq<T>, key: T -> string)
    requires SortedBy(ys, key) && ys != [] && Le(key(ys[0]), key(x))
    requires SortedBy(rest, key) && multiset(rest) == multiset(ys[1..]) + multiset{x}
    ensures SortedBy([ys[0]] + rest, key)
  {
    forall v | v in rest ensures Le(key(ys[0]), key(v)) {
      assert v in multiset(rest);
      if v != x {
        assert v in multiset(ys[1..]);
        var j :| 0 <= j < |ys[1..]| && ys[1..][j] == v;
        assert ys[j + 1] == v;
      }
    }
    var r := [ys[0]] + rest;
    forall i, j | 0 <= i < j < |r| ensures Le(key(r[i]), key(r[j])) {
      if i == 0 {
        assert r[j] == rest[j - 1] && r[j] in rest;
      } else {
        assert r[i] == rest[i - 1] && r[j] == rest[j - 1];
      }
    }
  }


  /** A stable sort of `xs` by `key`. */
  function SortBy<T>(xs: seq<T>, key: T -> string): (r: seq<T>)
    ensures multiset(r) == multiset(xs)
    ensures |r| == |xs|
    ensures SortedBy(r, key)
  {
    if xs == [] then []
    else
      assert xs == xs[..|xs| - 1] + [xs[|xs| - 1]];
      Insert(SortBy(xs[..|xs| - 1], key), xs[|xs| - 1], key)
  }

  /** The elements of `xs` whose key is `k`, in their order in `xs`. */
  function WithKey<T>(xs: seq<T>, key: T -> string, k: string): seq<T>
  {
    if xs == [] then [] else (if key(xs[0]) == k then [xs[0]] else []) + WithKey(xs[1..], key, k)
  }

  lemma {:induction false} WithKeyAppend<T>(a: seq<T>, b: seq<T>, key: T -> string, k: string)
    ensures WithKey(a + b, key, k) == WithKey(a, key, k) + WithKey(b, key, k)
    decreases |a|
  {
    if a != [] {
      assert (a + b)[1..] == a[1..] + b;
      WithKeyAppend(a[1..], b, key, k);
      ConcatAssoc(if key(a[0]) == k then [a[0]] else [], WithKey(a[1..], key, k), WithKey(b, key, k));
    } else {
      assert a + b == b;
    }
  }

  lemma {:induction false} WithKeyNone<T>(xs: seq<T>, key: T -> string, k: string)
    requires forall i :: 0 <= i < |xs| ==> key(xs[i]) != k
    ensures WithKey(xs, key, k) == []
    decreases |xs|
  {
    if xs != [] {
      WithKeyNone(xs[1..], key, k);
    }
  }

  /** No element of a sorted list whose head sorts after `x` shares the
      key of `x`. */
  lemma NoneAfterGreater<T>(ys: seq<T>, x: T, key: T -> string)
    requires SortedBy(ys, key) && ys != [] && !Le(key(ys[0]), key(x))
    ensures WithKey(ys, key, key(x)) == []
  {
    LeReflexive(key(x));
    forall i | 0 <= i < |ys| ensures key(ys[i]) != key(x) {
      if i > 0 {
        assert Le(key(ys[0]), key(ys[i]));
      }
    }
    WithKeyNone(ys, key, key(x));
  }

  /** Inserting keeps the arrival order among equal keys: `x` lands after
      every element that shares its key. */
  lemma {:induction false} InsertStable<T>(ys: seq<T>, x: T, key: T -> string, k: string)
    requires SortedBy(ys, key)
    ensures WithKey(Insert(ys, x, key), key, k) == WithKey(ys, key, k) + (if key(x) == k then [x] else [])
    decreases |ys|
  {
    var tail := if key(x) == k then [x] else [];
    if ys == [] {
    } else if !Le(key(ys[0]), key(x)) {
      assert ([x] + ys)[1..] == ys;
      if key(x) == k {
        NoneAfterGreater(ys, x, key);
      }
    } else {
      var rest := Insert(ys[1..], x, key);
      var head := if key(ys[0]) == k then [ys[0]] else [];
      assert Insert(ys, x, key) == [ys[0]] + rest;
      assert ([ys[0]] + rest)[1..] == rest;
      assert WithKey(Insert(ys, x, key), key, k) == head + WithKey(rest, key, k);
      InsertStable(ys[1..], x, key, k);
      assert WithKey(ys, key, k) == head + WithKey(ys[1..], key, k);
      ConcatAssoc(head, WithKey(ys[1..], key, k), tail);
    }
  }

  /** The sort is stable: the elements sharing a key keep their order. */
  lemma SortByStable<T>(xs: seq<T>, key: T -> string)
    ensures forall k :: WithKey(SortBy(xs, key), key, k) == WithKey(xs, key, k)
  {
    forall k ensures WithKey(SortBy(xs, key), key, k) == WithKey(xs, key, k) {
      SortByStableAt(xs, key, k);
    }
  }

  lemma {:induction false} SortByStableAt<T>(xs: seq<T>, key: T -> string, k: string)
    ensures WithKey(SortBy(xs, key), key, k) == WithKey(xs, key, k)
    decreases |xs|
  {
    if xs != [] {
      var init := xs[..|xs| - 1];
      var x := xs[|xs| - 1];
      var sorted := SortBy(init, key);
      assert SortBy(xs, key) == Insert(sorted, x, key);
      SortByStableAt(init, key, k);
      InsertStable(sorted, x, key, k);
      SplitLast(xs);
      WithKeyAppend(init, [x], key, k);
      assert [x][1..] == [];
    }
  }

  lemma SplitLast<T>(xs: seq<T>)
    requires xs != []
    ensures xs == xs[..|xs| - 1] + [xs[|xs| - 1]]
  {
  }

  /** Keys that tell the elements of `xs` apart. */
  ghost predicate KeysDistinct<T>(xs: seq<T>, key: T -> string)
  {
    forall i, j :: 0 <= i < |xs| && 0 <= j < |xs| && key(xs[i]) == key(xs[j]) ==> xs[i] == xs[j]
  }

  lemma MultisetTail<T>(a: seq<T>, b: seq<T>)
    requires a != [] && b != [] && a[0] == b[0] && multiset(a) == multiset(b)
    ensures multiset(a[1..]) == multiset(b[1..])
  {
    assert a == [a[0]] + a[1..];
    assert b == [b[0]] + b[1..];
    assert multiset(a) == multiset{a[0]} + multiset(a[1..]);
    assert multiset(b) == multiset{a[0]} + multiset(b[1..]);
    assert forall x :: multiset(a[1..])[x] == multiset(a)[x] - multiset{a[0]}[x];
    assert forall x :: multiset(b[1..])[x] == multiset(b)[x] - multiset{a[0]}[x];
  }

  /** With distinct keys there is only one sorted arrangement: the sorted
      result depends on which elements there are, not on their order. */
  lemma {:induction false} SortedUnique<T>(a: seq<T>, b: seq<T>, key: T -> string)
    requires SortedBy(a, key) && SortedBy(b, key)
    requires multiset(a) == multiset(b)
    requires KeysDistinct(a, key)
    ensures a == b
    decreases |a|
  {
    assert |a| == |multiset(a)| == |b|;
    if a != [] {
      assert a[0] in multiset(b) && b[0] in multiset(a);
      var k :| 0 <= k < |b| && b[k] == a[0];
      var j :| 0 <= j < |a| && a[j] == b[0];
      LeReflexive(key(b[0]));
      LeReflexive(key(a[0]));
      assert Le(key(b[0]), key(b[k]));
      assert Le(key(a[0]), key(a[j]));
      LeAntisymmetric(key(a[0]), key(b[0]));
      assert a[0] == b[0];
      assert a == [a[0]] + a[1..];
      assert b == [b[0]] + b[1..];
      MultisetTail(a, b);
      SortedUnique(a[1..], b[1..], key);
    }
  }

  function Identity(s: string): string { s }

  /** `strings.sort()`. */
  function SortStrings(xs: seq<string>): (r: seq<string>)
    ensures multiset(r) == multiset(xs)
    ensures forall i, j :: 0 <= i < j < |r| ==> Le(r[i], r[j])
  {
    var r := SortBy(xs, Identity);
    assert forall i, j :: 0 <= i < j < |r| ==> Le(Identity(r[i]), Identity(r[j]));
    r
  }
}
