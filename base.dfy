/**
  Shared vocabulary of the churn pipeline model: optional and fallible
  values, the whole-table operations that pandas supplies to every component
  (row filtering, counting, mapping, de-duplication, sorting by one key
  column), and a few facts about exact real division.
 */
module Base {

  /** A value that may be absent; `None` stands for pandas' NaN / NaT / null. */
  datatype Option<T> = None | Some(value: T)

  /** The outcome of an operation that can raise for the whole batch. */
  datatype Result<T, E> = Ok(value: T) | Err(error: E)

  /** Boolean mask filtering (`df[mask]`): keeps the rows satisfying `p`, in order. */
  function Filter<T>(s: seq<T>, p: T -> bool): (r: seq<T>)
    ensures |r| <= |s|
  {
    if s == [] then []
    else if p(s[0]) then [s[0]] + Filter(s[1..], p)
    else Filter(s[1..], p)
  }

  /** The number of rows satisfying `p`, i.e. `mask.sum()`. */
  function CountWhere<T>(s: seq<T>, p: T -> bool): (n: nat)
    ensures n <= |s|
  {
    if s == [] then 0 else (if p(s[0]) then 1 else 0) + CountWhere(s[1..], p)
  }

  lemma {:induction false} FilterAppend<T>(s: seq<T>, t: seq<T>, p: T -> bool)
    ensures Filter(s + t, p) == Filter(s, p) + Filter(t, p)
  {
    if s == [] {
      assert s + t == t;
    } else {
      assert (s + t)[1..] == s[1..] + t;
      FilterAppend(s[1..], t, p);
    }
  }

  lemma {:induction false} FilterCount<T>(s: seq<T>, p: T -> bool)
    ensures |Filter(s, p)| == CountWhere(s, p)
  {
    if s != [] {
      FilterCount(s[1..], p);
    }
  }

  lemma {:induction false} FilterAll<T>(s: seq<T>, p: T -> bool)
    requires forall i :: 0 <= i < |s| ==> p(s[i])
    ensures Filter(s, p) == s
  {
    if s != [] {
      FilterAll(s[1..], p);
    }
  }

  ghost predicate SortedByKey<T>(s: seq<T>, key: T -> int) {
    forall i, j :: 0 <= i < j < |s| ==> key(s[i]) <= key(s[j])
  }

  /** Inserts `x` after every element whose key is not greater, keeping `s` sorted. */
  function InsertByKey<T>(x: T, s: seq<T>, key: T -> int): (r: seq<T>)
    ensures |r| == |s| + 1
    ensures multiset(r) == multiset(s) + multiset{x}
  {
    if s == [] then [x]
    else if key(x) < key(s[0]) then [x] + s
    else
      assert s == [s[0]] + s[1..];
      [s[0]] + InsertByKey(x, s[1..], key)
  }

  lemma {:induction false} InsertSorted<T>(x: T, s: seq<T>, key: T -> int)
    requires SortedByKey(s, key)
    ensures SortedByKey(InsertByKey(x, s, key), key)
    ensures s != [] ==> forall i :: 0 <= i < |s| + 1 ==>
      key(InsertByKey(x, s, key)[i]) >= key(x) || key(InsertByKey(x, s, key)[i]) >= key(s[0])
  {
    var r := InsertByKey(x, s, key);
    if s == [] {
    } else if key(x) < key(s[0]) {
      assert r == [x] + s;
    } else {
      var tail := InsertByKey(x, s[1..], key);
      assert r == [s[0]] + tail;
      InsertSorted(x, s[1..], key);
      assert forall i :: 0 <= i < |tail| ==> key(s[0]) <= key(tail[i]);
      assert forall i :: 1 <= i < |r| ==> r[i] == tail[i - 1];
    }
  }

  /**
    Stable ascending sort of `s` by `key`; rows with equal keys keep their
    input order (each later row is inserted after the earlier equal ones).
   */
  function SortByKey<T>(s: seq<T>, key: T -> int): (r: seq<T>)
    ensures SortedByKey(r, key)
    ensures multiset(r) == multiset(s)
    ensures |r| == |s|
  {
    if s == [] then []
    else
      assert s == s[..|s| - 1] + [s[|s| - 1]];
      var sorted := SortByKey(s[..|s| - 1], key);
      InsertSorted(s[|s| - 1], sorted, key);
      InsertByKey(s[|s| - 1], sorted, key)
  }

  /** Appending one row to the input inserts it into the sorted output. */
  lemma SortByKeySnoc<T>(s: seq<T>, x: T, key: T -> int)
    ensures SortByKey(s + [x], key) == InsertByKey(x, SortByKey(s, key), key)
  {
    assert (s + [x])[..|s + [x]| - 1] == s;
  }

  /** Filtering commutes with inserting into a sorted sequence. */
  lemma {:induction false} FilterInsert<T>(x: T, s: seq<T>, key: T -> int, p: T -> bool)
    requires SortedByKey(s, key)
    ensures SortedByKey(Filter(s, p), key)
    ensures Filter(InsertByKey(x, s, key), p)
         == if p(x) then InsertByKey(x, Filter(s, p), key) else Filter(s, p)
  {
    FilterSorted(s, key, p);
    if s == [] {
    } else if key(x) < key(s[0]) {
      assert ([x] + s)[1..] == s;
      if p(x) {
        var f := Filter(s, p);
        if f != [] {
          assert key(x) < key(f[0]);
        }
      }
    } else {
      var tail := InsertByKey(x, s[1..], key);
      assert ([s[0]] + tail)[1..] == tail;
      FilterInsert(x, s[1..], key, p);
    }
  }

  lemma {:induction false} FilterSorted<T>(s: seq<T>, key: T -> int, p: T -> bool)
    requires SortedByKey(s, key)
    ensures SortedByKey(Filter(s, p), key)
    ensures s != [] ==> forall i :: 0 <= i < |Filter(s, p)| ==> key(s[0]) <= key(Filter(s, p)[i])
  {
    if s != [] {
      FilterSorted(s[1..], key, p);
    }
  }

  /** `idx` picks the rows of `r` out of `s` at strictly increasing positions. */
  ghost predicate Picks<T>(s: seq<T>, r: seq<T>, idx: seq<nat>) {
    && |idx| == |r|
    && (forall k :: 0 <= k < |idx| ==> idx[k] < |s| && s[idx[k]] == r[k])
    && (forall k, l :: 0 <= k < l < |idx| ==> idx[k] < idx[l])
  }

  /** Every position moved one place on. */
  function Shift(idx: seq<nat>): (r: seq<nat>)
    ensures |r| == |idx| && forall k :: 0 <= k < |idx| ==> r[k] == idx[k] + 1
  {
    if idx == [] then [] else [idx[0] + 1] + Shift(idx[1..])
  }

  /** Picks out of `s` are picks out of `[x] + s` one place on, and `x` itself can head them. */
  lemma PicksCons<T>(x: T, s: seq<T>, r: seq<T>, idx: seq<nat>)
    requires Picks(s, r, idx)
    ensures Picks([x] + s, r, Shift(idx))
    ensures Picks([x] + s, [x] + r, [0] + Shift(idx))
  {
    var sh := Shift(idx);
    forall k | 0 <= k < |idx| ensures ([x] + s)[sh[k]] == r[k] {
      assert ([x] + s)[idx[k] + 1] == s[idx[k]];
    }
    var full := [0] + sh;
    forall k | 1 <= k < |full| ensures full[k] == sh[k - 1] && ([x] + s)[full[k]] == ([x] + r)[k] {
      assert ([x] + s)[sh[k - 1]] == r[k - 1];
    }
  }

  /**
    `Filter` keeps the rows satisfying `p` in their original order: its
    result is the rows at strictly increasing positions `idx` of `s`, and
    those positions are exactly the rows satisfying `p`.
   */
  lemma {:induction false} FilterIndices<T>(s: seq<T>, p: T -> bool) returns (idx: seq<nat>)
    ensures Picks(s, Filter(s, p), idx)
    ensures forall i :: 0 <= i < |s| ==> (i in idx <==> p(s[i]))
  {
    if s == [] {
      idx := [];
    } else {
      var rest := FilterIndices(s[1..], p);
      assert s == [s[0]] + s[1..];
      PicksCons(s[0], s[1..], Filter(s[1..], p), rest);
      CoverCons(s[0], s[1..], p, rest);
      idx := if p(s[0]) then [0] + Shift(rest) else Shift(rest);
    }
  }

  /** Positions of the rows satisfying `p` in `s`, moved one place on, with 0 added when `x` satisfies it. */
  lemma CoverCons<T>(x: T, s: seq<T>, p: T -> bool, rest: seq<nat>)
    requires forall i :: 0 <= i < |s| ==> (i in rest <==> p(s[i]))
    ensures var idx := if p(x) then [0] + Shift(rest) else Shift(rest);
      forall i :: 0 <= i < |s| + 1 ==> (i in idx <==> p(([x] + s)[i]))
  {
    var shifted := Shift(rest);
    forall i | 1 <= i < |s| + 1 ensures i in shifted <==> p(([x] + s)[i]) {
      ShiftMember(rest, i - 1);
      assert ([x] + s)[i] == s[i - 1];
    }
    ShiftMember(rest, -1);
  }

  /** `n` is a position of `idx` exactly when `n + 1` is one of `Shift(idx)`. */
  lemma ShiftMember(idx: seq<nat>, n: int)
    ensures n in idx <==> n + 1 in Shift(idx)
  {
    var sh := Shift(idx);
    if n + 1 in sh {
      var k :| 0 <= k < |sh| && sh[k] == n + 1;
      assert idx[k] == n;
    }
    if n in idx {
      var k :| 0 <= k < |idx| && idx[k] == n;
      assert sh[k] == n + 1;
    }
  }

  lemma {:induction false} FilterIn<T>(s: seq<T>, p: T -> bool, x: T)
    ensures x in Filter(s, p) <==> x in s && p(x)
  {
    if s != [] {
      FilterIn(s[1..], p, x);
    }
  }

  /** How often each value survives a filter: as often as in the input when it passes, never otherwise. */
  lemma {:induction false} FilterMultiplicity<T>(s: seq<T>, p: T -> bool, x: T)
    ensures multiset(Filter(s, p))[x] == if p(x) then multiset(s)[x] else 0
  {
    if s != [] {
      FilterMultiplicity(s[1..], p, x);
      assert s == [s[0]] + s[1..];
    }
  }

  predicate NoDuplicates<T(==)>(s: seq<T>) {
    forall i, j :: 0 <= i < j < |s| ==> s[i] != s[j]
  }

  /** `Series.unique()`: the distinct values of `s` in order of first appearance. */
  function Distinct<T(==)>(s: seq<T>): (r: seq<T>)
    ensures NoDuplicates(r)
    ensures forall i :: 0 <= i < |r| ==> r[i] in s
    ensures forall i :: 0 <= i < |s| ==> s[i] in r
    ensures |r| <= |s|
  {
    if s == [] then []
    else
      var d := Distinct(s[..|s| - 1]);
      assert forall i :: 0 <= i < |s| - 1 ==> s[i] == s[..|s| - 1][i];
      if s[|s| - 1] in d then d else d + [s[|s| - 1]]
  }

  lemma {:induction false} DistinctIn<T>(s: seq<T>, x: T)
    ensures x in Distinct(s) <==> x in s
  {
    if x in s {
      var i :| 0 <= i < |s| && s[i] == x;
    }
  }

  /** A permutation of a sequence without duplicates has none either. */
  lemma NoDuplicatesPermutation<T>(a: seq<T>, b: seq<T>)
    requires multiset(a) == multiset(b) && NoDuplicates(a)
    ensures NoDuplicates(b)
  {
    forall x ensures multiset(a)[x] <= 1 {
      NoDuplicatesMultiplicity(a, x);
    }
    forall i, j | 0 <= i < j < |b| ensures b[i] != b[j] {
      RepeatedMultiplicity(b, i, j);
    }
  }

  lemma RepeatedMultiplicity<T>(b: seq<T>, i: nat, j: nat)
    requires i < j < |b|
    ensures b[i] == b[j] ==> multiset(b)[b[i]] >= 2
  {
    assert b == b[..j] + [b[j]] + b[j + 1..];
    assert b[i] in b[..j];
  }

  lemma {:induction false} NoDuplicatesMultiplicity<T>(s: seq<T>, x: T)
    requires NoDuplicates(s)
    ensures multiset(s)[x] <= 1
  {
    if s != [] {
      assert s == [s[0]] + s[1..];
      NoDuplicatesMultiplicity(s[1..], x);
      if x == s[0] {
        assert x !in s[1..];
      }
    }
  }

  /** Element-wise application: a column computed from another (`s.map(f)`). */
  function Map<T, U>(s: seq<T>, f: T -> U): (r: seq<U>)
    ensures |r| == |s|
    ensures forall i :: 0 <= i < |s| ==> r[i] == f(s[i])
  {
    if s == [] then [] else [f(s[0])] + Map(s[1..], f)
  }

  /** `dropna()`: the present values, in order. */
  function Present<T>(s: seq<Option<T>>): (r: seq<T>)
    ensures |r| <= |s|
    ensures forall i :: 0 <= i < |s| && s[i].Some? ==> s[i].value in r
    ensures forall i :: 0 <= i < |r| ==> Some(r[i]) in s
  {
    if s == [] then []
    else if s[0].Some? then [s[0].value] + Present(s[1..])
    else Present(s[1..])
  }

  /** `max()` of an integer column; 0 stands in for the empty column, which callers rule out. */
  function MaxOf(xs: seq<int>): (m: int)
    ensures forall i :: 0 <= i < |xs| ==> xs[i] <= m
    ensures xs != [] ==> m in xs
  {
    if xs == [] then 0
    else if |xs| == 1 then xs[0]
    else
      var rest := MaxOf(xs[1..]);
      if xs[0] >= rest then xs[0] else rest
  }

  /** `min()` of an integer column; 0 stands in for the empty column, which callers rule out. */
  function MinOf(xs: seq<int>): (m: int)
    ensures forall i :: 0 <= i < |xs| ==> m <= xs[i]
    ensures xs != [] ==> m in xs
  {
    if xs == [] then 0
    else if |xs| == 1 then xs[0]
    else
      var rest := MinOf(xs[1..]);
      if xs[0] <= rest then xs[0] else rest
  }

  function SumOf(xs: seq<int>): int {
    if xs == [] then 0 else xs[0] + SumOf(xs[1..])
  }

  function SumReal(xs: seq<real>): real {
    if xs == [] then 0.0 else xs[0] + SumReal(xs[1..])
  }

  function Abs(x: real): (r: real)
    ensures r >= 0.0 && (r == x || r == -x)
  {
    if x < 0.0 then -x else x
  }

  lemma DivMul(a: real, b: real)
    requires b != 0.0
    ensures (a / b) * b == a
  {
  }

  /** A product with a positive factor has the sign of the other factor. */
  lemma PositiveFactor(x: real, y: real)
    requires y > 0.0
    ensures x * y >= 0.0 ==> x >= 0.0
  {
    if x < 0.0 {
      assert x * y < 0.0 * y;
    }
  }

  /** A part over a positive whole that is at least as large lies in `[0, 1]`. */
  lemma FractionBounds(part: real, whole: real)
    requires 0.0 <= part <= whole && whole > 0.0
    ensures 0.0 <= part / whole <= 1.0
  {
    var r := part / whole;
    DivMul(part, whole);
    assert (1.0 - r) * whole == whole - part;
    PositiveFactor(r, whole);
    PositiveFactor(1.0 - r, whole);
  }

  /** The present results of `f` over `keys`, in key order: a loop that appends each produced row. */
  function Collect<K, V>(keys: seq<K>, f: K -> Option<V>): seq<V> {
    if keys == [] then []
    else
      var rows := Collect(keys[..|keys| - 1], f);
      var last := f(keys[|keys| - 1]);
      if last.Some? then rows + [last.value] else rows
  }

  /** Collecting over one more key of a prefix appends that key's row, if it has one. */
  lemma CollectStep<K, V>(keys: seq<K>, i: int, f: K -> Option<V>, row: Option<V>)
    requires 0 <= i < |keys| && f(keys[i]) == row
    ensures Collect(keys[..i + 1], f) == if row.Some? then Collect(keys[..i], f) + [row.value] else Collect(keys[..i], f)
  {
    assert keys[..i + 1][..i] == keys[..i];
  }

  /**
    When each produced row carries its own key, collecting over distinct keys
    yields exactly the produced rows, each once, and no two for one key.
   */
  lemma {:induction false} CollectSpec<K, V>(keys: seq<K>, f: K -> Option<V>, keyOf: V -> K)
    requires NoDuplicates(keys)
    requires forall i :: 0 <= i < |keys| && f(keys[i]).Some? ==> keyOf(f(keys[i]).value) == keys[i]
    ensures var rows := Collect(keys, f);
      && (forall i :: 0 <= i < |rows| ==> keyOf(rows[i]) in keys && f(keyOf(rows[i])) == Some(rows[i]))
      && (forall k :: 0 <= k < |keys| && f(keys[k]).Some? ==> f(keys[k]).value in rows)
      && (forall i, j :: 0 <= i < j < |rows| ==> keyOf(rows[i]) != keyOf(rows[j]))
  {
    if keys != [] {
      var init := keys[..|keys| - 1];
      var last := keys[|keys| - 1];
      assert forall k :: 0 <= k < |init| ==> init[k] == keys[k];
      CollectSpec(init, f, keyOf);
      var prev := Collect(init, f);
      assert last !in init;
      var r := f(last);
      if r.Some? {
        var rows := prev + [r.value];
        assert forall i :: 0 <= i < |prev| ==> rows[i] == prev[i];
      }
    }
  }
}
