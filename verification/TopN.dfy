/** Selecting the best N of a list with qsort, which is neither stable nor
    deterministic on equal keys: all that is known of its result is that it is a
    permutation in the comparator's order. */
module TopN {
  import opened Sequences
  import opened Text

  /** The order of a comparator that puts higher scores first. */
  predicate Descending<T(!new)>(s: seq<T>, score: T -> int) {
    forall i, j :: 0 <= i < j < |s| ==> score(s[i]) >= score(s[j])
  }

  /** What qsort may leave behind. */
  predicate IsSorted<T(!new,==)>(all: seq<T>, sorted: seq<T>, score: T -> int) {
    multiset(sorted) == multiset(all) && Descending(sorted, score)
  }

  function First<T>(x: T, ok: T -> bool): seq<T> {
    if ok(x) then [x] else []
  }

  function Filter<T>(s: seq<T>, ok: T -> bool): (r: seq<T>)
    ensures |r| <= |s|
  {
    if s == [] then [] else First(s[0], ok) + Filter(s[1..], ok)
  }

  /** The best of a list: kept entries qualify, come from the list and are in order;
      as many are kept as qualify and fit; and no qualifying entry that was left
      out beats one that was kept. */
  ghost predicate IsTop<T(!new)>(all: seq<T>, top: seq<T>, n: nat, score: T -> int, ok: T -> bool) {
    && Descending(top, score)
    && multiset(top) <= multiset(all)
    && (forall y :: y in top ==> ok(y))
    && |top| == Min(n, |Filter(all, ok)|)
    && (forall x, y :: x in multiset(all) - multiset(top) && ok(x) && y in top ==> score(y) >= score(x))
  }

  lemma CountConcat<T(!new)>(a: seq<T>, b: seq<T>, x: T)
    ensures multiset(a + b)[x] == multiset(a)[x] + multiset(b)[x]
  {
  }

  lemma {:induction false} FilterCounts<T(!new)>(s: seq<T>, ok: T -> bool, x: T)
    ensures multiset(Filter(s, ok))[x] == if ok(x) then multiset(s)[x] else 0
  {
    if s != [] {
      FilterCounts(s[1..], ok, x);
      Split(s);
      CountConcat([s[0]], s[1..], x);
      CountConcat(First(s[0], ok), Filter(s[1..], ok), x);
    }
  }

  /** How many entries qualify does not depend on their order. */
  lemma FilterPermutation<T(!new)>(a: seq<T>, b: seq<T>, ok: T -> bool)
    requires multiset(a) == multiset(b)
    ensures multiset(Filter(a, ok)) == multiset(Filter(b, ok))
    ensures |Filter(a, ok)| == |Filter(b, ok)|
  {
    forall x: T
      ensures multiset(Filter(a, ok))[x] == multiset(Filter(b, ok))[x]
    {
      FilterCounts(a, ok, x);
      FilterCounts(b, ok, x);
    }
    assert multiset(Filter(a, ok)) == multiset(Filter(b, ok));
    assert |Filter(a, ok)| == |multiset(Filter(a, ok))| == |multiset(Filter(b, ok))|;
  }

  lemma {:induction false} FilterDescending<T(!new)>(s: seq<T>, score: T -> int, ok: T -> bool)
    requires Descending(s, score)
    ensures Descending(Filter(s, ok), score)
    ensures forall y :: y in Filter(s, ok) ==> ok(y) && y in s
  {
    if s != [] {
      FilterDescending(s[1..], score, ok);
      forall y | y in Filter(s[1..], ok)
        ensures score(s[0]) >= score(y)
      {
        assert y in s[1..];
      }
    }
  }

  lemma {:induction false} FilterAppend<T>(s: seq<T>, x: T, ok: T -> bool)
    ensures Filter(s + [x], ok) == Filter(s, ok) + First(x, ok)
  {
    if s == [] {
      assert s + [x] == [x] && [x][1..] == [];
    } else {
      assert (s + [x])[1..] == s[1..] + [x];
      FilterAppend(s[1..], x, ok);
    }
  }

  lemma FilterWithin<T(!new)>(s: seq<T>, ok: T -> bool, k: nat)
    requires k <= |Filter(s, ok)|
    ensures multiset(Filter(s, ok)[..k]) <= multiset(s)
  {
    var f := Filter(s, ok);
    assert f == f[..k] + f[k..];
    assert multiset(f) == multiset(f[..k]) + multiset(f[k..]);
    forall x: T
      ensures multiset(f[..k])[x] <= multiset(s)[x]
    {
      FilterCounts(s, ok, x);
    }
  }

  /** A qualifying entry left out of the first k is one of the later ones. */
  lemma LeftOutIsLater<T(!new)>(s: seq<T>, ok: T -> bool, k: nat, x: T)
    requires k <= |Filter(s, ok)| && ok(x)
    requires x in multiset(s) - multiset(Filter(s, ok)[..k])
    ensures x in Filter(s, ok)[k..]
  {
    var f := Filter(s, ok);
    FilterCounts(s, ok, x);
    assert f == f[..k] + f[k..];
    assert multiset(f) == multiset(f[..k]) + multiset(f[k..]);
    assert multiset(f[k..])[x] > 0;
  }

  /** The first n qualifying entries of a sorted copy are the best n. */
  lemma FirstAreTop<T(!new)>(all: seq<T>, sorted: seq<T>, n: nat, score: T -> int, ok: T -> bool)
    requires IsSorted(all, sorted, score)
    ensures IsTop(all, Filter(sorted, ok)[..Min(n, |Filter(sorted, ok)|)], n, score, ok)
  {
    hide Filter;
    var f := Filter(sorted, ok);
    var k := Min(n, |f|);
    FilterDescending(sorted, score, ok);
    FilterPermutation(all, sorted, ok);
    FilterWithin(sorted, ok, k);
    forall x, y | x in multiset(all) - multiset(f[..k]) && ok(x) && y in f[..k]
      ensures score(y) >= score(x)
    {
      LeftOutIsLater(sorted, ok, k, x);
      var i :| 0 <= i < k && f[..k][i] == y;
      var j :| 0 <= j < |f[k..]| && f[k..][j] == x;
      assert f[i] == y && f[k + j] == x;
    }
  }

  /** What a best-of list means for single entries: in order, qualifying, and an entry
      that qualifies is left out only by a full list of entries as good. */
  lemma TopMeans<T(!new)>(all: seq<T>, top: seq<T>, n: nat, score: T -> int, ok: T -> bool)
    requires IsTop(all, top, n, score, ok)
    ensures |top| <= n
    ensures forall i, j :: 0 <= i < j < |top| ==> score(top[i]) >= score(top[j])
    ensures forall y :: y in top ==> ok(y) && y in all
    ensures forall x :: x in all && ok(x) && x !in top ==> |top| == n
    ensures forall x, y :: x in all && ok(x) && x !in top && y in top ==> score(y) >= score(x)
  {
    hide Filter;
    forall y | y in top
      ensures y in all
    {
      assert y in multiset(top);
      assert y in multiset(all);
    }
    forall x | x in all && ok(x) && x !in top
      ensures |top| == n && x in multiset(all) - multiset(top)
    {
      assert x in multiset(all) && x !in multiset(top);
      if |top| < n {
        TopIsAll(all, top, n, score, ok, x);
      }
    }
  }

  lemma TopIsAll<T(!new)>(all: seq<T>, top: seq<T>, n: nat, score: T -> int, ok: T -> bool, x: T)
    requires IsTop(all, top, n, score, ok) && |top| < n && x in all && ok(x)
    ensures x in top
  {
    var f := Filter(all, ok);
    forall y: T
      ensures multiset(top)[y] <= multiset(f)[y]
    {
      FilterCounts(all, ok, y);
      assert y in multiset(top) ==> y in top;
    }
    assert multiset(top) <= multiset(f);
    SameSize(multiset(top), multiset(f));
    FilterCounts(all, ok, x);
    assert x in multiset(all);
    assert x in multiset(top);
  }

  lemma SameSize<T>(a: multiset<T>, b: multiset<T>)
    requires a <= b && |a| == |b|
    ensures a == b
  {
    assert b == a + (b - a);
    assert |b - a| == 0;
  }

  /** The selection loops: walk the sorted list, keep what qualifies, stop when the
      result array is full. */
  method TakeFirst<T>(sorted: seq<T>, n: nat, ok: T -> bool) returns (top: seq<T>)
    ensures top == Filter(sorted, ok)[..Min(n, |Filter(sorted, ok)|)]
  {
    top := [];
    var i := 0;
    while i < |sorted| && |top| < n
      invariant 0 <= i <= |sorted|
      invariant top == Filter(sorted[..i], ok) && |top| <= n
    {
      assert sorted[..i + 1] == sorted[..i] + [sorted[i]];
      FilterAppend(sorted[..i], sorted[i], ok);
      if ok(sorted[i]) {
        top := top + [sorted[i]];
      }
      i := i + 1;
    }
    assert sorted == sorted[..i] + sorted[i..];
    FilterConcat(sorted[..i], sorted[i..], ok);
  }

  lemma {:induction false} FilterConcat<T>(a: seq<T>, b: seq<T>, ok: T -> bool)
    ensures Filter(a + b, ok) == Filter(a, ok) + Filter(b, ok)
  {
    if a == [] {
      assert a + b == b;
    } else {
      assert (a + b)[0] == a[0] && (a + b)[1..] == a[1..] + b;
      FilterConcat(a[1..], b, ok);
      Assoc(First(a[0], ok), Filter(a[1..], ok), Filter(b, ok));
    }
  }

  function InsertSorted<T>(x: T, s: seq<T>, score: T -> int): seq<T> {
    if s == [] || score(x) >= score(s[0]) then [x] + s else [s[0]] + InsertSorted(x, s[1..], score)
  }

  lemma {:induction false} InsertSortedKeeps<T(!new)>(x: T, s: seq<T>, score: T -> int)
    ensures multiset(InsertSorted(x, s, score)) == multiset([x] + s)
  {
    if s != [] && score(x) < score(s[0]) {
      InsertSortedKeeps(x, s[1..], score);
      assert s == [s[0]] + s[1..];
    }
  }

  lemma {:induction false} InsertSortedIs<T(!new)>(x: T, s: seq<T>, score: T -> int)
    requires Descending(s, score)
    ensures Descending(InsertSorted(x, s, score), score)
  {
    if s != [] && score(x) < score(s[0]) {
      InsertSortedIs(x, s[1..], score);
      InsertSortedKeeps(x, s[1..], score);
      var r := InsertSorted(x, s[1..], score);
      forall y | y in r
        ensures score(s[0]) >= score(y)
      {
        assert y in multiset(r);
        assert y in [x] + s[1..];
      }
    }
  }

  /** qsort has a result to leave. */
  lemma {:induction false} SortExists<T(!new)>(all: seq<T>, score: T -> int) returns (sorted: seq<T>)
    ensures IsSorted(all, sorted, score)
  {
    if all == [] {
      sorted := [];
    } else {
      var s := SortExists(all[1..], score);
      InsertSortedIs(all[0], s, score);
      InsertSortedKeeps(all[0], s, score);
      sorted := InsertSorted(all[0], s, score);
      assert all == [all[0]] + all[1..];
      assert multiset([all[0]] + s) == multiset(all);
    }
  }

  /** qsort and the loop after it, whatever order qsort chose among equals. */
  method SelectTop<T(!new,==)>(all: seq<T>, n: nat, score: T -> int, ok: T -> bool) returns (top: seq<T>)
    ensures IsTop(all, top, n, score, ok)
  {
    ghost var someOrder := SortExists(all, score);
    var sorted :| IsSorted(all, sorted, score);
    top := TakeFirst(sorted, n, ok);
    FirstAreTop(all, sorted, n, score, ok);
  }
}
