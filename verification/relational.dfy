/**
 * Row-level meaning of the query clauses used by the repository: WHERE
 * (Filter), SELECT projection (Map), ORDER BY ... DESC (SortDesc) and
 * OFFSET/LIMIT (Window), over tables given as sequences of rows.
 */
module Relational {

  function Min(a: int, b: int): int { if a <= b then a else b }

  function Max(a: int, b: int): int { if a >= b then a else b }

  /** The rows of `s` that satisfy `p`, in their original order. */
  function Filter<T(!new)>(s: seq<T>, p: T -> bool): (r: seq<T>)
    ensures |r| <= |s|
    ensures forall x {:trigger x in r} :: x in r <==> x in s && p(x)
    decreases |s|
  {
    if s == [] then []
    else
      assert forall x :: x in s <==> x == s[0] || x in s[1..];
      if p(s[0]) then [s[0]] + Filter(s[1..], p) else Filter(s[1..], p)
  }

  /** The projection of every row of `s` through `f`. */
  function Map<T, U>(s: seq<T>, f: T -> U): (r: seq<U>)
    ensures |r| == |s|
    ensures forall i :: 0 <= i < |s| ==> r[i] == f(s[i])
  {
    if s == [] then [] else [f(s[0])] + Map(s[1..], f)
  }

  /** No key occurs twice in `s`. */
  predicate DistinctBy<T>(s: seq<T>, key: T -> int) {
    forall i, j :: 0 <= i < j < |s| ==> key(s[i]) != key(s[j])
  }

  /** Keys do not increase from left to right. */
  predicate SortedDesc<T>(s: seq<T>, key: T -> int) {
    forall i, j :: 0 <= i < j < |s| ==> key(s[i]) >= key(s[j])
  }

  /** Filtering keeps a key unique, since it only drops rows. */
  lemma {:induction false} FilterKeepsDistinct<T(!new)>(s: seq<T>, p: T -> bool, key: T -> int)
    requires DistinctBy(s, key)
    ensures DistinctBy(Filter(s, p), key)
  {
    if s != [] {
      var t := Filter(s[1..], p);
      FilterKeepsDistinct(s[1..], p, key);
      if p(s[0]) {
        forall j | 0 <= j < |t| ensures key(s[0]) != key(t[j]) {
          assert t[j] in t;
          var k :| 0 <= k < |s[1..]| && s[1..][k] == t[j];
          assert s[k + 1] == t[j];
        }
        var r := [s[0]] + t;
        assert Filter(s, p) == r;
        forall i, j | 0 <= i < j < |r| ensures key(r[i]) != key(r[j]) {
          if i > 0 { assert r[i] == t[i - 1] && r[j] == t[j - 1]; }
        }
      }
    }
  }

  /** A WHERE clause keeps each satisfying row as often as it occurs, and no other row. */
  lemma {:induction false} FilterMultiplicity<T(!new)>(s: seq<T>, p: T -> bool)
    ensures forall x :: multiset(Filter(s, p))[x] == if p(x) then multiset(s)[x] else 0
  {
    if s != [] {
      FilterMultiplicity(s[1..], p);
      assert s == [s[0]] + s[1..];
      assert multiset(s) == multiset{s[0]} + multiset(s[1..]);
    }
  }

  /** A sequence in which no row repeats has as many distinct rows as positions. */
  lemma {:induction false} DistinctCardinality<T>(s: seq<T>)
    requires forall i, j :: 0 <= i < j < |s| ==> s[i] != s[j]
    ensures |set x | x in s| == |s|
  {
    if s != [] {
      DistinctCardinality(s[1..]);
      assert (set x | x in s) == {s[0]} + (set x | x in s[1..]);
      assert s[0] !in s[1..] by {
        forall k | 0 <= k < |s[1..]| ensures s[1..][k] != s[0] {
          assert s[1..][k] == s[k + 1];
        }
      }
    }
  }

  /** Filtering rows with distinct keys keeps as many rows as there are distinct satisfying rows. */
  lemma FilterCardinality<T(!new)>(s: seq<T>, p: T -> bool, key: T -> int, kept: set<T>)
    requires DistinctBy(s, key)
    requires forall x :: x in kept <==> x in s && p(x)
    ensures |Filter(s, p)| == |kept|
  {
    var r := Filter(s, p);
    FilterKeepsDistinct(s, p, key);
    forall i, j | 0 <= i < j < |r| ensures r[i] != r[j] {
      assert key(r[i]) != key(r[j]);
    }
    DistinctCardinality(r);
    assert (set x | x in r) == kept;
  }

  /** Filtering a table with a row in front: the row is kept iff it satisfies the condition. */
  lemma FilterCons<T(!new)>(x: T, s: seq<T>, p: T -> bool)
    ensures Filter([x] + s, p) == if p(x) then [x] + Filter(s, p) else Filter(s, p)
  {
    assert ([x] + s)[1..] == s;
  }

  /** One row in front of a table whose projection filters like the table does keeps it so. */
  lemma FilterMapStep<T(!new), U(!new)>(s: seq<T>, f: T -> U, p: U -> bool, q: T -> bool)
    requires s != []
    requires q(s[0]) == p(f(s[0]))
    requires Filter(Map(s[1..], f), p) == Map(Filter(s[1..], q), f)
    ensures Filter(Map(s, f), p) == Map(Filter(s, q), f)
  {
    var t := Filter(s[1..], q);
    var m1 := Map(s[1..], f);
    assert Map(s, f) == [f(s[0])] + m1;
    assert Filter(Map(s, f), p) == if p(f(s[0])) then [f(s[0])] + Filter(m1, p) else Filter(m1, p) by {
      FilterCons(f(s[0]), m1, p);
    }
    assert Filter(s, q) == if q(s[0]) then [s[0]] + t else t by {
      assert s == [s[0]] + s[1..];
      FilterCons(s[0], s[1..], q);
    }
    if q(s[0]) {
      assert Map([s[0]] + t, f) == [f(s[0])] + Map(t, f);
    }
  }

  /** Filtering projected rows is projecting the rows whose projection satisfies the condition. */
  lemma {:induction false} FilterMap<T(!new), U(!new)>(s: seq<T>, f: T -> U, p: U -> bool, q: T -> bool)
    requires forall x {:trigger q(x)} :: q(x) == p(f(x))
    ensures Filter(Map(s, f), p) == Map(Filter(s, q), f)
    decreases |s|
  {
    if s != [] {
      FilterMap(s[1..], f, p, q);
      FilterMapStep(s, f, p, q);
    }
  }

  /** Rows for which `p` holds plus rows for which it fails make up the whole table. */
  lemma {:induction false} FilterSplits<T(!new)>(s: seq<T>, p: T -> bool, q: T -> bool)
    requires forall x :: q(x) == !p(x)
    ensures |Filter(s, p)| + |Filter(s, q)| == |s|
  {
    if s != [] {
      FilterSplits(s[1..], p, q);
    }
  }

  /** Inserts `x` into a descending sequence, after every row with a larger or equal key. */
  function Insert<T>(x: T, s: seq<T>, key: T -> int): (r: seq<T>)
    requires SortedDesc(s, key)
    ensures SortedDesc(r, key)
    ensures multiset(r) == multiset(s) + multiset{x}
    decreases |s|
  {
    if s == [] || key(x) >= key(s[0]) then [x] + s
    else
      assert s == [s[0]] + s[1..];
      var t := Insert(x, s[1..], key);
      InsertBelowHead(x, s, t, key);
      [s[0]] + t
  }

  /** Every row of the insertion into the tail of `s` has a key at most that of `s[0]`. */
  lemma InsertBelowHead<T>(x: T, s: seq<T>, t: seq<T>, key: T -> int)
    requires s != [] && SortedDesc(s, key) && key(x) < key(s[0])
    requires multiset(t) == multiset(s[1..]) + multiset{x}
    ensures forall j :: 0 <= j < |t| ==> key(s[0]) >= key(t[j])
  {
    forall j | 0 <= j < |t| ensures key(s[0]) >= key(t[j]) {
      assert t[j] in multiset(t);
      if t[j] != x {
        assert t[j] in multiset(s[1..]);
        var k :| 0 <= k < |s[1..]| && s[1..][k] == t[j];
        assert s[k + 1] == t[j];
      }
    }
  }

  /** ORDER BY key DESC: a descending permutation of `s`. */
  function SortDesc<T>(s: seq<T>, key: T -> int): (r: seq<T>)
    ensures SortedDesc(r, key)
    ensures multiset(r) == multiset(s)
    ensures |r| == |s|
    decreases |s|
  {
    if s == [] then []
    else
      assert s == [s[0]] + s[1..];
      Insert(s[0], SortDesc(s[1..], key), key)
  }

  /** Two descending permutations of rows with distinct keys start with the same row. */
  lemma SortedDescSameHead<T>(a: seq<T>, b: seq<T>, key: T -> int)
    requires a != [] && multiset(a) == multiset(b)
    requires SortedDesc(a, key) && SortedDesc(b, key) && DistinctBy(a, key)
    ensures b != [] && a[0] == b[0]
  {
    assert a[0] in multiset(b);
    var l :| 0 <= l < |b| && b[l] == a[0];
    assert b[0] in multiset(a);
    var k :| 0 <= k < |a| && a[k] == b[0];
    assert key(a[0]) >= key(a[k]) && key(b[0]) >= key(b[l]);
  }

  /** Removing the same first row from two permutations leaves permutations. */
  lemma TailsPermutation<T>(a: seq<T>, b: seq<T>)
    requires a != [] && b != [] && a[0] == b[0] && multiset(a) == multiset(b)
    ensures multiset(a[1..]) == multiset(b[1..])
  {
    assert a == [a[0]] + a[1..] && b == [b[0]] + b[1..];
    assert multiset(a[1..]) == multiset(a) - multiset{a[0]};
    assert multiset(b[1..]) == multiset(b) - multiset{b[0]};
  }

  /**
   * With distinct keys there is only one descending order: any two descending
   * permutations of the same rows are equal, whatever sort produced them.
   */
  lemma {:induction false} SortedDescUnique<T>(a: seq<T>, b: seq<T>, key: T -> int)
    requires multiset(a) == multiset(b)
    requires SortedDesc(a, key) && SortedDesc(b, key) && DistinctBy(a, key)
    ensures a == b
    decreases |a|
  {
    if a == [] {
      assert |b| == |multiset(b)| == 0;
    } else {
      SortedDescSameHead(a, b, key);
      TailsPermutation(a, b);
      SortedDescUnique(a[1..], b[1..], key);
      assert a == [a[0]] + a[1..] && b == [b[0]] + b[1..];
    }
  }

  /** OFFSET then LIMIT: skip `offset` rows, then keep at most `limit`. */
  function Window<T>(s: seq<T>, offset: nat, limit: nat): seq<T> {
    if offset >= |s| then []
    else if offset + limit >= |s| then s[offset..]
    else s[offset..offset + limit]
  }

  /** A window holds at most `limit` rows, the rows that follow the first `offset`. */
  lemma WindowSpec<T>(s: seq<T>, offset: nat, limit: nat)
    ensures |Window(s, offset, limit)| == Min(limit, Max(0, |s| - offset))
    ensures forall i :: 0 <= i < |Window(s, offset, limit)| ==> Window(s, offset, limit)[i] == s[offset + i]
  {
  }

  /** The sequences page(0), ..., page(count - 1), one after the other. */
  function Concat<T>(page: nat -> seq<T>, count: nat): seq<T> {
    if count == 0 then [] else Concat(page, count - 1) + page(count - 1)
  }

  /** Where page `p` of size `size` starts: the sizes of the pages before it, added up. */
  function PageStart(p: nat, size: nat): nat {
    if p == 0 then 0 else PageStart(p - 1, size) + size
  }

  /** Page `p` starts at `p * size`. */
  lemma {:induction false} PageStartIsProduct(p: nat, size: nat)
    ensures PageStart(p, size) == p * size
  {
    if p > 0 {
      PageStartIsProduct(p - 1, size);
      assert (p - 1) * size + size == p * size;
    }
  }

  /** A window is the slice between its clamped ends. */
  lemma WindowIsSlice<T>(s: seq<T>, offset: nat, limit: nat)
    ensures Window(s, offset, limit) == s[Min(offset, |s|)..Min(offset + limit, |s|)]
  {
  }

  /** The window at `start` extends the rows before it to the first `start + size`. */
  lemma WindowExtendsPrefix<T>(s: seq<T>, start: nat, size: nat)
    ensures s[..Min(start, |s|)] + Window(s, start, size) == s[..Min(start + size, |s|)]
  {
    WindowIsSlice(s, start, size);
    var lo, hi := Min(start, |s|), Min(start + size, |s|);
    assert s[..hi] == s[..lo] + s[lo..hi];
  }

  /** One more page that is the next window extends the rows read so far. */
  lemma ConcatStep<T>(page: nat -> seq<T>, s: seq<T>, size: nat, count: nat)
    requires count > 0
    requires Concat(page, count - 1) == s[..Min(PageStart(count - 1, size), |s|)]
    requires page(count - 1) == Window(s, PageStart(count - 1, size), size)
    ensures Concat(page, count) == s[..Min(PageStart(count, size), |s|)]
  {
    WindowExtendsPrefix(s, PageStart(count - 1, size), size);
  }

  /** Pages that are the consecutive windows of size `size` of `s` make up the rows before where page `count` would start. */
  lemma {:induction false} ConcatOfWindows<T>(page: nat -> seq<T>, s: seq<T>, size: nat, count: nat)
    requires forall p: nat {:trigger page(p)} :: p < count ==> page(p) == Window(s, PageStart(p, size), size)
    ensures Concat(page, count) == s[..Min(PageStart(count, size), |s|)]
  {
    if count > 0 {
      ConcatOfWindows(page, s, size, count - 1);
      ConcatStep(page, s, size, count);
    }
  }
}
