/**
 The list operations the repositories' queries are built from: an
 order-keeping filter, a stable sort by a descending integer key (SQL's
 `ORDER BY key DESC`), the first row by a key (`findFirst…OrderBy…`), and an
 offset/limit page.
 */
module Sorting {
  import opened Common

  /** `s` is ordered by `key`, largest first. */
  ghost predicate SortedDesc<T>(s: seq<T>, key: T -> int) {
    forall i, j :: 0 <= i < j < |s| ==> key(s[i]) >= key(s[j])
  }

  /** The elements of `s` satisfying `p`, in their original order. */
  function Filter<T(==,!new)>(s: seq<T>, p: T -> bool): (r: seq<T>)
    ensures forall x :: multiset(r)[x] == if p(x) then multiset(s)[x] else 0
    ensures forall x :: x in r <==> x in s && p(x)
    ensures |r| <= |s|
  {
    if |s| == 0 then []
    else
      assert s == [s[0]] + s[1..];
      (if p(s[0]) then [s[0]] else []) + Filter(s[1..], p)
  }

  /** Filtering keeps whatever order the input had. */
  lemma {:induction false} FilterKeepsSortedDesc<T(!new)>(s: seq<T>, p: T -> bool, key: T -> int)
    requires SortedDesc(s, key)
    ensures SortedDesc(Filter(s, p), key)
  {
    if |s| > 0 {
      var t := s[1..];
      assert SortedDesc(t, key);
      FilterKeepsSortedDesc(t, p, key);
      var rest := Filter(t, p);
      assert Filter(s, p) == (if p(s[0]) then [s[0]] else []) + rest;
      if p(s[0]) && |rest| > 0 {
        assert rest[0] in t;
        var j :| 0 <= j < |t| && t[j] == rest[0];
        assert s[j + 1] == rest[0];
      }
      if p(s[0]) {
        ConsSortedDesc(s[0], rest, key);
      }
    }
  }

  /** Prepending an element no smaller than the head keeps a list descending. */
  lemma ConsSortedDesc<T>(h: T, t: seq<T>, key: T -> int)
    requires SortedDesc(t, key)
    requires |t| == 0 || key(h) >= key(t[0])
    ensures SortedDesc([h] + t, key)
  {
    var r := [h] + t;
    forall i, j | 0 <= i < j < |r|
      ensures key(r[i]) >= key(r[j])
    {
      if i == 0 && j > 1 {
        assert key(t[0]) >= key(t[j - 1]);
      }
    }
  }

  /** Keeping the head in front of a list that had `x` inserted into its
      tail keeps the whole list descending and adds `x` to its elements. */
  lemma InsertBehindHead<T>(h: T, t: seq<T>, x: T, rest: seq<T>, key: T -> int)
    requires SortedDesc([h] + t, key) && key(h) >= key(x)
    requires SortedDesc(rest, key)
    requires multiset(rest) == multiset(t) + multiset{x}
    requires |rest| > 0 && (rest[0] == x || (|t| > 0 && rest[0] == t[0]))
    ensures SortedDesc([h] + rest, key)
    ensures multiset([h] + rest) == multiset([h] + t) + multiset{x}
  {
    if |t| > 0 && rest[0] == t[0] {
      assert ([h] + t)[1] == t[0];
      assert key(([h] + t)[0]) >= key(([h] + t)[1]);
    }
    ConsSortedDesc(h, rest, key);
  }

  /** Inserts `x` into a descending list after every element whose key is at
      least `key(x)`, so that earlier rows stay ahead of later ties. */
  function InsertDesc<T(==)>(x: T, s: seq<T>, key: T -> int): (r: seq<T>)
    requires SortedDesc(s, key)
    ensures SortedDesc(r, key)
    ensures multiset(r) == multiset(s) + multiset{x}
    ensures |r| == |s| + 1
    ensures r[0] == x || (|s| > 0 && r[0] == s[0])
  {
    if |s| == 0 then [x]
    else if key(s[0]) >= key(x) then
      assert s == [s[0]] + s[1..];
      assert SortedDesc(s[1..], key);
      var rest := InsertDesc(x, s[1..], key);
      InsertBehindHead(s[0], s[1..], x, rest, key);
      [s[0]] + rest
    else
      ConsSortedDesc(x, s, key);
      [x] + s
  }

  /** A stable sort by `key`, largest first: a permutation of `s`. */
  function SortDesc<T(==)>(s: seq<T>, key: T -> int): (r: seq<T>)
    ensures SortedDesc(r, key)
    ensures multiset(r) == multiset(s)
    decreases |s|
  {
    if |s| == 0 then []
    else
      assert s == s[..|s| - 1] + [s[|s| - 1]];
      InsertDesc(s[|s| - 1], SortDesc(s[..|s| - 1], key), key)
  }

  /** An element whose key is larger than every other element's comes first
      after sorting. */
  lemma StrictMaxSortsFirst<T>(s: seq<T>, k: nat, key: T -> int)
    requires k < |s|
    requires forall i :: 0 <= i < |s| && i != k ==> key(s[i]) < key(s[k])
    ensures SortDesc(s, key)[0] == s[k]
  {
    var sorted := SortDesc(s, key);
    assert s[k] in multiset(sorted);
    var m :| 0 <= m < |sorted| && sorted[m] == s[k];
    assert sorted[0] in multiset(s);
    var j :| 0 <= j < |s| && s[j] == sorted[0];
    assert key(sorted[0]) >= key(sorted[m]);
  }

  /** The first element satisfying `p` whose key is largest, or `None` when
      no element satisfies `p`. */
  function FirstMax<T>(s: seq<T>, p: T -> bool, key: T -> int): (r: Option<T>)
    ensures r.None? <==> forall i :: 0 <= i < |s| ==> !p(s[i])
    ensures r.Some? ==> r.value in s && p(r.value)
    ensures r.Some? ==> forall i :: 0 <= i < |s| && p(s[i]) ==> key(s[i]) <= key(r.value)
  {
    if |s| == 0 then None
    else
      var rest := FirstMax(s[1..], p, key);
      assert forall i :: 1 <= i < |s| ==> s[i] == s[1..][i - 1];
      if !p(s[0]) then rest
      else if rest.Some? && key(rest.value) > key(s[0]) then rest
      else Some(s[0])
  }

  /** `PageRequest.of(page, size)`: the `page`-th block of `size` elements,
      shorter (or empty) at the end of the list. */
  function Page<T>(s: seq<T>, page: nat, size: nat): (r: seq<T>)
    requires size >= 1
    ensures |r| <= size
    ensures page * size >= |s| ==> r == []
    ensures forall i :: 0 <= i < |r| ==> page * size + i < |s| && r[i] == s[page * size + i]
    ensures page * size + size <= |s| ==> |r| == size
    ensures page * size < |s| ==> |r| == if |s| - page * size < size then |s| - page * size else size
  {
    var lo := if page * size <= |s| then page * size else |s|;
    var hi := if page * size + size <= |s| then page * size + size else |s|;
    s[lo..hi]
  }

  /** A page of a descending list is descending. */
  lemma PageKeepsSortedDesc<T>(s: seq<T>, page: nat, size: nat, key: T -> int)
    requires size >= 1
    requires SortedDesc(s, key)
    ensures SortedDesc(Page(s, page, size), key)
  {
    var r := Page(s, page, size);
    forall i, j | 0 <= i < j < |r|
      ensures key(r[i]) >= key(r[j])
    {
      assert r[i] == s[page * size + i] && r[j] == s[page * size + j];
    }
  }
}
