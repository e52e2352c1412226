/**
 * Generic sequence operations the source gets from JavaScript arrays and from
 * the store's query engine: `find`/`findFirst`, `filter`, and a stable sort
 * driven by a comparator.
 */
module Collections {
  import opened Wrappers

  /** Index of the first element satisfying `p` (`Array.prototype.findIndex`, or a `findFirst` in table order). */
  function FindFirst<T>(s: seq<T>, p: T -> bool): (r: Option<nat>)
    ensures r.Some? ==> r.value < |s| && p(s[r.value])
    ensures r.Some? ==> forall j :: 0 <= j < r.value ==> !p(s[j])
    ensures r.None? <==> forall j :: 0 <= j < |s| ==> !p(s[j])
    decreases |s|
  {
    if s == [] then None
    else if p(s[0]) then Some(0)
    else match FindFirst(s[1..], p)
      case Some(i) => Some(i + 1)
      case None => None
  }

  /** `Array.prototype.filter`: the elements satisfying `p`, in their original order. */
  function Filter<T>(s: seq<T>, p: T -> bool): (r: seq<T>)
    ensures forall x :: x in r ==> x in s && p(x)
    ensures forall x :: x in s && p(x) ==> x in r
    ensures |r| <= |s|
    decreases |s|
  {
    if s == [] then []
    else (if p(s[0]) then [s[0]] else []) + Filter(s[1..], p)
  }

  /** Filtering distributes over appending one element at the end. */
  lemma {:induction false} FilterSnoc<T>(s: seq<T>, x: T, p: T -> bool)
    ensures Filter(s + [x], p) == Filter(s, p) + (if p(x) then [x] else [])
    decreases |s|
  {
    if s == [] {
      assert s + [x] == [x];
    } else {
      assert (s + [x])[0] == s[0] && (s + [x])[1..] == s[1..] + [x];
      FilterSnoc(s[1..], x, p);
    }
  }

  /** Nothing satisfying `p`, nothing kept. */
  lemma {:induction false} FilterEmpty<T>(s: seq<T>, p: T -> bool)
    requires forall k :: 0 <= k < |s| ==> !p(s[k])
    ensures Filter(s, p) == []
    decreases |s|
  {
    if s != [] {
      FilterEmpty(s[1..], p);
    }
  }

  /** Filtering by a predicate and by its complement splits the sequence: nothing is lost or duplicated. */
  lemma {:induction false} FilterPartition<T>(s: seq<T>, p: T -> bool, q: T -> bool)
    requires forall k :: 0 <= k < |s| ==> (q(s[k]) <==> !p(s[k]))
    ensures multiset(Filter(s, p)) + multiset(Filter(s, q)) == multiset(s)
    decreases |s|
  {
    if s != [] {
      var x, rest := s[0], s[1..];
      forall k | 0 <= k < |rest|
        ensures q(rest[k]) <==> !p(rest[k])
      {
        assert rest[k] == s[k + 1];
      }
      FilterPartition(rest, p, q);
      var a, b := Filter(rest, p), Filter(rest, q);
      assert s == [x] + rest;
      if p(x) {
        assert Filter(s, p) == [x] + a && Filter(s, q) == b;
        ConsSplit(x, rest, a, b);
      } else {
        assert Filter(s, p) == a && Filter(s, q) == [x] + b;
        ConsSplit(x, rest, b, a);
      }
    }
  }

  /** Adding one element in front of a split list adds it to one side of the split. */
  lemma ConsSplit<T>(x: T, rest: seq<T>, a: seq<T>, b: seq<T>)
    requires multiset(a) + multiset(b) == multiset(rest)
    ensures multiset([x] + a) + multiset(b) == multiset([x] + rest)
    ensures multiset(b) + multiset([x] + a) == multiset([x] + rest)
  {
  }

  /** `before(a, b)`: the comparator puts `a` strictly ahead of `b` (JavaScript's `compare(a, b) < 0`). */
  ghost predicate StrictOrder<T(!new)>(before: (T, T) -> bool) {
    && (forall a :: !before(a, a))
    && (forall a, b, c :: before(a, b) && before(b, c) ==> before(a, c))
  }

  /** No element is strictly ahead of an element that precedes it. */
  ghost predicate SortedBy<T>(s: seq<T>, before: (T, T) -> bool) {
    forall i, j :: 0 <= i < j < |s| ==> !before(s[j], s[i])
  }

  /** Inserts `x` after every element it is not strictly ahead of, so equal elements keep their order. */
  function Insert<T>(sorted: seq<T>, x: T, before: (T, T) -> bool): (r: seq<T>)
    ensures multiset(r) == multiset(sorted) + multiset{x}
    decreases |sorted|
  {
    if sorted == [] then [x]
    else if before(x, sorted[0]) then [x] + sorted
    else
      assert sorted == [sorted[0]] + sorted[1..];
      [sorted[0]] + Insert(sorted[1..], x, before)
  }

  /** A stable insertion sort: the order `Array.prototype.sort` produces for a consistent comparator. */
  function SortBy<T>(s: seq<T>, before: (T, T) -> bool): (r: seq<T>)
    ensures multiset(r) == multiset(s)
    decreases |s|
  {
    if s == [] then []
    else
      assert s == s[..|s| - 1] + [s[|s| - 1]];
      Insert(SortBy(s[..|s| - 1], before), s[|s| - 1], before)
  }

  lemma {:induction false} InsertSorted<T(!new)>(sorted: seq<T>, x: T, before: (T, T) -> bool)
    requires StrictOrder(before)
    requires SortedBy(sorted, before)
    ensures SortedBy(Insert(sorted, x, before), before)
    decreases |sorted|
  {
    if sorted != [] && !before(x, sorted[0]) {
      var rest := Insert(sorted[1..], x, before);
      InsertSorted(sorted[1..], x, before);
      forall e | e in rest
        ensures !before(e, sorted[0])
      {
        assert e in multiset(rest);
        assert e in multiset(sorted[1..]) + multiset{x};
        if e != x {
          assert e in sorted[1..];
          var k :| 0 <= k < |sorted[1..]| && sorted[1..][k] == e;
          assert sorted[k + 1] == e;
        }
      }
      var r := [sorted[0]] + rest;
      forall i, j | 0 <= i < j < |r|
        ensures !before(r[j], r[i])
      {
        if i == 0 {
          assert r[j] == rest[j - 1];
          assert r[j] in rest;
        } else {
          assert r[i] == rest[i - 1] && r[j] == rest[j - 1];
        }
      }
    }
  }

  /** The sorted output is a permutation of the input in comparator order. */
  lemma {:induction false} SortBySorted<T(!new)>(s: seq<T>, before: (T, T) -> bool)
    requires StrictOrder(before)
    ensures SortedBy(SortBy(s, before), before)
    ensures multiset(SortBy(s, before)) == multiset(s)
    decreases |s|
  {
    if s != [] {
      SortBySorted(s[..|s| - 1], before);
      InsertSorted(SortBy(s[..|s| - 1], before), s[|s| - 1], before);
    }
  }

  /** Filtering keeps the relative order, so a sorted sequence stays sorted. */
  lemma {:induction false} FilterSorted<T>(s: seq<T>, p: T -> bool, before: (T, T) -> bool)
    requires SortedBy(s, before)
    ensures SortedBy(Filter(s, p), before)
    decreases |s|
  {
    if s != [] {
      FilterSorted(s[1..], p, before);
      var tail := Filter(s[1..], p);
      if p(s[0]) {
        var r := [s[0]] + tail;
        forall i, j | 0 <= i < j < |r|
          ensures !before(r[j], r[i])
        {
          if i == 0 {
            assert r[j] in tail;
            assert r[j] in s[1..];
            var k :| 0 <= k < |s[1..]| && s[1..][k] == r[j];
            assert s[k + 1] == r[j];
          } else {
            assert r[i] == tail[i - 1] && r[j] == tail[j - 1];
          }
        }
      }
    }
  }
}
