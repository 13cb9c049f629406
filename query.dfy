/** The query-set operations the blog's views ask of the ORM, over finite
    sequences of records: filtering, single-record lookup, ordering and the
    uniqueness constraints of the schema. */
module Query {

  datatype Option<T> = None | Some(value: T)

  /** `filter(...)`: the records satisfying `keep`, each as many times as in `s`. */
  function Filter<T(!new)>(s: seq<T>, keep: T -> bool): (r: seq<T>)
    ensures |r| <= |s|
    ensures forall x :: multiset(r)[x] == if keep(x) then multiset(s)[x] else 0
    ensures forall x :: x in r <==> x in s && keep(x)
  {
    if s == [] then []
    else
      var rest := Filter(s[1..], keep);
      assert s == [s[0]] + s[1..];
      if keep(s[0]) then [s[0]] + rest else rest
  }

  /** A lookup such as `get_object_or_404`: the first record satisfying `pred`,
      or None when there is none. */
  function Find<T(!new)>(s: seq<T>, pred: T -> bool): (r: Option<T>)
    ensures r.Some? ==> r.value in s && pred(r.value)
    ensures r.None? <==> forall x :: x in s ==> !pred(x)
  {
    if s == [] then None
    else if pred(s[0]) then Some(s[0])
    else Find(s[1..], pred)
  }

  /** `s` is in ascending order of `key` (ties in any order). */
  ghost predicate SortedBy<T>(s: seq<T>, key: T -> int) {
    forall i, j :: 0 <= i < j < |s| ==> key(s[i]) <= key(s[j])
  }

  function Insert<T(!new)>(x: T, s: seq<T>, key: T -> int): (r: seq<T>)
    requires SortedBy(s, key)
    ensures SortedBy(r, key)
    ensures multiset(r) == multiset(s) + multiset{x}
    ensures forall y :: y in r <==> y == x || y in s
  {
    if s == [] || key(x) <= key(s[0]) then
      SmallestFirst(x, s, key);
      [x] + s
    else
      var rest := Insert(x, s[1..], key);
      assert s == [s[0]] + s[1..];
      forall y | y in rest ensures key(s[0]) <= key(y) {
        if y != x { SortedHead(s, key, y); }
      }
      SmallestFirst(s[0], rest, key);
      [s[0]] + rest
  }

  lemma SortedHead<T>(s: seq<T>, key: T -> int, y: T)
    requires SortedBy(s, key) && y in s
    ensures key(s[0]) <= key(y)
  {
    var k :| 0 <= k < |s| && s[k] == y;
  }

  lemma SmallestFirst<T>(x: T, s: seq<T>, key: T -> int)
    requires SortedBy(s, key)
    requires forall y :: y in s ==> key(x) <= key(y)
    ensures SortedBy([x] + s, key)
  {
    var r := [x] + s;
    forall i, j | 0 <= i < j < |r| ensures key(r[i]) <= key(r[j]) {
      assert r[j] == s[j - 1];
      if i > 0 { assert r[i] == s[i - 1]; }
    }
  }

  /** `order_by(...)`: a permutation of `s` ascending by `key`. */
  function SortBy<T(!new)>(s: seq<T>, key: T -> int): (r: seq<T>)
    ensures SortedBy(r, key)
    ensures multiset(r) == multiset(s)
    ensures forall x :: x in r <==> x in s
  {
    if s == [] then []
    else
      assert s == [s[0]] + s[1..];
      Insert(s[0], SortBy(s[1..], key), key)
  }

  /** A `unique=True` column (or a primary key): no two records share `key`. */
  ghost predicate UniqueBy<T, K>(s: seq<T>, key: T -> K) {
    forall i, j :: 0 <= i < j < |s| ==> key(s[i]) != key(s[j])
  }

  /** No record occurs twice. */
  ghost predicate Distinct<T>(s: seq<T>) {
    forall i, j :: 0 <= i < j < |s| ==> s[i] != s[j]
  }

  /** A number above every `key` in `s`: the next value of an auto-increment counter. */
  function Bound<T(!new)>(s: seq<T>, key: T -> nat): (b: nat)
    ensures forall x :: x in s ==> key(x) < b
  {
    if s == [] then 0
    else
      var rest := Bound(s[1..], key);
      if key(s[0]) < rest then rest else key(s[0]) + 1
  }

  /** Filtering keeps a unique column unique. */
  lemma {:induction false} FilterUnique<T(!new), K>(s: seq<T>, keep: T -> bool, key: T -> K)
    requires UniqueBy(s, key)
    ensures UniqueBy(Filter(s, keep), key)
  {
    if s != [] {
      var tail := s[1..];
      assert UniqueBy(tail, key) by {
        forall i, j | 0 <= i < j < |tail| ensures key(tail[i]) != key(tail[j]) {
          assert tail[i] == s[i + 1] && tail[j] == s[j + 1];
        }
      }
      FilterUnique(tail, keep, key);
      var rest := Filter(tail, keep);
      if keep(s[0]) {
        forall y | y in rest ensures key(y) != key(s[0]) {
          var k :| 0 <= k < |tail| && tail[k] == y;
          assert s[k + 1] == y;
        }
        PrependUnique(s[0], rest, key);
      }
    }
  }

  /** A record whose key no record of a unique sequence has can go in front. */
  lemma PrependUnique<T, K>(x: T, s: seq<T>, key: T -> K)
    requires UniqueBy(s, key)
    requires forall y :: y in s ==> key(y) != key(x)
    ensures UniqueBy([x] + s, key)
  {
    var r := [x] + s;
    forall i, j | 0 <= i < j < |r| ensures key(r[i]) != key(r[j]) {
      assert r[j] == s[j - 1];
      if i > 0 { assert r[i] == s[i - 1]; }
    }
  }

  /** A sequence whose records have pairwise different keys has no duplicates. */
  lemma UniqueDistinct<T, K>(s: seq<T>, key: T -> K)
    requires UniqueBy(s, key)
    ensures Distinct(s)
  {
  }

  /** Without duplicates, the length of a sequence is the number of records in it. */
  lemma {:induction false} DistinctCardinality<T>(s: seq<T>)
    requires Distinct(s)
    ensures |set x | x in s| == |s|
  {
    if s != [] {
      var tail := s[1..];
      assert Distinct(tail) by {
        forall i, j | 0 <= i < j < |tail| ensures tail[i] != tail[j] {
          assert tail[i] == s[i + 1] && tail[j] == s[j + 1];
        }
      }
      DistinctCardinality(tail);
      assert s[0] !in tail by {
        forall k | 0 <= k < |tail| ensures tail[k] != s[0] {
          assert tail[k] == s[k + 1];
        }
      }
      assert (set x | x in s) == {s[0]} + (set x | x in tail) by {
        assert s == [s[0]] + tail;
      }
    }
  }
}
