/**
 * ORDER BY on one integer column. SQL leaves the order of rows with equal
 * keys unspecified; the model fixes one: a stable insertion sort, so rows
 * with equal keys keep the order they have in the table. A descending
 * order is the ascending order of the negated key.
 */
module Ordering {
  import opened Common

  predicate SortedBy<T>(s: seq<T>, key: T -> int)
  {
    forall i, j :: 0 <= i < j < |s| ==> key(s[i]) <= key(s[j])
  }

  /** Inserts x after every element whose key is at most key(x). */
  function InsertBy<T(==)>(x: T, s: seq<T>, key: T -> int): (r: seq<T>)
    requires SortedBy(s, key)
    ensures SortedBy(r, key)
    ensures multiset(r) == multiset(s) + multiset{x}
    ensures |r| == |s| + 1
    ensures forall i :: 0 <= i < |r| ==> r[i] == x || r[i] in s
  {
    if s == [] then [x]
    else if key(s[|s| - 1]) <= key(x) then
      AppendBounded(s, x, key);
      s + [x]
    else
      var last, init := s[|s| - 1], s[..|s| - 1];
      SplitLast(s, key);
      var r' := InsertBy(x, init, key);
      InsertBeforeLast(x, init, last, r', key);
      r' + [last]
  }

  /** A sorted sequence is its sorted prefix followed by an element at least as large as every other. */
  lemma SplitLast<T>(s: seq<T>, key: T -> int)
    requires SortedBy(s, key) && s != []
    ensures s == s[..|s| - 1] + [s[|s| - 1]]
    ensures SortedBy(s[..|s| - 1], key)
    ensures forall y :: y in s[..|s| - 1] ==> key(y) <= key(s[|s| - 1])
  {
  }

  /** Appending an element whose key bounds every key keeps a sequence sorted. */
  lemma AppendBounded<T>(r: seq<T>, last: T, key: T -> int)
    requires SortedBy(r, key)
    requires forall i :: 0 <= i < |r| ==> key(r[i]) <= key(last)
    ensures SortedBy(r + [last], key)
  {
  }

  /**
   * The recursive case of InsertBy: x inserted into init, then the last
   * element of the table, whose key exceeds key(x), put back at the end.
   */
  lemma InsertBeforeLast<T>(x: T, init: seq<T>, last: T, r': seq<T>, key: T -> int)
    requires key(x) < key(last)
    requires forall y :: y in init ==> key(y) <= key(last)
    requires SortedBy(r', key)
    requires multiset(r') == multiset(init) + multiset{x}
    requires |r'| == |init| + 1
    requires forall i :: 0 <= i < |r'| ==> r'[i] == x || r'[i] in init
    ensures SortedBy(r' + [last], key)
    ensures multiset(r' + [last]) == multiset(init + [last]) + multiset{x}
    ensures forall i :: 0 <= i < |r' + [last]| ==> (r' + [last])[i] == x || (r' + [last])[i] in init + [last]
  {
    AppendBounded(r', last, key);
  }

  /** The rows of s ordered by key, ascending; equal keys keep their order in s. */
  function SortBy<T(==)>(s: seq<T>, key: T -> int): (r: seq<T>)
    ensures SortedBy(r, key)
    ensures multiset(r) == multiset(s)
    ensures |r| == |s|
  {
    if s == [] then []
    else
      assert s == s[..|s| - 1] + [s[|s| - 1]];
      InsertBy(s[|s| - 1], SortBy(s[..|s| - 1], key), key)
  }

  /** Sorting keeps exactly the rows it was given. */
  lemma SortByMembers<T>(s: seq<T>, key: T -> int)
    ensures forall x :: x in SortBy(s, key) <==> x in s
  {
    var r := SortBy(s, key);
    forall x ensures x in r <==> x in s {
      assert x in r <==> x in multiset(r);
      assert x in s <==> x in multiset(s);
    }
  }

  /** A table already in key order is left as it is. */
  lemma {:induction false} SortBySorted<T>(s: seq<T>, key: T -> int)
    requires SortedBy(s, key)
    ensures SortBy(s, key) == s
  {
    if s != [] {
      var init := s[..|s| - 1];
      assert SortedBy(init, key);
      SortBySorted(init, key);
      assert s == init + [s[|s| - 1]];
    }
  }

  /** A sequence without repeats holds each element at most once. */
  lemma {:induction false} DistinctCountsAtMostOne<T>(s: seq<T>, x: T)
    requires NoDuplicates(s)
    ensures multiset(s)[x] <= 1
  {
    if s != [] {
      var init := s[..|s| - 1];
      assert s == init + [s[|s| - 1]];
      assert NoDuplicates(init);
      DistinctCountsAtMostOne(init, x);
      if s[|s| - 1] == x {
        assert x !in init;
      }
    }
  }

  /** An element at two positions is counted twice. */
  lemma TwoPositionsCountTwice<T>(r: seq<T>, i: nat, j: nat)
    requires i < j < |r|
    ensures r[i] == r[j] ==> multiset(r)[r[j]] >= 2
  {
    assert r == r[..j] + [r[j]] + r[j + 1..];
    assert r[..j][i] == r[i];
  }

  /** Sorting a sequence without repeats gives one without repeats: each row is listed once. */
  lemma SortByKeepsDistinct<T>(s: seq<T>, key: T -> int)
    requires NoDuplicates(s)
    ensures NoDuplicates(SortBy(s, key))
  {
    var r := SortBy(s, key);
    forall i, j | 0 <= i < j < |r| ensures r[i] != r[j] {
      TwoPositionsCountTwice(r, i, j);
      DistinctCountsAtMostOne(s, r[j]);
    }
  }
}
