/** The list library's sort, as used by the feature engine: sorting by a
    two-part integer key (start, then end) in ascending lexicographic order.
    The model is an insertion sort; what is claimed about it is only that the
    result is sorted and a permutation of the input. */
module Sorting {

  /** Lexicographic order on (major, minor) keys. */
  predicate KeyLe(a: (int, int), b: (int, int)) {
    a.0 < b.0 || (a.0 == b.0 && a.1 <= b.1)
  }

  predicate SortedBy<T>(s: seq<T>, key: T -> (int, int)) {
    forall i, j :: 0 <= i < j < |s| ==> KeyLe(key(s[i]), key(s[j]))
  }

  /** Places `x` behind the last element whose key is not larger than its own
      (so equal keys keep their order). */
  function Insert<T>(x: T, s: seq<T>, key: T -> (int, int)): (r: seq<T>)
    ensures |r| == |s| + 1
    decreases |s|
  {
    if |s| == 0 then [x]
    else if KeyLe(key(s[|s| - 1]), key(x)) then s + [x]
    else
      assert s == s[..|s| - 1] + [s[|s| - 1]];
      Insert(x, s[..|s| - 1], key) + [s[|s| - 1]]
  }

  function SortBy<T>(s: seq<T>, key: T -> (int, int)): (r: seq<T>)
    ensures |r| == |s|
    decreases |s|
  {
    if |s| == 0 then []
    else
      assert s == s[..|s| - 1] + [s[|s| - 1]];
      Insert(s[|s| - 1], SortBy(s[..|s| - 1], key), key)
  }

  /** Inserting adds exactly the one element. */
  lemma {:induction false} InsertPermutation<T>(x: T, s: seq<T>, key: T -> (int, int))
    ensures multiset(Insert(x, s, key)) == multiset(s) + multiset{x}
    decreases |s|
  {
    if |s| > 0 && !KeyLe(key(s[|s| - 1]), key(x)) {
      var t := s[..|s| - 1];
      InsertPermutation(x, t, key);
      assert s == t + [s[|s| - 1]];
    }
  }

  /** The sorted list is a permutation of the input. */
  lemma {:induction false} SortByPermutation<T>(s: seq<T>, key: T -> (int, int))
    ensures multiset(SortBy(s, key)) == multiset(s)
    decreases |s|
  {
    if |s| > 0 {
      var t := s[..|s| - 1];
      SortByPermutation(t, key);
      InsertPermutation(s[|s| - 1], SortBy(t, key), key);
      assert s == t + [s[|s| - 1]];
    }
  }

  lemma {:induction false} InsertSorted<T>(x: T, s: seq<T>, key: T -> (int, int))
    requires SortedBy(s, key)
    ensures SortedBy(Insert(x, s, key), key)
    decreases |s|
  {
    if |s| > 0 && !KeyLe(key(s[|s| - 1]), key(x)) {
      var t := s[..|s| - 1];
      var y := s[|s| - 1];
      assert SortedBy(t, key);
      InsertSorted(x, t, key);
      InsertPermutation(x, t, key);
      var r := Insert(x, t, key);
      forall k | 0 <= k < |r|
        ensures KeyLe(key(r[k]), key(y))
      {
        assert r[k] in multiset(r);
        if r[k] != x {
          assert r[k] in multiset(t);
          var m :| 0 <= m < |t| && t[m] == r[k];
          assert t[m] == s[m];
        }
      }
    }
  }

  /** The sorted list is non-decreasing by key. */
  lemma {:induction false} SortBySorted<T>(s: seq<T>, key: T -> (int, int))
    ensures SortedBy(SortBy(s, key), key)
    decreases |s|
  {
    if |s| > 0 {
      SortBySorted(s[..|s| - 1], key);
      InsertSorted(s[|s| - 1], SortBy(s[..|s| - 1], key), key);
    }
  }

  /** Sorting a list that is already sorted leaves it unchanged. */
  lemma {:induction false} SortByIdempotent<T>(s: seq<T>, key: T -> (int, int))
    requires SortedBy(s, key)
    ensures SortBy(s, key) == s
    decreases |s|
  {
    if |s| > 0 {
      var s' := s[..|s| - 1];
      assert SortedBy(s', key);
      SortByIdempotent(s', key);
      assert s == s' + [s[|s| - 1]];
    }
  }
}
