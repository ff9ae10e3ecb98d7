/** Descending order by a real-valued key, as `sort_values(..., ascending=False)`
    and the ordering of `value_counts` produce it. Only the order of keys is
    promised; how ties are arranged is left open, as pandas leaves it. */
module Ordering {
  import opened Seqs

  /** Keys never increase from left to right. */
  predicate SortedDesc<T>(s: seq<T>, key: T -> real) {
    forall i, j :: 0 <= i < j < |s| ==> key(s[i]) >= key(s[j])
  }

  /** Places `x` in front of the first element whose key is not larger. */
  function Insert<T>(x: T, s: seq<T>, key: T -> real): (r: seq<T>)
    ensures |r| == |s| + 1
    decreases |s|
  {
    if s == [] || key(x) >= key(s[0]) then [x] + s
    else [s[0]] + Insert(x, s[1..], key)
  }

  /** `s` rearranged into non-increasing key order, by insertion. */
  function SortDesc<T>(s: seq<T>, key: T -> real): (r: seq<T>)
    ensures |r| == |s|
    decreases |s|
  {
    if s == [] then [] else Insert(s[0], SortDesc(s[1..], key), key)
  }

  /** A bound on every key of `s` and on `key(x)` bounds every key after the insertion. */
  lemma {:induction false} InsertBounded<T>(x: T, s: seq<T>, key: T -> real, b: real)
    requires key(x) <= b && forall i :: 0 <= i < |s| ==> key(s[i]) <= b
    ensures forall i :: 0 <= i < |Insert(x, s, key)| ==> key(Insert(x, s, key)[i]) <= b
    decreases |s|
  {
    if s != [] && key(x) < key(s[0]) {
      InsertBounded(x, s[1..], key, b);
    }
  }

  /** Inserting into a sorted sequence keeps it sorted. */
  lemma {:induction false} InsertSorted<T>(x: T, s: seq<T>, key: T -> real)
    requires SortedDesc(s, key)
    ensures SortedDesc(Insert(x, s, key), key)
    decreases |s|
  {
    if s != [] && key(x) < key(s[0]) {
      var rest := Insert(x, s[1..], key);
      InsertSorted(x, s[1..], key);
      InsertBounded(x, s[1..], key, key(s[0]));
      assert Insert(x, s, key) == [s[0]] + rest;
    }
  }

  /** Insertion adds exactly one occurrence of `x`. */
  lemma {:induction false} InsertPermutes<T>(x: T, s: seq<T>, key: T -> real)
    ensures multiset(Insert(x, s, key)) == multiset(s) + multiset{x}
    decreases |s|
  {
    if s != [] && key(x) < key(s[0]) {
      InsertPermutes(x, s[1..], key);
      assert s == [s[0]] + s[1..];
    }
  }

  /** The result of `SortDesc` is sorted and a permutation of its input. */
  lemma {:induction false} SortDescSpec<T>(s: seq<T>, key: T -> real)
    ensures SortedDesc(SortDesc(s, key), key)
    ensures multiset(SortDesc(s, key)) == multiset(s)
    decreases |s|
  {
    if s != [] {
      SortDescSpec(s[1..], key);
      InsertSorted(s[0], SortDesc(s[1..], key), key);
      InsertPermutes(s[0], SortDesc(s[1..], key), key);
      assert s == [s[0]] + s[1..];
    }
  }

  lemma {:induction false} SumOfInsert<T>(x: T, s: seq<T>, key: T -> real, f: T -> int)
    ensures SumOf(Insert(x, s, key), f) == f(x) + SumOf(s, f)
    decreases |s|
  {
    if s == [] || key(x) >= key(s[0]) {
      assert ([x] + s)[1..] == s;
    } else {
      var rest := Insert(x, s[1..], key);
      SumOfInsert(x, s[1..], key, f);
      assert ([s[0]] + rest)[1..] == rest;
    }
  }

  /** Sorting keeps every column total: the sum of `f` is the same before and after. */
  lemma {:induction false} SumOfSortDesc<T>(s: seq<T>, key: T -> real, f: T -> int)
    ensures SumOf(SortDesc(s, key), f) == SumOf(s, f)
    decreases |s|
  {
    if s != [] {
      SumOfSortDesc(s[1..], key, f);
      SumOfInsert(s[0], SortDesc(s[1..], key), key, f);
    }
  }

  /** Every element after the insertion is `x` or an element of `s`. */
  lemma {:induction false} InsertFrom<T>(x: T, s: seq<T>, key: T -> real, i: nat)
    requires i < |Insert(x, s, key)|
    ensures Insert(x, s, key)[i] == x || exists k :: 0 <= k < |s| && Insert(x, s, key)[i] == s[k]
    decreases |s|
  {
    if s != [] && key(x) < key(s[0]) && i > 0 {
      InsertFrom(x, s[1..], key, i - 1);
      if Insert(x, s[1..], key)[i - 1] != x {
        var k :| 0 <= k < |s[1..]| && Insert(x, s[1..], key)[i - 1] == s[1..][k];
        assert s[k + 1] == s[1..][k];
      }
    }
  }

  lemma {:induction false} DistinctByInsert<T, K>(x: T, s: seq<T>, key: T -> real, f: T -> K)
    requires DistinctBy(s, f)
    requires forall k :: 0 <= k < |s| ==> f(s[k]) != f(x)
    ensures DistinctBy(Insert(x, s, key), f)
    decreases |s|
  {
    if s != [] && key(x) < key(s[0]) {
      var rest := Insert(x, s[1..], key);
      DistinctByInsert(x, s[1..], key, f);
      forall i | 0 <= i < |rest| ensures f(rest[i]) != f(s[0]) {
        InsertFrom(x, s[1..], key, i);
      }
      assert Insert(x, s, key) == [s[0]] + rest;
    }
  }

  /** Every element of the sorted sequence is an element of the input. */
  lemma {:induction false} SortDescFrom<T>(s: seq<T>, key: T -> real, i: nat)
    requires i < |SortDesc(s, key)|
    ensures exists k :: 0 <= k < |s| && SortDesc(s, key)[i] == s[k]
    decreases |s|
  {
    var rest := SortDesc(s[1..], key);
    InsertFrom(s[0], rest, key, i);
    if SortDesc(s, key)[i] != s[0] {
      var k :| 0 <= k < |rest| && SortDesc(s, key)[i] == rest[k];
      SortDescFrom(s[1..], key, k);
      var m :| 0 <= m < |s[1..]| && rest[k] == s[1..][m];
      assert s[m + 1] == s[1..][m];
    } else {
      assert s[0] == s[0];
    }
  }

  /** Sorting keeps elements distinct on `f` (the group labels stay unique). */
  lemma {:induction false} DistinctBySortDesc<T, K>(s: seq<T>, key: T -> real, f: T -> K)
    requires DistinctBy(s, f)
    ensures DistinctBy(SortDesc(s, key), f)
    decreases |s|
  {
    if s != [] {
      var rest := SortDesc(s[1..], key);
      DistinctBySortDesc(s[1..], key, f);
      forall i | 0 <= i < |rest| ensures f(rest[i]) != f(s[0]) {
        SortDescFrom(s[1..], key, i);
        var m :| 0 <= m < |s[1..]| && rest[i] == s[1..][m];
        assert s[m + 1] == s[1..][m];
      }
      DistinctByInsert(s[0], rest, key, f);
    }
  }
}
