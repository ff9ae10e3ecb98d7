/** Small facts about sequences shared by the grouping and ordering modules:
    occurrence counts, sums, prefixes and distinctness. */
module Seqs {

  /** Number of positions of `s` holding `x` (pandas' `value_counts` for one value). */
  function Count<T(==)>(s: seq<T>, x: T): (n: nat)
    ensures n <= |s|
    ensures n > 0 <==> x in s
    decreases |s|
  {
    if s == [] then 0
    else
      var m := |s| - 1;
      assert s == s[..m] + [s[m]];
      Count(s[..m], x) + (if s[m] == x then 1 else 0)
  }

  function Identity(x: int): int { x }

  /** Sum of a sequence of integers. */
  function Sum(s: seq<int>): int {
    SumOf(s, Identity)
  }

  /** Sum of the `values` whose position carries key `k`: the per-group `sum`
      of a group-by. */
  function SumWhere<T(==)>(keys: seq<T>, values: seq<int>, k: T): (total: int)
    requires |keys| == |values|
    ensures (forall i :: 0 <= i < |values| ==> 0 <= values[i] <= 1) ==> 0 <= total <= Count(keys, k)
    ensures k !in keys ==> total == 0
    decreases |keys|
  {
    if keys == [] then 0
    else
      var m := |keys| - 1;
      SumWhere(keys[..m], values[..m], k) + (if keys[m] == k then values[m] else 0)
  }

  lemma CountSnoc<T>(s: seq<T>, y: T, x: T)
    ensures Count(s + [y], x) == Count(s, x) + (if y == x then 1 else 0)
  {
    assert (s + [y])[..|s|] == s;
  }

  lemma SumWhereSnoc<T>(keys: seq<T>, values: seq<int>, y: T, v: int, x: T)
    requires |keys| == |values|
    ensures SumWhere(keys + [y], values + [v], x) == SumWhere(keys, values, x) + (if y == x then v else 0)
  {
    assert (keys + [y])[..|keys|] == keys && (values + [v])[..|keys|] == values;
  }

  lemma SumSnoc(s: seq<int>, v: int)
    ensures Sum(s + [v]) == Sum(s) + v
  {
    SumOfSnoc(s, v, Identity);
  }

  /** Summing from the front also adds a last element last. */
  lemma {:induction false} SumOfSnoc<T>(s: seq<T>, x: T, f: T -> int)
    ensures SumOf(s + [x], f) == SumOf(s, f) + f(x)
    decreases |s|
  {
    if s == [] {
      assert s + [x] == [x];
    } else {
      assert (s + [x])[1..] == s[1..] + [x];
      SumOfSnoc(s[1..], x, f);
    }
  }

  /** Sum of `f` over the elements of `s`, taken from the front. */
  function SumOf<T>(s: seq<T>, f: T -> int): int
    decreases |s|
  {
    if s == [] then 0 else f(s[0]) + SumOf(s[1..], f)
  }

  /** The first `n` elements of `s`, or all of them when there are fewer
      (Python's `xs[:n]`). */
  function Head<T>(s: seq<T>, n: nat): (r: seq<T>)
    ensures |r| == if |s| < n then |s| else n
    ensures r == s[..|r|]
  {
    s[..if |s| < n then |s| else n]
  }

  /** No two elements of `s` agree on `f`. */
  predicate DistinctBy<T, K(==)>(s: seq<T>, f: T -> K) {
    forall i, j :: 0 <= i < j < |s| ==> f(s[i]) != f(s[j])
  }

  /** The image of `s` under `f`, position by position. */
  function MapSeq<T, U>(s: seq<T>, f: T -> U): (r: seq<U>)
    ensures |r| == |s|
    ensures forall i :: 0 <= i < |s| ==> r[i] == f(s[i])
  {
    seq(|s|, i requires 0 <= i < |s| => f(s[i]))
  }
}
