/** Group-by with a count and a sum per group: the groups, sizes and sums
    of `df.groupby(col, dropna=False).agg(size, sum)`. Groups are built row
    by row: a row whose key already has a group bumps that group, any other
    row opens a new group at the end. The groups therefore come in
    first-occurrence order, whereas pandas (`sort=True` by default) lists
    them in sorted key order; the set of groups and each group's figures
    are the same. */
module Grouping {
  import opened Seqs

  /** One group: its key, the number of rows with that key, and the sum of
      their values. */
  datatype Group = Group(key: string, size: nat, total: int)

  function KeyOf(g: Group): string { g.key }
  function SizeOf(g: Group): int { g.size }
  function TotalOf(g: Group): int { g.total }

  /** No key labels two groups. */
  predicate DistinctKeys(gs: seq<Group>) {
    DistinctBy(gs, KeyOf)
  }

  /** The group keys in order. */
  function Keys(gs: seq<Group>): (ks: seq<string>)
    ensures |ks| == |gs|
    ensures forall i :: 0 <= i < |gs| ==> ks[i] == gs[i].key
  {
    MapSeq(gs, KeyOf)
  }

  /** Adds one row with key `k` and value `v` to the groups `gs`: the first
      group with key `k` gains the row, or a new group is opened at the end. */
  function Tally(gs: seq<Group>, k: string, v: int): (r: seq<Group>)
    ensures |gs| <= |r| <= |gs| + 1
    decreases |gs|
  {
    if gs == [] then [Group(k, 1, v)]
    else if gs[0].key == k then [Group(k, gs[0].size + 1, gs[0].total + v)] + gs[1..]
    else [gs[0]] + Tally(gs[1..], k, v)
  }

  lemma KeysTail(gs: seq<Group>)
    requires gs != []
    ensures forall x :: x in Keys(gs) <==> x == gs[0].key || x in Keys(gs[1..])
  {
    assert Keys(gs) == [gs[0].key] + Keys(gs[1..]);
  }

  lemma DistinctTail(gs: seq<Group>)
    requires gs != [] && DistinctKeys(gs)
    ensures DistinctKeys(gs[1..])
    ensures forall i :: 0 < i < |gs| ==> gs[i].key != gs[0].key
  {
    var tail := gs[1..];
    forall i, j | 0 <= i < j < |tail| ensures tail[i].key != tail[j].key {
      assert tail[i] == gs[i + 1] && tail[j] == gs[j + 1];
    }
  }

  /** A tally opens a new group exactly when no group has key `k`. */
  lemma {:induction false} TallyLength(gs: seq<Group>, k: string, v: int)
    ensures |Tally(gs, k, v)| == if k in Keys(gs) then |gs| else |gs| + 1
    decreases |gs|
  {
    if gs != [] {
      KeysTail(gs);
      if gs[0].key != k {
        TallyLength(gs[1..], k, v);
      }
    }
  }

  /** With distinct keys, a tally bumps the group with key `k` and leaves
      every other group alone. */
  lemma {:induction false} TallyAt(gs: seq<Group>, k: string, v: int)
    requires DistinctKeys(gs)
    ensures forall i :: 0 <= i < |gs| ==>
      Tally(gs, k, v)[i] == (if gs[i].key == k then Group(k, gs[i].size + 1, gs[i].total + v) else gs[i])
    decreases |gs|
  {
    if gs != [] {
      var r, tail := Tally(gs, k, v), gs[1..];
      DistinctTail(gs);
      if gs[0].key == k {
        assert r[1..] == tail;
      } else {
        TallyAt(tail, k, v);
        var rest := Tally(tail, k, v);
        assert r == [gs[0]] + rest;
        forall i | 0 < i < |gs| ensures r[i] == rest[i - 1] && gs[i] == tail[i - 1] {
        }
      }
    }
  }

  /** A key without a group gets a new last group holding just this row. */
  lemma {:induction false} TallyNew(gs: seq<Group>, k: string, v: int)
    requires k !in Keys(gs)
    ensures |Tally(gs, k, v)| == |gs| + 1 && Tally(gs, k, v)[|gs|] == Group(k, 1, v)
    decreases |gs|
  {
    if gs != [] {
      KeysTail(gs);
      TallyNew(gs[1..], k, v);
      assert Tally(gs, k, v) == [gs[0]] + Tally(gs[1..], k, v);
    }
  }

  /** A tally adds one to the total size and `v` to the total of the values. */
  lemma {:induction false} TallySums(gs: seq<Group>, k: string, v: int)
    ensures SumOf(Tally(gs, k, v), SizeOf) == SumOf(gs, SizeOf) + 1
    ensures SumOf(Tally(gs, k, v), TotalOf) == SumOf(gs, TotalOf) + v
    decreases |gs|
  {
    if gs != [] {
      var r := Tally(gs, k, v);
      if gs[0].key == k {
        assert r[1..] == gs[1..];
      } else {
        TallySums(gs[1..], k, v);
        assert r[1..] == Tally(gs[1..], k, v);
      }
    }
  }

  /** A tally keeps the group keys distinct. */
  lemma TallyDistinct(gs: seq<Group>, k: string, v: int)
    requires DistinctKeys(gs)
    ensures DistinctKeys(Tally(gs, k, v))
  {
    var r := Tally(gs, k, v);
    TallyLength(gs, k, v);
    TallyAt(gs, k, v);
    if k !in Keys(gs) {
      TallyNew(gs, k, v);
      forall i | 0 <= i < |gs| ensures gs[i].key != k {
        assert Keys(gs)[i] == gs[i].key;
      }
    }
    forall i, j | 0 <= i < j < |r| ensures r[i].key != r[j].key {
      if j < |gs| {
        assert gs[i].key != gs[j].key;
      }
    }
  }

  /** After a tally the group keys are the old ones, plus `k`. */
  lemma TallyKeys(gs: seq<Group>, k: string, v: int)
    requires DistinctKeys(gs)
    ensures forall x :: x in Keys(Tally(gs, k, v)) <==> x in Keys(gs) || x == k
  {
    TallyKeysFrom(gs, k, v);
    TallyKeysTo(gs, k, v);
  }

  lemma TallyKeysFrom(gs: seq<Group>, k: string, v: int)
    requires DistinctKeys(gs)
    ensures forall x :: x in Keys(Tally(gs, k, v)) ==> x in Keys(gs) || x == k
  {
    var r := Tally(gs, k, v);
    TallyAt(gs, k, v);
    forall x | x in Keys(r) ensures x in Keys(gs) || x == k {
      var i :| 0 <= i < |r| && Keys(r)[i] == x;
      if i < |gs| {
        assert Keys(gs)[i] == x;
      } else {
        TallyLength(gs, k, v);
        TallyNew(gs, k, v);
      }
    }
  }

  lemma TallyKeysTo(gs: seq<Group>, k: string, v: int)
    requires DistinctKeys(gs)
    ensures forall x :: x in Keys(gs) || x == k ==> x in Keys(Tally(gs, k, v))
  {
    var r := Tally(gs, k, v);
    TallyLength(gs, k, v);
    TallyAt(gs, k, v);
    forall x | x in Keys(gs) ensures x in Keys(r) {
      var i :| 0 <= i < |gs| && Keys(gs)[i] == x;
      assert Keys(r)[i] == x;
    }
    if k !in Keys(gs) {
      TallyNew(gs, k, v);
      assert Keys(r)[|gs|] == k;
    }
  }

  /** `gs` is the group-by of `keys` with values `values`: one group per
      distinct key, holding that key's row count and value sum, and the
      counts and sums over all groups add up to the whole input. */
  ghost predicate Summarises(keys: seq<string>, values: seq<int>, gs: seq<Group>)
    requires |keys| == |values|
  {
    && DistinctKeys(gs)
    && (forall k :: k in Keys(gs) <==> k in keys)
    && GroupsCounted(keys, values, gs)
    && SumOf(gs, SizeOf) == |keys|
    && SumOf(gs, TotalOf) == Sum(values)
  }

  /** `size` is the number of rows with key `key` (at least one) and
      `total` the sum of their values. */
  predicate Counted(keys: seq<string>, values: seq<int>, key: string, size: int, total: int)
    requires |keys| == |values|
  {
    1 <= size == Count(keys, key) && total == SumWhere(keys, values, key)
  }

  /** Each group holds its key's row count and value sum. */
  predicate GroupsCounted(keys: seq<string>, values: seq<int>, gs: seq<Group>)
    requires |keys| == |values|
  {
    forall i :: 0 <= i < |gs| ==> Counted(keys, values, gs[i].key, gs[i].size, gs[i].total)
  }

  /** Tallying one more row keeps every group's count and sum right. */
  lemma TallyCounted(keys: seq<string>, values: seq<int>, gs: seq<Group>, k: string, v: int)
    requires |keys| == |values| && DistinctKeys(gs) && GroupsCounted(keys, values, gs)
    requires forall x :: x in Keys(gs) <==> x in keys
    ensures GroupsCounted(keys + [k], values + [v], Tally(gs, k, v))
  {
    var keys', values', r := keys + [k], values + [v], Tally(gs, k, v);
    TallyLength(gs, k, v);
    TallyAt(gs, k, v);
    if k !in Keys(gs) {
      TallyNew(gs, k, v);
    }
    forall i | 0 <= i < |r|
      ensures 1 <= r[i].size == Count(keys', r[i].key) && r[i].total == SumWhere(keys', values', r[i].key)
    {
      CountSnoc(keys, k, r[i].key);
      SumWhereSnoc(keys, values, k, v, r[i].key);
      if i == |gs| {
        assert k !in keys;
      }
    }
  }

  /** Adding one row to the input and tallying it into the groups keeps them
      the group-by of the longer input. */
  lemma TallySummarises(keys: seq<string>, values: seq<int>, gs: seq<Group>, k: string, v: int)
    requires |keys| == |values| && Summarises(keys, values, gs)
    ensures Summarises(keys + [k], values + [v], Tally(gs, k, v))
  {
    var keys' := keys + [k];
    TallyDistinct(gs, k, v);
    TallyKeys(gs, k, v);
    TallyCounted(keys, values, gs, k, v);
    TallySums(gs, k, v);
    SumSnoc(values, v);
    forall x ensures x in keys' <==> x in keys || x == k {
      CountSnoc(keys, k, x);
    }
  }

  /** The group-by of `keys` with values `values`, in order of first
      occurrence, built by tallying the rows one after another. */
  function Aggregate(keys: seq<string>, values: seq<int>): seq<Group>
    requires |keys| == |values|
    decreases |keys|
  {
    if keys == [] then []
    else
      var m := |keys| - 1;
      Tally(Aggregate(keys[..m], values[..m]), keys[m], values[m])
  }

  /** `Aggregate` computes the group-by of its input. */
  lemma {:induction false} AggregateSummarises(keys: seq<string>, values: seq<int>)
    requires |keys| == |values|
    ensures Summarises(keys, values, Aggregate(keys, values))
    decreases |keys|
  {
    if keys != [] {
      var m := |keys| - 1;
      AggregateSummarises(keys[..m], values[..m]);
      TallySummarises(keys[..m], values[..m], Aggregate(keys[..m], values[..m]), keys[m], values[m]);
      assert keys == keys[..m] + [keys[m]] && values == values[..m] + [values[m]];
    }
  }
}
