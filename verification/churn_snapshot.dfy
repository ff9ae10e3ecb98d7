/** The churn-risk snapshot pipeline: normalise the headers of the user
    table, turn the Yes/No churn column into a 0/1 `churn_flag`, then count
    users and churned users per payment status and order the statuses by
    churn rate. Each step builds a new table from its argument. */
module ChurnSnapshot {
  import opened Seqs
  import opened Ordering
  import opened Grouping
  import opened SnakeCase
  import opened Frame

  const DefaultChurnColumn: string := "churn_status_yesno"
  const DefaultPaymentColumn: string := "payment_history_ontimedelayed"
  const FlagColumn: string := "churn_flag"
  /** How many column names a missing-column error lists. */
  const ColumnsShown: nat := 15
  /** How many distinct unexpected churn values an unmappable error lists. */
  const ExamplesShown: nat := 10

  /** One line of `value_counts`: a value and how often it occurs. */
  datatype ValueCount = ValueCount(value: string, count: nat)

  datatype Error =
    | MissingFile(path: string)
    | MissingColumn(expected: string, available: seq<string>)
    | Unmappable(examples: seq<ValueCount>)

  datatype Result<T> = Success(value: T) | Failure(error: Error)

  /** One line of the KPI table. */
  datatype SummaryRow = SummaryRow(paymentStatus: string, users: nat, churned: int, churnRate: real)

  /** The column occurs at most once, so `df[name]` denotes a single column. */
  predicate AtMostOnce(columns: seq<string>, name: string) {
    Count(columns, name) <= 1
  }

  // ---------------------------------------------------------------- headers

  /** `standardise_columns`: a copy with every header normalised and the rows as they were. */
  function StandardiseColumns(t: Table): (r: Table)
    ensures r.rows == t.rows
    ensures |r.columns| == |t.columns|
    ensures forall j :: 0 <= j < |t.columns| ==> r.columns[j] == ToSnakeCase(t.columns[j])
  {
    Table(MapSeq(t.columns, ToSnakeCase), t.rows)
  }

  /** Standardising keeps the table well formed and is idempotent. */
  lemma StandardiseIdempotent(t: Table)
    ensures WellFormed(t) ==> WellFormed(StandardiseColumns(t))
    ensures StandardiseColumns(StandardiseColumns(t)) == StandardiseColumns(t)
  {
    var r := StandardiseColumns(t);
    forall j | 0 <= j < |t.columns| ensures ToSnakeCase(r.columns[j]) == r.columns[j] {
      SnakeCaseIdempotent(t.columns[j]);
    }
  }

  /** ASCII headers become names over `a`-`z`, `0`-`9` and `_`. */
  lemma StandardiseAlphabet(t: Table)
    requires forall j :: 0 <= j < |t.columns| ==> IsAscii(t.columns[j])
    ensures forall j, i :: 0 <= j < |t.columns| && 0 <= i < |StandardiseColumns(t).columns[j]| ==>
      var c := StandardiseColumns(t).columns[j][i]; 'a' <= c <= 'z' || '0' <= c <= '9' || c == '_'
  {
    forall j | 0 <= j < |t.columns| {
      SnakeCaseAlphabet(t.columns[j]);
    }
  }

  /** The dataset's churn header turns into the default churn column. */
  lemma StandardiseChurnHeader(t: Table, j: nat)
    requires j < |t.columns| && t.columns[j] == "Churn Status (Yes/No)"
    ensures StandardiseColumns(t).columns[j] == DefaultChurnColumn
  {
    ChurnHeader();
  }

  // ------------------------------------------------------------- churn flag

  /** `astype(str).str.strip().str.lower()` of one churn cell. */
  function ChurnValue(c: Cell): string {
    Lower(Strip(CellText(c)))
  }

  /** A normalised churn value has no whitespace at either end and no
      upper-case letter, and is never longer than the cell's text; a text
      without whitespace is only lower-cased. */
  lemma ChurnValueSpec(c: Cell)
    ensures var v := ChurnValue(c);
      && |v| <= |CellText(c)|
      && (v == [] || (!IsSpace(v[0]) && !IsSpace(v[|v| - 1])))
      && (forall i :: 0 <= i < |v| ==> !IsUpper(v[i]))
      && (NoSpace(CellText(c)) ==> v == Lower(CellText(c)))
  {
    var s := CellText(c);
    var r := Strip(s);
    StripSpec(s);
    LowerSpaces(r);
  }

  /** The value `map({"yes": 1, "no": 0})` has an entry for. */
  predicate Mappable(v: string) {
    v == "yes" || v == "no"
  }

  function ChurnValues(t: Table, col: string): (vs: seq<string>)
    requires WellFormed(t) && col in t.columns
    ensures |vs| == |t.rows|
    ensures forall i :: 0 <= i < |t.rows| ==> vs[i] == ChurnValue(Column(t, col)[i])
  {
    MapSeq(Column(t, col), ChurnValue)
  }

  /** The normalised values the mapping has no entry for, in row order. */
  function Unmapped(vs: seq<string>): seq<string>
    decreases |vs|
  {
    if vs == [] then []
    else
      var m := |vs| - 1;
      Unmapped(vs[..m]) + (if Mappable(vs[m]) then [] else [vs[m]])
  }

  lemma {:induction false} UnmappedCounts(vs: seq<string>)
    ensures forall v :: Count(Unmapped(vs), v) == if Mappable(v) then 0 else Count(vs, v)
    decreases |vs|
  {
    if vs != [] {
      var m := |vs| - 1;
      var prev := Unmapped(vs[..m]);
      UnmappedCounts(vs[..m]);
      assert vs == vs[..m] + [vs[m]];
      forall v ensures Count(Unmapped(vs), v) == if Mappable(v) then 0 else Count(vs, v) {
        CountSnoc(vs[..m], vs[m], v);
        if !Mappable(vs[m]) {
          CountSnoc(prev, vs[m], v);
        } else {
          assert Unmapped(vs) == prev;
        }
      }
    }
  }

  /** The unmapped values occur exactly as often as in the column, and
      nothing is unmapped exactly when every value is mappable. */
  lemma UnmappedSpec(vs: seq<string>)
    ensures forall v :: Count(Unmapped(vs), v) == if Mappable(v) then 0 else Count(vs, v)
    ensures Unmapped(vs) == [] <==> forall i :: 0 <= i < |vs| ==> Mappable(vs[i])
  {
    UnmappedCounts(vs);
    if Unmapped(vs) == [] {
      forall i | 0 <= i < |vs| ensures Mappable(vs[i]) {
        assert Count(Unmapped(vs), vs[i]) == 0;
        assert Count(vs, vs[i]) > 0;
      }
    } else {
      var b := Unmapped(vs)[0];
      assert Count(Unmapped(vs), b) > 0;
      var i :| 0 <= i < |vs| && vs[i] == b;
    }
  }

  function ValueOf(vc: ValueCount): string { vc.value }
  function CountOf(vc: ValueCount): real { vc.count as real }
  function GroupCount(g: Group): ValueCount { ValueCount(g.key, g.size) }

  function Zeros(n: nat): (z: seq<int>)
    ensures |z| == n
  {
    seq(n, _ => 0)
  }

  /** `value_counts()` before sorting: one entry per distinct value, in
      order of first occurrence. */
  function ValueCounts(vs: seq<string>): seq<ValueCount> {
    MapSeq(Aggregate(vs, Zeros(|vs|)), GroupCount)
  }

  /** `value_counts().head(n)`: the `n` most frequent values, most frequent first. */
  function MostFrequent(vs: seq<string>, n: nat): seq<ValueCount> {
    Head(SortDesc(ValueCounts(vs), CountOf), n)
  }

  /** Every entry of `s` is a value of `vs` with its number of occurrences. */
  predicate CountsIn(vs: seq<string>, s: seq<ValueCount>) {
    forall i :: 0 <= i < |s| ==> 1 <= s[i].count == Count(vs, s[i].value)
  }

  /** Every value of `vs` has an entry in `s`. */
  predicate Covers(vs: seq<string>, s: seq<ValueCount>) {
    forall i :: 0 <= i < |vs| ==> vs[i] in MapSeq(s, ValueOf)
  }

  /** The unsorted counts: one entry per distinct value, each with its
      number of occurrences. */
  lemma ValueCountsSpec(vs: seq<string>)
    ensures CountsIn(vs, ValueCounts(vs))
    ensures DistinctBy(ValueCounts(vs), ValueOf)
    ensures Covers(vs, ValueCounts(vs))
  {
    var gs := Aggregate(vs, Zeros(|vs|));
    var u := ValueCounts(vs);
    AggregateSummarises(vs, Zeros(|vs|));
    forall i | 0 <= i < |vs| ensures vs[i] in MapSeq(u, ValueOf) {
      assert vs[i] in Keys(gs);
      var k :| 0 <= k < |gs| && Keys(gs)[k] == vs[i];
      assert MapSeq(u, ValueOf)[k] == vs[i];
    }
  }

  /** Rearranging the entries keeps them counted. */
  lemma CountsInPermutation(vs: seq<string>, u: seq<ValueCount>, s: seq<ValueCount>)
    requires multiset(s) == multiset(u) && CountsIn(vs, u)
    ensures CountsIn(vs, s)
  {
    forall i | 0 <= i < |s| ensures 1 <= s[i].count == Count(vs, s[i].value) {
      assert s[i] in multiset(u);
    }
  }

  /** Rearranging the entries keeps every value covered. */
  lemma CoversPermutation(vs: seq<string>, u: seq<ValueCount>, s: seq<ValueCount>)
    requires multiset(s) == multiset(u) && Covers(vs, u)
    ensures Covers(vs, s)
  {
    forall i | 0 <= i < |vs| ensures vs[i] in MapSeq(s, ValueOf) {
      var k :| 0 <= k < |u| && MapSeq(u, ValueOf)[k] == vs[i];
      assert u[k] in multiset(s);
      var p :| 0 <= p < |s| && s[p] == u[k];
      assert MapSeq(s, ValueOf)[p] == vs[i];
    }
  }

  /** The sorted counts: each entry is a value with its count, values are
      distinct, counts never increase, and every value has an entry. */
  lemma SortedCountsSpec(vs: seq<string>)
    ensures CountsIn(vs, SortDesc(ValueCounts(vs), CountOf))
    ensures DistinctBy(SortDesc(ValueCounts(vs), CountOf), ValueOf)
    ensures SortedDesc(SortDesc(ValueCounts(vs), CountOf), CountOf)
    ensures Covers(vs, SortDesc(ValueCounts(vs), CountOf))
  {
    var u := ValueCounts(vs);
    var s := SortDesc(u, CountOf);
    ValueCountsSpec(vs);
    SortDescSpec(u, CountOf);
    DistinctBySortDesc(u, CountOf, ValueOf);
    CountsInPermutation(vs, u, s);
    CoversPermutation(vs, u, s);
  }

  /** The first `n` entries of sorted, counted entries: a value left off
      is no more frequent than any listed one, and a short list is complete. */
  lemma {:induction false} HeadOfCounts(vs: seq<string>, s: seq<ValueCount>, n: nat)
    requires CountsIn(vs, s) && SortedDesc(s, CountOf) && Covers(vs, s)
    ensures forall i :: 0 <= i < |vs| && vs[i] !in MapSeq(Head(s, n), ValueOf) ==>
      |Head(s, n)| == n && forall j :: 0 <= j < |Head(s, n)| ==> Head(s, n)[j].count >= Count(vs, vs[i])
  {
    var ex := Head(s, n);
    forall i | 0 <= i < |vs| && vs[i] !in MapSeq(ex, ValueOf)
      ensures |ex| == n && forall j :: 0 <= j < |ex| ==> ex[j].count >= Count(vs, vs[i])
    {
      var p :| 0 <= p < |s| && MapSeq(s, ValueOf)[p] == vs[i];
      assert p >= |ex|;
      forall j | 0 <= j < |ex| ensures ex[j].count >= Count(vs, vs[i]) {
        assert CountOf(s[j]) >= CountOf(s[p]);
      }
    }
  }

  /** A prefix keeps the entries counted, distinct and sorted. */
  lemma HeadKeeps(vs: seq<string>, s: seq<ValueCount>, n: nat)
    requires CountsIn(vs, s) && SortedDesc(s, CountOf) && DistinctBy(s, ValueOf)
    ensures CountsIn(vs, Head(s, n)) && SortedDesc(Head(s, n), CountOf) && DistinctBy(Head(s, n), ValueOf)
  {
  }

  /** `value_counts().head(n)` lists distinct values of `vs` with their
      counts, most frequent first; a value left off the list is no more
      frequent than any listed one, and a list shorter than `n` is complete. */
  lemma MostFrequentSpec(vs: seq<string>, n: nat)
    ensures |MostFrequent(vs, n)| <= n
    ensures vs != [] && n > 0 ==> |MostFrequent(vs, n)| >= 1
    ensures CountsIn(vs, MostFrequent(vs, n))
    ensures DistinctBy(MostFrequent(vs, n), ValueOf)
    ensures SortedDesc(MostFrequent(vs, n), CountOf)
    ensures forall i :: 0 <= i < |vs| && vs[i] !in MapSeq(MostFrequent(vs, n), ValueOf) ==>
      |MostFrequent(vs, n)| == n && forall j :: 0 <= j < |MostFrequent(vs, n)| ==>
        MostFrequent(vs, n)[j].count >= Count(vs, vs[i])
  {
    var s := SortDesc(ValueCounts(vs), CountOf);
    SortedCountsSpec(vs);
    HeadKeeps(vs, s, n);
    HeadOfCounts(vs, s, n);
    if vs != [] && n > 0 {
      var p :| 0 <= p < |s| && MapSeq(s, ValueOf)[p] == vs[0];
    }
  }

  function TextCell(v: string): Cell { Text(v) }

  /** The flag `map` gives a mappable value. */
  function FlagCell(v: string): Cell { Int(if v == "yes" then 1 else 0) }

  /** `map_churn_flag`: fails when the churn column is absent; otherwise
      writes the normalised churn values back, and either fails listing the
      most frequent values with no mapping or adds `churn_flag`. */
  function MapChurnFlag(t: Table, churnCol: string): (r: Result<Table>)
    requires WellFormed(t)
    requires churnCol in t.columns ==> AtMostOnce(t.columns, churnCol) && AtMostOnce(t.columns, FlagColumn)
    ensures r.Success? ==> WellFormed(r.value)
  {
    if churnCol !in t.columns then Failure(MissingColumn(churnCol, Head(t.columns, ColumnsShown)))
    else
      var vs := ChurnValues(t, churnCol);
      var t1 := SetColumn(t, churnCol, MapSeq(vs, TextCell));
      var bad := Unmapped(vs);
      if bad != [] then
        // With the churn column named `churn_flag`, the offending cells hold
        // no value once the flags are written, and `value_counts` skips them.
        Failure(Unmappable(if churnCol == FlagColumn then [] else MostFrequent(bad, ExamplesShown)))
      else
        Success(SetColumn(t1, FlagColumn, MapSeq(vs, FlagCell)))
  }

  /** A missing churn column is reported with the first 15 column names. */
  lemma MapChurnFlagMissing(t: Table, churnCol: string)
    requires WellFormed(t)
    requires churnCol in t.columns ==> AtMostOnce(t.columns, churnCol) && AtMostOnce(t.columns, FlagColumn)
    ensures var r := MapChurnFlag(t, churnCol);
      (r.Failure? && r.error.MissingColumn?) <==> churnCol !in t.columns
    ensures churnCol !in t.columns ==> MapChurnFlag(t, churnCol).error.expected == churnCol
    ensures churnCol !in t.columns ==>
      var cols := MapChurnFlag(t, churnCol).error.available;
      |cols| == (if |t.columns| < ColumnsShown then |t.columns| else ColumnsShown) && cols == t.columns[..|cols|]
  {
  }

  /** With the column present, the mapping succeeds exactly when every
      normalised churn value is `yes` or `no`. */
  lemma MapChurnFlagSucceeds(t: Table, churnCol: string)
    requires WellFormed(t) && churnCol in t.columns
    requires AtMostOnce(t.columns, churnCol) && AtMostOnce(t.columns, FlagColumn)
    ensures MapChurnFlag(t, churnCol).Success? <==>
      forall i :: 0 <= i < |t.rows| ==> Mappable(ChurnValue(Column(t, churnCol)[i]))
  {
    UnmappedSpec(ChurnValues(t, churnCol));
  }

  /** The table `churn_by_payment` expects: a single `churn_flag` column of integers. */
  predicate FlagColumnReady(t: Table) {
    && WellFormed(t)
    && FlagColumn in t.columns
    && AtMostOnce(t.columns, FlagColumn)
    && forall i :: 0 <= i < |t.rows| ==> Column(t, FlagColumn)[i].Int?
  }

  /** The two tables `map_churn_flag` builds on success: the churn column
      rewritten, then the flag column written. */
  function NormalisedTable(t: Table, churnCol: string): (t1: Table)
    requires WellFormed(t) && churnCol in t.columns
    ensures WellFormed(t1) && |t1.rows| == |t.rows| && t1.columns == t.columns
  {
    SetColumn(t, churnCol, MapSeq(ChurnValues(t, churnCol), TextCell))
  }

  /** On success the result is the normalised table with the flags written. */
  lemma MapChurnFlagValue(t: Table, churnCol: string)
    requires WellFormed(t) && churnCol in t.columns
    requires AtMostOnce(t.columns, churnCol) && AtMostOnce(t.columns, FlagColumn)
    requires MapChurnFlag(t, churnCol).Success?
    ensures MapChurnFlag(t, churnCol).value ==
      SetColumn(NormalisedTable(t, churnCol), FlagColumn, MapSeq(ChurnValues(t, churnCol), FlagCell))
    ensures forall i :: 0 <= i < |t.rows| ==> Mappable(ChurnValues(t, churnCol)[i])
  {
    UnmappedSpec(ChurnValues(t, churnCol));
  }

  /** On success the result keeps the rows, gains `churn_flag` as its last
      column unless it had one, and is ready for `churn_by_payment`. */
  lemma MapChurnFlagShape(t: Table, churnCol: string)
    requires WellFormed(t) && churnCol in t.columns
    requires AtMostOnce(t.columns, churnCol) && AtMostOnce(t.columns, FlagColumn)
    requires MapChurnFlag(t, churnCol).Success?
    ensures FlagColumnReady(MapChurnFlag(t, churnCol).value)
    ensures |MapChurnFlag(t, churnCol).value.rows| == |t.rows|
    ensures MapChurnFlag(t, churnCol).value.columns ==
      (if FlagColumn in t.columns then t.columns else t.columns + [FlagColumn])
  {
    var t1 := NormalisedTable(t, churnCol);
    MapChurnFlagValue(t, churnCol);
    SetColumnCount(t1, FlagColumn, MapSeq(ChurnValues(t, churnCol), FlagCell), FlagColumn);
  }

  /** On success `churn_flag` is 1 where the normalised value is `yes` and
      0 where it is `no`, and every normalised value is one of the two. */
  lemma MapChurnFlagFlags(t: Table, churnCol: string)
    requires WellFormed(t) && churnCol in t.columns
    requires AtMostOnce(t.columns, churnCol) && AtMostOnce(t.columns, FlagColumn)
    requires MapChurnFlag(t, churnCol).Success?
    ensures FlagColumn in MapChurnFlag(t, churnCol).value.columns
    ensures forall i :: 0 <= i < |t.rows| ==>
      var v := ChurnValue(Column(t, churnCol)[i]);
      && Mappable(v)
      && Column(MapChurnFlag(t, churnCol).value, FlagColumn)[i] == Int(if v == "yes" then 1 else 0)
  {
    MapChurnFlagValue(t, churnCol);
  }

  /** On success the churn column holds the normalised values (unless it is
      `churn_flag` itself, which the flags overwrite), and every other
      column is kept. */
  lemma MapChurnFlagKeeps(t: Table, churnCol: string)
    requires WellFormed(t) && churnCol in t.columns
    requires AtMostOnce(t.columns, churnCol) && AtMostOnce(t.columns, FlagColumn)
    requires MapChurnFlag(t, churnCol).Success?
    ensures churnCol != FlagColumn ==> forall i :: 0 <= i < |t.rows| ==>
      Column(MapChurnFlag(t, churnCol).value, churnCol)[i] == Text(ChurnValue(Column(t, churnCol)[i]))
    ensures forall other :: other in t.columns && other != churnCol && other != FlagColumn ==>
      Column(MapChurnFlag(t, churnCol).value, other) == Column(t, other)
  {
    var vs := ChurnValues(t, churnCol);
    var t1 := NormalisedTable(t, churnCol);
    MapChurnFlagValue(t, churnCol);
    forall other | other in t.columns && other != churnCol && other != FlagColumn
      ensures Column(MapChurnFlag(t, churnCol).value, other) == Column(t, other)
    {
      SetColumnKeepsOthers(t, churnCol, MapSeq(vs, TextCell), other);
      SetColumnKeepsOthers(t1, FlagColumn, MapSeq(vs, FlagCell), other);
    }
    if churnCol != FlagColumn {
      SetColumnKeepsOthers(t1, FlagColumn, MapSeq(vs, FlagCell), churnCol);
    }
  }

  /** Writing a column keeps the number of occurrences of any label at most one. */
  lemma SetColumnCount(t: Table, name: string, cells: seq<Cell>, other: string)
    requires WellFormed(t) && |cells| == |t.rows| && AtMostOnce(t.columns, other)
    ensures AtMostOnce(SetColumn(t, name, cells).columns, other)
    ensures other == name ==> Count(SetColumn(t, name, cells).columns, other) == 1
  {
    if name !in t.columns {
      CountSnoc(t.columns, name, other);
    } else if other == name {
      assert Count(t.columns, other) > 0;
    }
  }

  /** The listed unexpected values, described in terms of the whole column `vs`. */
  lemma {:induction false} UnmappedExamples(vs: seq<string>)
    requires Unmapped(vs) != []
    ensures 1 <= |MostFrequent(Unmapped(vs), ExamplesShown)| <= ExamplesShown
    ensures forall i :: 0 <= i < |MostFrequent(Unmapped(vs), ExamplesShown)| ==>
      var e := MostFrequent(Unmapped(vs), ExamplesShown)[i];
      !Mappable(e.value) && 1 <= e.count == Count(vs, e.value)
    ensures DistinctBy(MostFrequent(Unmapped(vs), ExamplesShown), ValueOf)
    ensures SortedDesc(MostFrequent(Unmapped(vs), ExamplesShown), CountOf)
    ensures forall i :: 0 <= i < |vs| && !Mappable(vs[i]) && vs[i] !in MapSeq(MostFrequent(Unmapped(vs), ExamplesShown), ValueOf) ==>
      var ex := MostFrequent(Unmapped(vs), ExamplesShown);
      |ex| == ExamplesShown && forall j :: 0 <= j < |ex| ==> ex[j].count >= Count(vs, vs[i])
  {
    var bad := Unmapped(vs);
    var ex := MostFrequent(bad, ExamplesShown);
    UnmappedSpec(vs);
    MostFrequentSpec(bad, ExamplesShown);
    forall i | 0 <= i < |ex| ensures !Mappable(ex[i].value) && 1 <= ex[i].count == Count(vs, ex[i].value) {
      assert Count(bad, ex[i].value) >= 1;
    }
    forall i | 0 <= i < |vs| && !Mappable(vs[i]) && vs[i] !in MapSeq(ex, ValueOf)
      ensures |ex| == ExamplesShown && forall j :: 0 <= j < |ex| ==> ex[j].count >= Count(vs, vs[i])
    {
      assert Count(bad, vs[i]) == Count(vs, vs[i]) > 0;
      var k :| 0 <= k < |bad| && bad[k] == vs[i];
    }
  }

  /** On an unmappable value: the error lists between 1 and 10 distinct
      offending values, each with its number of occurrences in the churn
      column, most frequent first; an offending value left off the list
      occurs no more often than any listed one, and a list shorter than 10
      holds every offending value. */
  lemma MapChurnFlagExamples(t: Table, churnCol: string)
    requires WellFormed(t) && churnCol in t.columns && churnCol != FlagColumn
    requires AtMostOnce(t.columns, churnCol) && AtMostOnce(t.columns, FlagColumn)
    requires MapChurnFlag(t, churnCol).Failure?
    ensures var ex := MapChurnFlag(t, churnCol).error.examples;
      var vs := ChurnValues(t, churnCol);
      && MapChurnFlag(t, churnCol).error.Unmappable?
      && 1 <= |ex| <= ExamplesShown
      && (forall i :: 0 <= i < |ex| ==> !Mappable(ex[i].value) && 1 <= ex[i].count == Count(vs, ex[i].value))
      && DistinctBy(ex, ValueOf)
      && SortedDesc(ex, CountOf)
      && (forall i :: 0 <= i < |vs| && !Mappable(vs[i]) && vs[i] !in MapSeq(ex, ValueOf) ==>
            |ex| == ExamplesShown && forall j :: 0 <= j < |ex| ==> ex[j].count >= Count(vs, vs[i]))
  {
    UnmappedExamples(ChurnValues(t, churnCol));
  }

  /** When the churn column is itself `churn_flag`, the error lists no examples. */
  lemma MapChurnFlagOnFlagColumn(t: Table)
    requires WellFormed(t) && FlagColumn in t.columns && AtMostOnce(t.columns, FlagColumn)
    requires MapChurnFlag(t, FlagColumn).Failure?
    ensures MapChurnFlag(t, FlagColumn).error == Unmappable([])
  {
  }

  // -------------------------------------------------------- churn by payment

  /** `astype(str).str.strip()` of one payment cell. */
  function PaymentValue(c: Cell): string {
    Strip(CellText(c))
  }

  /** A payment status is the cell's text with its whitespace margins cut
      off: text without whitespace, and the decimal text of an integer, is
      kept as it is. */
  lemma PaymentValueSpec(c: Cell)
    ensures var v := PaymentValue(c);
      && |v| <= |CellText(c)|
      && (v == [] || (!IsSpace(v[0]) && !IsSpace(v[|v| - 1])))
      && (NoSpace(CellText(c)) ==> v == CellText(c))
      && (c.Int? ==> v == CellText(c))
  {
    var s := CellText(c);
    StripSpec(s);
    assert c.Int? ==> NoSpace(s);
  }

  function PaymentValues(t: Table, col: string): (ks: seq<string>)
    requires WellFormed(t) && col in t.columns
    ensures |ks| == |t.rows|
    ensures forall i :: 0 <= i < |t.rows| ==> ks[i] == PaymentValue(Column(t, col)[i])
  {
    MapSeq(Column(t, col), PaymentValue)
  }

  function FlagValue(c: Cell): int {
    match c
    case Int(n) => n
    case Text(_) => 0 // not reached on a table whose flag column is ready
  }

  function Flags(t: Table): (fs: seq<int>)
    requires FlagColumnReady(t)
    ensures |fs| == |t.rows|
    ensures forall i :: 0 <= i < |t.rows| ==> Column(t, FlagColumn)[i] == Int(fs[i])
  {
    MapSeq(Column(t, FlagColumn), FlagValue)
  }

  /** `churned / users`, for a group that has at least one user. */
  function Rate(churned: int, users: nat): real {
    if users == 0 then 0.0 else churned as real / users as real
  }

  function SummaryOf(g: Group): SummaryRow {
    SummaryRow(g.key, g.size, g.total, Rate(g.total, g.size))
  }

  function RateOf(r: SummaryRow): real { r.churnRate }
  function StatusOf(r: SummaryRow): string { r.paymentStatus }
  function UsersOf(r: SummaryRow): int { r.users }
  function ChurnedOf(r: SummaryRow): int { r.churned }

  /** `churn_by_payment`: fails when the payment column is absent; otherwise
      one row per trimmed payment value with its user count, churned count
      and churn rate, highest rate first. */
  function ChurnByPayment(t: Table, paymentCol: string): (r: Result<seq<SummaryRow>>)
    requires WellFormed(t)
    requires paymentCol in t.columns ==>
      FlagColumnReady(t) && paymentCol != FlagColumn && AtMostOnce(t.columns, paymentCol)
    ensures r.Failure? <==> paymentCol !in t.columns
  {
    if paymentCol !in t.columns then Failure(MissingColumn(paymentCol, Head(t.columns, ColumnsShown)))
    else
      Success(SortDesc(Summaries(t, paymentCol), RateOf))
  }

  /** A missing payment column is reported with the first 15 column names. */
  lemma ChurnByPaymentMissing(t: Table, paymentCol: string)
    requires WellFormed(t) && paymentCol !in t.columns
    ensures var e := ChurnByPayment(t, paymentCol).error;
      && e == MissingColumn(paymentCol, e.available)
      && |e.available| == (if |t.columns| < ColumnsShown then |t.columns| else ColumnsShown)
      && e.available == t.columns[..|e.available|]
  {
  }

  /** Sum of `f` over the image of `s` under `g`, when `f` after `g` is `h`. */
  lemma {:induction false} SumOfMapSeq<T, U>(s: seq<T>, g: T -> U, f: U -> int, h: T -> int)
    requires forall x :: f(g(x)) == h(x)
    ensures SumOf(MapSeq(s, g), f) == SumOf(s, h)
    decreases |s|
  {
    if s != [] {
      SumOfMapSeq(s[1..], g, f, h);
      assert MapSeq(s, g)[1..] == MapSeq(s[1..], g);
    }
  }

  /** The unsorted summary rows of a table: one per group, in first-occurrence
      order (pandas lists them in key order; the later sort by rate makes the
      two differ only among equal rates, whose order is not promised). */
  function Summaries(t: Table, paymentCol: string): seq<SummaryRow>
    requires FlagColumnReady(t) && paymentCol in t.columns
  {
    MapSeq(Aggregate(PaymentValues(t, paymentCol), Flags(t)), SummaryOf)
  }

  /** A summary row describes its payment status among the values `ks`
      with flags `fs`: its users are the rows with that status (at least
      one), its churned count is the sum of their flags, and its rate is
      churned over users. */
  predicate Describes(ks: seq<string>, fs: seq<int>, r: SummaryRow)
    requires |ks| == |fs|
  {
    && Counted(ks, fs, r.paymentStatus, r.users, r.churned)
    && r.churnRate == r.churned as real / r.users as real
  }

  lemma SummariesRows(t: Table, paymentCol: string)
    requires FlagColumnReady(t) && paymentCol in t.columns
    ensures forall k :: 0 <= k < |Summaries(t, paymentCol)| ==>
      Describes(PaymentValues(t, paymentCol), Flags(t), Summaries(t, paymentCol)[k])
  {
    var ks := PaymentValues(t, paymentCol);
    var gs := Aggregate(ks, Flags(t));
    var u := Summaries(t, paymentCol);
    AggregateSummarises(ks, Flags(t));
    forall k | 0 <= k < |u| ensures Describes(ks, Flags(t), u[k]) {
      assert u[k] == SummaryOf(gs[k]);
    }
  }

  /** Each summary row describes one payment status: its users are the rows
      with that status (at least one), its churned count is the sum of their
      flags, and its rate is churned over users. */
  lemma ChurnByPaymentRows(t: Table, paymentCol: string)
    requires FlagColumnReady(t) && paymentCol != FlagColumn && AtMostOnce(t.columns, paymentCol)
    requires paymentCol in t.columns
    ensures var rows := ChurnByPayment(t, paymentCol).value;
      var ks := PaymentValues(t, paymentCol);
      forall i :: 0 <= i < |rows| ==>
        && 1 <= rows[i].users == Count(ks, rows[i].paymentStatus)
        && rows[i].churned == SumWhere(ks, Flags(t), rows[i].paymentStatus)
        && rows[i].churnRate == rows[i].churned as real / rows[i].users as real
  {
    var u := Summaries(t, paymentCol);
    var rows := ChurnByPayment(t, paymentCol).value;
    SummariesRows(t, paymentCol);
    forall i | 0 <= i < |rows| ensures Describes(PaymentValues(t, paymentCol), Flags(t), rows[i]) {
      SortDescFrom(u, RateOf, i);
    }
  }

  /** The group labels are distinct, so the row statuses are too. */
  lemma SummariesDistinct(t: Table, paymentCol: string)
    requires FlagColumnReady(t) && paymentCol in t.columns
    ensures DistinctBy(Summaries(t, paymentCol), StatusOf)
  {
    AggregateSummarises(PaymentValues(t, paymentCol), Flags(t));
  }

  /** Every status of a row is a payment value. */
  lemma SummariesFrom(t: Table, paymentCol: string)
    requires FlagColumnReady(t) && paymentCol in t.columns
    ensures forall k :: 0 <= k < |Summaries(t, paymentCol)| ==>
      Summaries(t, paymentCol)[k].paymentStatus in PaymentValues(t, paymentCol)
  {
    var ks := PaymentValues(t, paymentCol);
    var gs := Aggregate(ks, Flags(t));
    var u := Summaries(t, paymentCol);
    AggregateSummarises(ks, Flags(t));
    forall k | 0 <= k < |u| ensures u[k].paymentStatus in ks {
      assert Keys(gs)[k] == u[k].paymentStatus;
    }
  }

  /** Every payment value is the status of a row. */
  lemma SummariesTo(t: Table, paymentCol: string)
    requires FlagColumnReady(t) && paymentCol in t.columns
    ensures forall x :: x in PaymentValues(t, paymentCol) ==> x in MapSeq(Summaries(t, paymentCol), StatusOf)
  {
    var ks := PaymentValues(t, paymentCol);
    var gs := Aggregate(ks, Flags(t));
    var u := Summaries(t, paymentCol);
    AggregateSummarises(ks, Flags(t));
    forall x | x in ks ensures x in MapSeq(u, StatusOf) {
      assert x in Keys(gs);
      var k :| 0 <= k < |gs| && Keys(gs)[k] == x;
      assert MapSeq(u, StatusOf)[k] == x;
    }
  }

  /** The statuses of the sorted rows are distinct. */
  lemma ChurnByPaymentDistinct(t: Table, paymentCol: string)
    requires FlagColumnReady(t) && paymentCol != FlagColumn && AtMostOnce(t.columns, paymentCol)
    requires paymentCol in t.columns
    ensures DistinctBy(ChurnByPayment(t, paymentCol).value, StatusOf)
  {
    SummariesDistinct(t, paymentCol);
    DistinctBySortDesc(Summaries(t, paymentCol), RateOf, StatusOf);
  }

  /** Every status in the result is a trimmed payment value of the table. */
  lemma ChurnByPaymentStatusesFrom(t: Table, paymentCol: string)
    requires FlagColumnReady(t) && paymentCol != FlagColumn && AtMostOnce(t.columns, paymentCol)
    requires paymentCol in t.columns
    ensures forall i :: 0 <= i < |ChurnByPayment(t, paymentCol).value| ==>
      ChurnByPayment(t, paymentCol).value[i].paymentStatus in PaymentValues(t, paymentCol)
  {
    var u := Summaries(t, paymentCol);
    var rows := ChurnByPayment(t, paymentCol).value;
    SummariesFrom(t, paymentCol);
    forall i | 0 <= i < |rows| ensures rows[i].paymentStatus in PaymentValues(t, paymentCol) {
      SortDescFrom(u, RateOf, i);
    }
  }

  /** Every trimmed payment value of the table has a row in the result. */
  lemma ChurnByPaymentStatusesTo(t: Table, paymentCol: string)
    requires FlagColumnReady(t) && paymentCol != FlagColumn && AtMostOnce(t.columns, paymentCol)
    requires paymentCol in t.columns
    ensures forall x :: x in PaymentValues(t, paymentCol) ==> x in MapSeq(ChurnByPayment(t, paymentCol).value, StatusOf)
  {
    var u := Summaries(t, paymentCol);
    var rows := ChurnByPayment(t, paymentCol).value;
    SummariesTo(t, paymentCol);
    SortDescSpec(u, RateOf);
    forall x | x in PaymentValues(t, paymentCol) ensures x in MapSeq(rows, StatusOf) {
      var k :| 0 <= k < |u| && MapSeq(u, StatusOf)[k] == x;
      assert u[k] in multiset(rows);
      var p :| 0 <= p < |rows| && rows[p] == u[k];
      assert MapSeq(rows, StatusOf)[p] == x;
    }
  }

  /** Users add up to the number of input rows, churned counts add up to
      the sum of the flags, and the rows are ordered by non-increasing rate. */
  lemma ChurnByPaymentTotals(t: Table, paymentCol: string)
    requires FlagColumnReady(t) && paymentCol != FlagColumn && AtMostOnce(t.columns, paymentCol)
    requires paymentCol in t.columns
    ensures var rows := ChurnByPayment(t, paymentCol).value;
      && SumOf(rows, UsersOf) == |t.rows|
      && SumOf(rows, ChurnedOf) == Sum(Flags(t))
      && SortedDesc(rows, RateOf)
  {
    var ks := PaymentValues(t, paymentCol);
    var gs := Aggregate(ks, Flags(t));
    var u := MapSeq(gs, SummaryOf);
    AggregateSummarises(ks, Flags(t));
    SortDescSpec(u, RateOf);
    SumOfSortDesc(u, RateOf, UsersOf);
    SumOfSortDesc(u, RateOf, ChurnedOf);
    SumOfMapSeq(gs, SummaryOf, UsersOf, SizeOf);
    SumOfMapSeq(gs, SummaryOf, ChurnedOf, TotalOf);
  }

  /** With 0/1 flags, each row has `0 <= churned <= users` and a rate between 0 and 1. */
  lemma ChurnByPaymentBounds(t: Table, paymentCol: string)
    requires FlagColumnReady(t) && paymentCol != FlagColumn && AtMostOnce(t.columns, paymentCol)
    requires paymentCol in t.columns
    requires forall i :: 0 <= i < |t.rows| ==> Column(t, FlagColumn)[i] in {Int(0), Int(1)}
    ensures var rows := ChurnByPayment(t, paymentCol).value;
      forall i :: 0 <= i < |rows| ==>
        0 <= rows[i].churned <= rows[i].users && 0.0 <= rows[i].churnRate <= 1.0
  {
    var ks := PaymentValues(t, paymentCol);
    var fs := Flags(t);
    var rows := ChurnByPayment(t, paymentCol).value;
    ChurnByPaymentRows(t, paymentCol);
    assert forall i :: 0 <= i < |fs| ==> 0 <= fs[i] <= 1;
    forall i | 0 <= i < |rows| ensures 0 <= rows[i].churned <= rows[i].users && 0.0 <= rows[i].churnRate <= 1.0 {
      DescribesBounds(ks, fs, rows[i]);
    }
  }

  /** With 0/1 flags a described row has between none and all of its users churned. */
  lemma DescribesBounds(ks: seq<string>, fs: seq<int>, r: SummaryRow)
    requires |ks| == |fs| && Describes(ks, fs, r)
    requires forall i :: 0 <= i < |fs| ==> 0 <= fs[i] <= 1
    ensures 0 <= r.churned <= r.users && 0.0 <= r.churnRate <= 1.0
  {
    RateBounds(r.churned, r.users);
  }

  lemma RateBounds(churned: int, users: nat)
    requires 0 <= churned <= users && users >= 1
    ensures 0.0 <= churned as real / users as real <= 1.0
  {
  }

  /** The flags `map_churn_flag` writes are 0/1, so every row of the payment
      summary computed on its output has a churn rate between 0 and 1. */
  lemma MapChurnFlagBounds(t: Table, churnCol: string, paymentCol: string)
    requires WellFormed(t) && churnCol in t.columns
    requires AtMostOnce(t.columns, churnCol) && AtMostOnce(t.columns, FlagColumn)
    requires MapChurnFlag(t, churnCol).Success?
    requires paymentCol in t.columns && paymentCol != FlagColumn && AtMostOnce(t.columns, paymentCol)
    ensures var r := MapChurnFlag(t, churnCol).value;
      && FlagColumnReady(r) && paymentCol in r.columns && AtMostOnce(r.columns, paymentCol)
      && ChurnByPayment(r, paymentCol).Success?
      && var rows := ChurnByPayment(r, paymentCol).value;
         forall i :: 0 <= i < |rows| ==>
           0 <= rows[i].churned <= rows[i].users && 0.0 <= rows[i].churnRate <= 1.0
  {
    var r := MapChurnFlag(t, churnCol).value;
    MapChurnFlagZeroOne(t, churnCol);
    if FlagColumn !in t.columns {
      CountSnoc(t.columns, FlagColumn, paymentCol);
    }
    ChurnByPaymentBounds(r, paymentCol);
  }

  /** `map_churn_flag` writes only the flags 0 and 1. */
  lemma MapChurnFlagZeroOne(t: Table, churnCol: string)
    requires WellFormed(t) && churnCol in t.columns
    requires AtMostOnce(t.columns, churnCol) && AtMostOnce(t.columns, FlagColumn)
    requires MapChurnFlag(t, churnCol).Success?
    ensures var r := MapChurnFlag(t, churnCol).value;
      && FlagColumnReady(r)
      && r.columns == (if FlagColumn in t.columns then t.columns else t.columns + [FlagColumn])
      && forall i :: 0 <= i < |r.rows| ==> Column(r, FlagColumn)[i] in {Int(0), Int(1)}
  {
    MapChurnFlagShape(t, churnCol);
    MapChurnFlagFlags(t, churnCol);
  }

  // ---------------------------------------------------------------- pipeline

  /** What the run needs of the standardised labels, path by path: the churn
      column and `churn_flag` at most once when the churn column is there,
      and the payment column at most once when the mapping succeeds. */
  predicate ChecksLabels(t: Table)
    requires WellFormed(t)
  {
    && (DefaultChurnColumn in t.columns ==>
          AtMostOnce(t.columns, DefaultChurnColumn) && AtMostOnce(t.columns, FlagColumn))
    && (MapChurnFlag(t, DefaultChurnColumn).Success? ==> AtMostOnce(t.columns, DefaultPaymentColumn))
  }

  /** The whole run: a missing data file, then the churn mapping, then the
      payment aggregation, on the standardised table. */
  function RunReport(dataPath: string, dataExists: bool, raw: Table): (r: Result<seq<SummaryRow>>)
    requires WellFormed(raw)
    requires ChecksLabels(StandardiseColumns(raw))
    ensures !dataExists ==> r == Failure(MissingFile(dataPath))
  {
    if !dataExists then Failure(MissingFile(dataPath))
    else
      var t := StandardiseColumns(raw);
      StandardiseIdempotent(raw);
      match MapChurnFlag(t, DefaultChurnColumn)
      case Failure(e) => Failure(e)
      case Success(t2) =>
        MapChurnFlagShape(t, DefaultChurnColumn);
        PaymentColumnCount(t, t2);
        ChurnByPayment(t2, DefaultPaymentColumn)
  }

  lemma PaymentColumnCount(t: Table, t2: Table)
    requires AtMostOnce(t.columns, DefaultPaymentColumn)
    requires t2.columns == (if FlagColumn in t.columns then t.columns else t.columns + [FlagColumn])
    ensures AtMostOnce(t2.columns, DefaultPaymentColumn)
    ensures DefaultPaymentColumn in t2.columns <==> DefaultPaymentColumn in t.columns
  {
    if FlagColumn !in t.columns {
      CountSnoc(t.columns, FlagColumn, DefaultPaymentColumn);
    }
  }

  /** The run reports the first failure in pipeline order, and on success
      its result is the payment summary of the flagged, standardised table. */
  lemma RunReportSteps(dataPath: string, raw: Table)
    requires WellFormed(raw)
    requires ChecksLabels(StandardiseColumns(raw))
    ensures var t := StandardiseColumns(raw);
      var r := RunReport(dataPath, true, raw);
      && WellFormed(t)
      && (DefaultChurnColumn !in t.columns ==>
            r == Failure(MissingColumn(DefaultChurnColumn, Head(t.columns, ColumnsShown))))
      && (MapChurnFlag(t, DefaultChurnColumn).Failure? ==> r == Failure(MapChurnFlag(t, DefaultChurnColumn).error))
      && (MapChurnFlag(t, DefaultChurnColumn).Success? ==>
            var t2 := MapChurnFlag(t, DefaultChurnColumn).value;
            && FlagColumnReady(t2)
            && (r.Success? <==> DefaultPaymentColumn in t.columns)
            && r == ChurnByPayment(t2, DefaultPaymentColumn))
  {
    var t := StandardiseColumns(raw);
    StandardiseIdempotent(raw);
    if MapChurnFlag(t, DefaultChurnColumn).Success? {
      var t2 := MapChurnFlag(t, DefaultChurnColumn).value;
      MapChurnFlagShape(t, DefaultChurnColumn);
      PaymentColumnCount(t, t2);
    }
  }

  /** A successful run reports churn rates between 0 and 1, and never more
      churned users than users, in every row. */
  lemma RunReportBounds(dataPath: string, dataExists: bool, raw: Table)
    requires WellFormed(raw)
    requires ChecksLabels(StandardiseColumns(raw))
    ensures var r := RunReport(dataPath, dataExists, raw);
      r.Success? ==> forall i :: 0 <= i < |r.value| ==>
        0 <= r.value[i].churned <= r.value[i].users && 0.0 <= r.value[i].churnRate <= 1.0
  {
    if dataExists && RunReport(dataPath, dataExists, raw).Success? {
      var t := StandardiseColumns(raw);
      RunReportSteps(dataPath, raw);
      assert DefaultPaymentColumn[0] != FlagColumn[0];
      MapChurnFlagBounds(t, DefaultChurnColumn, DefaultPaymentColumn);
    }
  }

  /** Labels are looked at only once the churn column is found: with
      `churn_flag` twice and no churn column, the run still reports the
      missing churn column. */
  lemma MissingChurnColumnFirst(rows: seq<seq<Cell>>)
    requires forall i :: 0 <= i < |rows| ==> |rows[i]| == 2
    ensures var t := Table([FlagColumn, FlagColumn], rows);
      MapChurnFlag(t, DefaultChurnColumn) == Failure(MissingColumn(DefaultChurnColumn, [FlagColumn, FlagColumn]))
  {
    var t := Table([FlagColumn, FlagColumn], rows);
    assert DefaultChurnColumn[6] != FlagColumn[6];
    assert DefaultChurnColumn !in t.columns;
    assert Head(t.columns, ColumnsShown) == t.columns;
  }

  // ------------------------------------------------------------------ example

  /** Three users: two with status `a` (one churned), one with status `b` (churned). */
  function ExampleTable(paymentCol: string, a: string, b: string): Table {
    Table([paymentCol, FlagColumn], [[Text(a), Int(1)], [Text(a), Int(0)], [Text(b), Int(1)]])
  }

  lemma ExampleColumns(paymentCol: string, a: string, b: string)
    requires paymentCol != FlagColumn
    requires a != [] && !IsSpace(a[0]) && !IsSpace(a[|a| - 1])
    requires b != [] && !IsSpace(b[0]) && !IsSpace(b[|b| - 1])
    ensures FlagColumnReady(ExampleTable(paymentCol, a, b))
    ensures PaymentValues(ExampleTable(paymentCol, a, b), paymentCol) == [a, a, b]
    ensures Flags(ExampleTable(paymentCol, a, b)) == [1, 0, 1]
  {
    var t := ExampleTable(paymentCol, a, b);
    StripUnchanged(a);
    StripUnchanged(b);
    assert IndexOf(t.columns, paymentCol) == 0;
    assert IndexOf(t.columns, FlagColumn) == 1;
    CountSnoc([paymentCol], FlagColumn, FlagColumn);
    assert t.columns == [paymentCol] + [FlagColumn];
  }

  lemma ExampleGroups(a: string, b: string)
    requires a != b
    ensures Aggregate([a, a, b], [1, 0, 1]) == [Group(a, 2, 1), Group(b, 1, 1)]
  {
    assert [a, a, b][..2] == [a, a] && [1, 0, 1][..2] == [1, 0];
    assert [a, a][..1] == [a] && [1, 0][..1] == [1];
    assert Aggregate([a], [1]) == [Group(a, 1, 1)];
    assert Aggregate([a, a], [1, 0]) == [Group(a, 2, 1)];
    assert Tally([Group(a, 2, 1)], b, 1) == [Group(a, 2, 1)] + Tally([], b, 1);
  }

  /** Any table whose payment values are `a, a, b` and whose flags are
      `1, 0, 1` gives the `b` group (rate 1) before the `a` group (rate 1/2). */
  lemma ExampleOrder(t: Table, paymentCol: string, a: string, b: string)
    requires FlagColumnReady(t) && paymentCol in t.columns
    requires paymentCol != FlagColumn && AtMostOnce(t.columns, paymentCol) && a != b
    requires PaymentValues(t, paymentCol) == [a, a, b] && Flags(t) == [1, 0, 1]
    ensures ChurnByPayment(t, paymentCol) == Success([SummaryRow(b, 1, 1, 1.0), SummaryRow(a, 2, 1, 0.5)])
  {
    ExampleGroups(a, b);
    var u := Summaries(t, paymentCol);
    var ra, rb := SummaryRow(a, 2, 1, 0.5), SummaryRow(b, 1, 1, 1.0);
    assert SummaryOf(Group(a, 2, 1)) == ra;
    assert SummaryOf(Group(b, 1, 1)) == rb;
    assert u == [ra, rb];
    assert u[1..] == [rb];
    assert SortDesc(u[1..], RateOf) == [rb];
    assert SortDesc(u, RateOf) == Insert(ra, [rb], RateOf);
    assert Insert(ra, [rb], RateOf) == [rb] + Insert(ra, [], RateOf);
    assert ChurnByPayment(t, paymentCol) == Success(SortDesc(u, RateOf));
    assert Insert(ra, [], RateOf) == [ra];
    assert [rb] + [ra] == [rb, ra];
  }

  /** With statuses `On-time` for `a` and `Delayed` for `b`, the delayed
      group (rate 1) comes before the on-time group (rate 1/2). */
  lemma ExampleSummary(paymentCol: string, a: string, b: string)
    requires paymentCol != FlagColumn && a != b
    requires a != [] && !IsSpace(a[0]) && !IsSpace(a[|a| - 1])
    requires b != [] && !IsSpace(b[0]) && !IsSpace(b[|b| - 1])
    ensures FlagColumnReady(ExampleTable(paymentCol, a, b))
    ensures ChurnByPayment(ExampleTable(paymentCol, a, b), paymentCol) ==
      Success([SummaryRow(b, 1, 1, 1.0), SummaryRow(a, 2, 1, 0.5)])
  {
    var t := ExampleTable(paymentCol, a, b);
    ExampleColumns(paymentCol, a, b);
    assert t.columns == [paymentCol] + [FlagColumn];
    CountSnoc([paymentCol], FlagColumn, paymentCol);
    ExampleOrder(t, paymentCol, a, b);
  }

  /** The same three users as raw answers: ` YES`, `no` and `Yes`. */
  function RawExample(paymentCol: string, churnCol: string, a: string, b: string): Table {
    Table([paymentCol, churnCol], [[Text(a), Text(" YES")], [Text(a), Text("no")], [Text(b), Text("Yes")]])
  }

  /** The three raw answers after trimming and lower-casing. */
  lemma RawAnswers()
    ensures ChurnValue(Text(" YES")) == "yes"
    ensures ChurnValue(Text("no")) == "no"
    ensures ChurnValue(Text("Yes")) == "yes"
  {
    RawYes();
    StripUnchanged("no");
    StripUnchanged("Yes");
    assert Lower("no") == "no";
    assert Lower("Yes") == "yes";
  }

  lemma RawYes()
    ensures ChurnValue(Text(" YES")) == "yes"
  {
    assert " YES"[1..] == "YES";
    StripUnchanged("YES");
    assert Strip(" YES") == "YES";
    assert Lower("YES") == "yes";
  }

  /** The columns of the raw example, as `map_churn_flag` needs them. */
  lemma RawExampleColumns(paymentCol: string, churnCol: string, a: string, b: string)
    requires paymentCol != churnCol && paymentCol != FlagColumn && churnCol != FlagColumn
    ensures var t := RawExample(paymentCol, churnCol, a, b);
      && WellFormed(t) && churnCol in t.columns && paymentCol in t.columns
      && AtMostOnce(t.columns, churnCol) && AtMostOnce(t.columns, FlagColumn)
      && FlagColumn !in t.columns
      && Count(t.columns + [FlagColumn], paymentCol) == 1
  {
    var cs := [paymentCol, churnCol];
    assert cs == [paymentCol] + [churnCol];
    CountSnoc([paymentCol], churnCol, churnCol);
    CountSnoc([paymentCol], churnCol, FlagColumn);
    CountSnoc([paymentCol], churnCol, paymentCol);
    CountSnoc(cs, FlagColumn, paymentCol);
  }

  /** The cells of the raw example, column by column. */
  lemma RawExampleCells(paymentCol: string, churnCol: string, a: string, b: string)
    requires paymentCol != churnCol
    ensures var t := RawExample(paymentCol, churnCol, a, b);
      && WellFormed(t)
      && Column(t, churnCol) == [Text(" YES"), Text("no"), Text("Yes")]
      && Column(t, paymentCol) == [Text(a), Text(a), Text(b)]
  {
    var t := RawExample(paymentCol, churnCol, a, b);
    assert IndexOf(t.columns, churnCol) == 1;
    assert IndexOf(t.columns, paymentCol) == 0;
  }

  /** A churn column holding ` YES`, `no`, `Yes` maps to the flags 1, 0, 1. */
  lemma RawFlags(t: Table, churnCol: string)
    requires WellFormed(t) && churnCol in t.columns
    requires AtMostOnce(t.columns, churnCol) && AtMostOnce(t.columns, FlagColumn)
    requires Column(t, churnCol) == [Text(" YES"), Text("no"), Text("Yes")]
    ensures MapChurnFlag(t, churnCol).Success?
    ensures FlagColumnReady(MapChurnFlag(t, churnCol).value)
    ensures Flags(MapChurnFlag(t, churnCol).value) == [1, 0, 1]
  {
    RawSucceeds(t, churnCol);
    var r := MapChurnFlag(t, churnCol).value;
    MapChurnFlagShape(t, churnCol);
    RawFlagCells(t, churnCol);
    FlagsOfCells(r);
  }

  lemma FlagsOfCells(r: Table)
    requires FlagColumnReady(r) && Column(r, FlagColumn) == [Int(1), Int(0), Int(1)]
    ensures Flags(r) == [1, 0, 1]
  {
  }

  lemma RawFlagCells(t: Table, churnCol: string)
    requires WellFormed(t) && churnCol in t.columns
    requires AtMostOnce(t.columns, churnCol) && AtMostOnce(t.columns, FlagColumn)
    requires Column(t, churnCol) == [Text(" YES"), Text("no"), Text("Yes")]
    requires MapChurnFlag(t, churnCol).Success?
    ensures FlagColumn in MapChurnFlag(t, churnCol).value.columns
    ensures Column(MapChurnFlag(t, churnCol).value, FlagColumn) == [Int(1), Int(0), Int(1)]
  {
    MapChurnFlagShape(t, churnCol);
    MapChurnFlagFlags(t, churnCol);
    FlagCellsOf(t, churnCol, MapChurnFlag(t, churnCol).value);
  }

  lemma FlagCellsOf(t: Table, churnCol: string, r: Table)
    requires WellFormed(t) && churnCol in t.columns && FlagColumnReady(r) && |r.rows| == |t.rows|
    requires Column(t, churnCol) == [Text(" YES"), Text("no"), Text("Yes")]
    requires forall i :: 0 <= i < |t.rows| ==>
      var v := ChurnValue(Column(t, churnCol)[i]);
      && Mappable(v)
      && Column(r, FlagColumn)[i] == Int(if v == "yes" then 1 else 0)
    ensures Column(r, FlagColumn) == [Int(1), Int(0), Int(1)]
  {
    RawValues(Column(t, churnCol));
  }

  lemma RawValues(cs: seq<Cell>)
    requires cs == [Text(" YES"), Text("no"), Text("Yes")]
    ensures ChurnValue(cs[0]) == "yes" && ChurnValue(cs[1]) == "no" && ChurnValue(cs[2]) == "yes"
  {
    RawAnswers();
  }

  lemma RawSucceeds(t: Table, churnCol: string)
    requires WellFormed(t) && churnCol in t.columns
    requires AtMostOnce(t.columns, churnCol) && AtMostOnce(t.columns, FlagColumn)
    requires Column(t, churnCol) == [Text(" YES"), Text("no"), Text("Yes")]
    ensures MapChurnFlag(t, churnCol).Success?
  {
    RawAnswers();
    MapChurnFlagSucceeds(t, churnCol);
  }

  /** From raw answers to the KPI table: ` YES`, `no`, `Yes` map to the flags
      1, 0, 1, and the run of `map_churn_flag` then `churn_by_payment` lists
      the `b` group (rate 1) before the `a` group (rate 1/2). */
  lemma ExampleRun(paymentCol: string, churnCol: string, a: string, b: string)
    requires paymentCol != churnCol && paymentCol != FlagColumn && churnCol != FlagColumn && a != b
    requires a != [] && !IsSpace(a[0]) && !IsSpace(a[|a| - 1])
    requires b != [] && !IsSpace(b[0]) && !IsSpace(b[|b| - 1])
    ensures MapChurnFlag(RawExample(paymentCol, churnCol, a, b), churnCol).Success?
    ensures var r := MapChurnFlag(RawExample(paymentCol, churnCol, a, b), churnCol).value;
      && r.columns == [paymentCol, churnCol, FlagColumn]
      && FlagColumnReady(r)
      && Flags(r) == [1, 0, 1]
      && ChurnByPayment(r, paymentCol) == Success([SummaryRow(b, 1, 1, 1.0), SummaryRow(a, 2, 1, 0.5)])
  {
    var t := RawExample(paymentCol, churnCol, a, b);
    RawExampleColumns(paymentCol, churnCol, a, b);
    RawExampleCells(paymentCol, churnCol, a, b);
    RawFlags(t, churnCol);
    var r := MapChurnFlag(t, churnCol).value;
    MapChurnFlagShape(t, churnCol);
    MapChurnFlagKeeps(t, churnCol);
    assert r.columns == [paymentCol, churnCol] + [FlagColumn];
    PaymentsOfCells(r, paymentCol, a, b);
    ExampleOrder(r, paymentCol, a, b);
  }

  lemma PaymentsOfCells(r: Table, paymentCol: string, a: string, b: string)
    requires WellFormed(r) && paymentCol in r.columns
    requires Column(r, paymentCol) == [Text(a), Text(a), Text(b)]
    requires a != [] && !IsSpace(a[0]) && !IsSpace(a[|a| - 1])
    requires b != [] && !IsSpace(b[0]) && !IsSpace(b[|b| - 1])
    ensures PaymentValues(r, paymentCol) == [a, a, b]
  {
    StripUnchanged(a);
    StripUnchanged(b);
  }

  /** The payment statuses of the dashboard have no whitespace at either end. */
  lemma StatusEnds(a: string)
    requires a == "On-time" || a == "Delayed"
    ensures a != [] && !IsSpace(a[0]) && !IsSpace(a[|a| - 1])
  {
  }

  /** The run on the default column names, with statuses `On-time` (two
      users, one churned) and `Delayed` (one user, churned): `Delayed` comes
      first at rate 1, then `On-time` at rate 1/2. */
  lemma ConcreteRun(a: string, b: string)
    requires a == "On-time" && b == "Delayed"
    ensures MapChurnFlag(RawExample(DefaultPaymentColumn, DefaultChurnColumn, a, b), DefaultChurnColumn).Success?
    ensures var r := MapChurnFlag(RawExample(DefaultPaymentColumn, DefaultChurnColumn, a, b), DefaultChurnColumn).value;
      && r.columns == [DefaultPaymentColumn, DefaultChurnColumn, FlagColumn]
      && FlagColumnReady(r)
      && Flags(r) == [1, 0, 1]
      && ChurnByPayment(r, DefaultPaymentColumn) ==
           Success([SummaryRow(b, 1, 1, 1.0), SummaryRow(a, 2, 1, 0.5)])
  {
    StatusEnds(a);
    StatusEnds(b);
    assert a[0] != b[0];
    assert DefaultPaymentColumn[0] != DefaultChurnColumn[0] && DefaultPaymentColumn[0] != FlagColumn[0];
    assert DefaultChurnColumn[6] != FlagColumn[6];
    ExampleRun(DefaultPaymentColumn, DefaultChurnColumn, a, b);
  }
}
