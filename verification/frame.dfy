/** A data frame as the pipeline uses it: an ordered list of column labels
    and rows of cells, position by position. Frames are values: every
    operation below builds a new frame and leaves its argument as it was,
    which is what the `df.copy()` at the top of each pipeline step ensures. */
module Frame {
  import opened Seqs

  /** A cell: text as read from the dataset, or an integer the pipeline stores. */
  datatype Cell = Text(text: string) | Int(value: int)

  datatype Table = Table(columns: seq<string>, rows: seq<seq<Cell>>)

  /** Every row has one cell per column. */
  predicate WellFormed(t: Table) {
    forall i :: 0 <= i < |t.rows| ==> |t.rows[i]| == |t.columns|
  }

  /** Position of the first column labelled `name`. */
  function IndexOf(columns: seq<string>, name: string): (j: nat)
    requires name in columns
    ensures j < |columns| && columns[j] == name
    ensures forall i :: 0 <= i < j ==> columns[i] != name
  {
    if columns[0] == name then 0 else 1 + IndexOf(columns[1..], name)
  }

  /** The cells of the column labelled `name`, one per row (`df[name]`). */
  function Column(t: Table, name: string): (cells: seq<Cell>)
    requires WellFormed(t) && name in t.columns
    ensures |cells| == |t.rows|
    ensures forall i :: 0 <= i < |t.rows| ==> cells[i] == t.rows[i][IndexOf(t.columns, name)]
  {
    var j := IndexOf(t.columns, name);
    seq(|t.rows|, i requires 0 <= i < |t.rows| && WellFormed(t) => t.rows[i][j])
  }

  /** `df[name] = cells`: overwrites the column labelled `name` when there is
      one, and appends a new last column otherwise. Every other cell is kept. */
  function SetColumn(t: Table, name: string, cells: seq<Cell>): (r: Table)
    requires WellFormed(t) && |cells| == |t.rows|
    ensures WellFormed(r) && |r.rows| == |t.rows|
    ensures r.columns == if name in t.columns then t.columns else t.columns + [name]
    ensures Column(r, name) == cells
    ensures forall i, j :: 0 <= i < |t.rows| && 0 <= j < |t.columns| && j != IndexOf(r.columns, name) ==>
      r.rows[i][j] == t.rows[i][j]
  {
    if name in t.columns then
      var j := IndexOf(t.columns, name);
      Table(t.columns, seq(|t.rows|, i requires 0 <= i < |t.rows| && WellFormed(t) => t.rows[i][j := cells[i]]))
    else
      var r := Table(t.columns + [name], seq(|t.rows|, i requires 0 <= i < |t.rows| => t.rows[i] + [cells[i]]));
      assert IndexOf(r.columns, name) == |t.columns|;
      r
  }

  /** Overwriting one column leaves every other column's cells as they were. */
  lemma SetColumnKeepsOthers(t: Table, name: string, cells: seq<Cell>, other: string)
    requires WellFormed(t) && |cells| == |t.rows|
    requires other in t.columns && other != name
    ensures other in SetColumn(t, name, cells).columns
    ensures Column(SetColumn(t, name, cells), other) == Column(t, other)
  {
    var r := SetColumn(t, name, cells);
    var j := IndexOf(t.columns, other);
    assert r.columns[..|t.columns|] == t.columns;
    assert IndexOf(r.columns, other) == j by {
      IndexOfPrefix(t.columns, r.columns, other);
    }
  }

  /** The first position of a label is the same in any extension of the label list. */
  lemma IndexOfPrefix(columns: seq<string>, longer: seq<string>, name: string)
    requires name in columns && |columns| <= |longer| && longer[..|columns|] == columns
    ensures name in longer && IndexOf(longer, name) == IndexOf(columns, name)
  {
    var j := IndexOf(columns, name);
    assert longer[j] == name;
    var k := IndexOf(longer, name);
    assert k <= j;
    assert columns[k] == name;
  }

  predicate IsDigit(c: char) { '0' <= c <= '9' }

  /** Decimal digits of a natural number, with no leading zero. */
  function NatText(n: nat): (s: string)
    ensures |s| >= 1
    ensures forall i :: 0 <= i < |s| ==> IsDigit(s[i])
    ensures s[0] == '0' <==> n == 0
    ensures n == 0 ==> s == "0"
    decreases n
  {
    var d := ['0' + (n % 10) as char];
    if n < 10 then d else NatText(n / 10) + d
  }

  /** The number a string of decimal digits denotes. */
  function DigitsValue(s: string): nat
    requires forall i :: 0 <= i < |s| ==> IsDigit(s[i])
    decreases |s|
  {
    if s == [] then 0
    else
      assert IsDigit(s[|s| - 1]);
      DigitsValue(s[..|s| - 1]) * 10 + (s[|s| - 1] as int - '0' as int)
  }

  /** Reading the digits back gives the number: `NatText` loses nothing. */
  lemma {:induction false} NatTextValue(n: nat)
    ensures DigitsValue(NatText(n)) == n
    decreases n
  {
    var s := NatText(n);
    if n >= 10 {
      NatTextValue(n / 10);
      assert s[..|s| - 1] == NatText(n / 10);
    }
  }

  /** `astype(str)`: text is kept, an integer is written in decimal, with a
      leading `-` exactly when it is negative. */
  function CellText(c: Cell): (s: string)
    ensures c.Text? ==> s == c.text
    ensures c.Int? ==> s != [] && (s[0] == '-' <==> c.value < 0)
    ensures c.Int? ==> forall i :: (if c.value < 0 then 1 else 0) <= i < |s| ==> IsDigit(s[i])
  {
    match c
    case Text(s) => s
    case Int(n) => if n < 0 then "-" + NatText(-n) else NatText(n)
  }

  /** The text of an integer cell determines the integer. */
  lemma IntText(n: int)
    ensures var s := CellText(Int(n));
      if n < 0 then DigitsValue(s[1..]) == -n else DigitsValue(s) == n
  {
    if n < 0 {
      NatTextValue(-n);
      assert CellText(Int(n))[1..] == NatText(-n);
    } else {
      NatTextValue(n);
    }
  }
}
