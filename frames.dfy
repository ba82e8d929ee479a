/** The table the scripts hold in a pandas DataFrame: an ordered list of column
    labels and a sequence of rows, each row a list of cells aligned with the labels.
    Labels may repeat (pandas allows it, and renaming or normalising labels can
    produce it), which is why a row is positional rather than a map. A cell is
    a value's text, or None for a missing value (NaN). */
module Frames {
  import opened Wrappers

  type Cell = Option<string>

  datatype Table = Table(columns: seq<string>, rows: seq<seq<Cell>>)

  /** Every row has one cell per column. */
  predicate WellFormed(t: Table) {
    forall i | 0 <= i < |t.rows| :: |t.rows[i]| == |t.columns|
  }

  predicate DistinctColumns(columns: seq<string>) {
    forall i, j | 0 <= i < j < |columns| :: columns[i] != columns[j]
  }

  /** A table as `read_csv` produces it: well formed, and with distinct labels
      (duplicate header names are renamed on reading). */
  predicate Source(t: Table) {
    WellFormed(t) && DistinctColumns(t.columns)
  }

  /** How many columns carry the label `c`. */
  function Count(columns: seq<string>, c: string): (n: nat)
    ensures n <= |columns|
    ensures n == 0 <==> c !in columns
    decreases |columns|
  {
    if |columns| == 0 then 0
    else Count(columns[..|columns| - 1], c) + (if columns[|columns| - 1] == c then 1 else 0)
  }

  /** Two label lists that carry `c` at the same positions count it equally. */
  lemma {:induction false} CountSamePositions(a: seq<string>, b: seq<string>, c: string)
    requires |a| == |b| && forall j | 0 <= j < |a| :: a[j] == c <==> b[j] == c
    ensures Count(a, c) == Count(b, c)
    decreases |a|
  {
    if |a| > 0 {
      CountSamePositions(a[..|a| - 1], b[..|b| - 1], c);
    }
  }

  /** A label carried by two different columns is counted at least twice. */
  lemma {:induction false} CountTwo(columns: seq<string>, c: string, j: nat, k: nat)
    requires j < k < |columns| && columns[j] == c && columns[k] == c
    ensures Count(columns, c) >= 2
    decreases |columns|
  {
    var n := |columns| - 1;
    var init := columns[..n];
    if k < n {
      CountTwo(init, c, j, k);
    } else {
      assert init[j] == c;
    }
  }

  /** A label counted once is carried by exactly one position. */
  lemma CountOneUnique(columns: seq<string>, c: string, j: nat, k: nat)
    requires Count(columns, c) == 1
    requires j < |columns| && k < |columns| && columns[j] == c && columns[k] == c
    ensures j == k
  {
    if j < k {
      CountTwo(columns, c, j, k);
    } else if k < j {
      CountTwo(columns, c, k, j);
    }
  }

  /** The first column labelled `c`. */
  function IndexOf(columns: seq<string>, c: string): (j: nat)
    requires c in columns
    ensures j < |columns| && columns[j] == c && c !in columns[..j]
  {
    if columns[0] == c then 0
    else
      var j := 1 + IndexOf(columns[1..], c);
      assert columns[..j] == [columns[0]] + columns[1..][..j - 1];
      j
  }

  /** In a table with distinct labels a label is counted at most once. */
  lemma DistinctCountsOnce(columns: seq<string>, c: string)
    requires DistinctColumns(columns) && c in columns
    ensures Count(columns, c) == 1
  {
    CountDistinct(columns, c);
  }

  lemma {:induction false} CountDistinct(columns: seq<string>, c: string)
    requires DistinctColumns(columns)
    ensures Count(columns, c) <= 1
    decreases |columns|
  {
    if |columns| > 0 {
      var n := |columns| - 1;
      CountDistinct(columns[..n], c);
      if columns[n] == c {
        assert c !in columns[..n];
      }
    }
  }

  /** `df[name]` read as a Series. An absent label raises KeyError; a repeated
      label selects a DataFrame, on which the `.str` accessor the scripts use next
      does not exist. Otherwise the values of that column, row by row. */
  function Select(t: Table, name: string): (r: Result<seq<Cell>>)
    requires WellFormed(t)
    ensures r.Success? <==> Count(t.columns, name) == 1
    ensures r.Failure? ==> r.error == if name in t.columns then AmbiguousColumn(name) else MissingColumn(name)
    ensures r.Success? ==> |r.value| == |t.rows|
    ensures r.Success? ==> forall i, j | 0 <= i < |t.rows| && 0 <= j < |t.columns| && t.columns[j] == name ::
                             r.value[i] == t.rows[i][j]
  {
    if name !in t.columns then Failure(MissingColumn(name))
    else if Count(t.columns, name) != 1 then Failure(AmbiguousColumn(name))
    else
      var j := IndexOf(t.columns, name);
      var col := seq(|t.rows|, i requires 0 <= i < |t.rows| => t.rows[i][j]);
      assert forall k | 0 <= k < |t.columns| && t.columns[k] == name :: k == j by {
        forall k | 0 <= k < |t.columns| && t.columns[k] == name ensures k == j {
          CountOneUnique(t.columns, name, j, k);
        }
      }
      Success(col)
  }

  /** `df[name] = values`: every column labelled `name` is overwritten (pandas
      broadcasts over a repeated label); an absent label becomes a new last column.
      Nothing else changes. */
  function SetColumn(t: Table, name: string, values: seq<Cell>): (r: Table)
    requires WellFormed(t) && |values| == |t.rows|
    ensures WellFormed(r) && |r.rows| == |t.rows|
    ensures r.columns == if name in t.columns then t.columns else t.columns + [name]
    ensures forall i, j | 0 <= i < |r.rows| && 0 <= j < |r.columns| ::
              r.rows[i][j] == if r.columns[j] == name then values[i] else t.rows[i][j]
  {
    if name in t.columns then
      Table(t.columns, seq(|t.rows|, i requires 0 <= i < |t.rows| =>
        seq(|t.columns|, j requires 0 <= j < |t.columns| => if t.columns[j] == name then values[i] else t.rows[i][j])))
    else
      Table(t.columns + [name], seq(|t.rows|, i requires 0 <= i < |t.rows| => t.rows[i] + [values[i]]))
  }

  /** A new label's column is appended to every row. */
  lemma SetColumnAppends(t: Table, name: string, values: seq<Cell>)
    requires WellFormed(t) && |values| == |t.rows| && name !in t.columns
    ensures forall i | 0 <= i < |t.rows| :: SetColumn(t, name, values).rows[i] == t.rows[i] + [values[i]]
  {
  }

  /** After `df[name] = values` the label is there, and once if it was at most once before. */
  lemma CountAfterSet(t: Table, name: string, values: seq<Cell>)
    requires WellFormed(t) && |values| == |t.rows| && Count(t.columns, name) <= 1
    ensures Count(SetColumn(t, name, values).columns, name) == 1
  {
    if name !in t.columns {
      var cols := SetColumn(t, name, values).columns;
      assert cols == t.columns + [name];
      assert cols[..|cols| - 1] == t.columns;
    }
  }

  /** Reading back a column just set under a label that was absent or unique gives the values set. */
  lemma SelectAfterSet(t: Table, name: string, values: seq<Cell>)
    requires WellFormed(t) && |values| == |t.rows| && Count(t.columns, name) <= 1
    ensures Select(SetColumn(t, name, values), name) == Success(values)
  {
    var r := SetColumn(t, name, values);
    CountAfterSet(t, name, values);
    var col := Select(r, name).value;
    var j := IndexOf(r.columns, name);
    forall i | 0 <= i < |values| ensures col[i] == values[i] {
      assert col[i] == r.rows[i][j];
    }
    assert col == values;
  }

  /** Setting one label leaves what a different label selects as it was. */
  lemma SelectOtherAfterSet(t: Table, name: string, other: string, values: seq<Cell>)
    requires WellFormed(t) && |values| == |t.rows| && name != other
    ensures Select(SetColumn(t, name, values), other) == Select(t, other)
  {
    var r := SetColumn(t, name, values);
    if name !in t.columns {
      assert r.columns[..|r.columns| - 1] == t.columns;
    }
    assert Count(r.columns, other) == Count(t.columns, other);
    if Count(t.columns, other) == 1 {
      var j := IndexOf(t.columns, other);
      var a, b := Select(r, other).value, Select(t, other).value;
      forall i | 0 <= i < |t.rows| ensures a[i] == b[i] {
        assert r.columns[j] == other;
        assert a[i] == r.rows[i][j];
      }
      assert a == b;
    }
  }

  /** Writing a column's own values back leaves the table as it was. */
  lemma SetColumnSelected(t: Table, name: string)
    requires WellFormed(t) && Select(t, name).Success?
    ensures SetColumn(t, name, Select(t, name).value) == t
  {
    var r := SetColumn(t, name, Select(t, name).value);
    forall i | 0 <= i < |t.rows| ensures r.rows[i] == t.rows[i] {
      forall j | 0 <= j < |t.columns| ensures r.rows[i][j] == t.rows[i][j] {
      }
    }
  }

  /** The labels after `rename({from: to})`. */
  function RenameLabels(columns: seq<string>, from: string, to: string): (r: seq<string>)
    requires from != to
    ensures |r| == |columns|
    ensures forall j | 0 <= j < |r| :: r[j] == if columns[j] == from then to else columns[j]
    ensures from !in r
  {
    seq(|columns|, j requires 0 <= j < |columns| => if columns[j] == from then to else columns[j])
  }

  /** After the rename, `to` labels the columns it labelled before and those `from` labelled. */
  lemma {:induction false} RenameCounts(columns: seq<string>, from: string, to: string)
    requires from != to
    ensures Count(RenameLabels(columns, from, to), to) == Count(columns, to) + Count(columns, from)
    decreases |columns|
  {
    if |columns| > 0 {
      var n := |columns| - 1;
      RenameCounts(columns[..n], from, to);
      assert RenameLabels(columns, from, to)[..n] == RenameLabels(columns[..n], from, to);
    }
  }

  /** `df.rename({from: to}, axis=1)`: every column labelled `from` is relabelled
      `to`; an absent label is no error and changes nothing. The data stays put. */
  function Rename(t: Table, from: string, to: string): (r: Table)
    requires from != to
    ensures r.rows == t.rows && |r.columns| == |t.columns|
    ensures forall j | 0 <= j < |r.columns| :: r.columns[j] == if t.columns[j] == from then to else t.columns[j]
    ensures from !in r.columns
    ensures Count(r.columns, to) == Count(t.columns, to) + Count(t.columns, from)
    ensures from !in t.columns ==> r == t
  {
    var r := Table(RenameLabels(t.columns, from, to), t.rows);
    RenameCounts(t.columns, from, to);
    assert from !in t.columns ==> r.columns == t.columns;
    r
  }

  /** The number of `true` entries of a mask. */
  function Rank(mask: seq<bool>): (n: nat)
    ensures n <= |mask|
    decreases |mask|
  {
    if |mask| == 0 then 0 else Rank(mask[..|mask| - 1]) + (if mask[|mask| - 1] then 1 else 0)
  }

  /** The elements of `xs` whose mask entry is true, in order. */
  function Keep<T>(xs: seq<T>, mask: seq<bool>): (r: seq<T>)
    requires |xs| == |mask|
    ensures |r| == Rank(mask)
    decreases |xs|
  {
    if |xs| == 0 then []
    else
      var n := |xs| - 1;
      Keep(xs[..n], mask[..n]) + (if mask[n] then [xs[n]] else [])
  }

  /** A kept element lands at the position given by the number of kept elements before it. */
  lemma {:induction false} KeepAt<T>(xs: seq<T>, mask: seq<bool>, j: nat)
    requires |xs| == |mask| && j < |xs| && mask[j]
    ensures Rank(mask[..j]) < |Keep(xs, mask)| && Keep(xs, mask)[Rank(mask[..j])] == xs[j]
    decreases |xs|
  {
    var n := |xs| - 1;
    if j < n {
      KeepAt(xs[..n], mask[..n], j);
      assert mask[..n][..j] == mask[..j];
    } else {
      assert mask[..j] == mask[..n];
    }
  }

  /** Every element kept by the mask is kept: nothing is kept that the mask rejects. */
  lemma {:induction false} KeepOnlyKept<T>(xs: seq<T>, mask: seq<bool>, x: T)
    requires |xs| == |mask| && x in Keep(xs, mask)
    ensures exists j | 0 <= j < |xs| :: mask[j] && xs[j] == x
    decreases |xs|
  {
    var n := |xs| - 1;
    if x in Keep(xs[..n], mask[..n]) {
      KeepOnlyKept(xs[..n], mask[..n], x);
      var j :| 0 <= j < n && mask[..n][j] && xs[..n][j] == x;
      assert mask[j] && xs[j] == x;
    } else {
      assert mask[n] && xs[n] == x;
    }
  }

  /** Keeping from a non-empty sequence: the first element if its mask entry is true,
      then what the mask keeps of the rest. */
  lemma {:induction false} KeepCons<T>(xs: seq<T>, mask: seq<bool>)
    requires |xs| == |mask| && |xs| > 0
    ensures Keep(xs, mask) == (if mask[0] then [xs[0]] else []) + Keep(xs[1..], mask[1..])
    decreases |xs|
  {
    var n := |xs| - 1;
    if n > 0 {
      KeepCons(xs[..n], mask[..n]);
      assert xs[..n][1..] == xs[1..][..n - 1] && mask[..n][1..] == mask[1..][..n - 1];
      assert xs[1..][n - 1] == xs[n] && mask[1..][n - 1] == mask[n];
    }
  }

  /** The positions `df.drop([name], axis=1)` keeps. */
  function DropMask(columns: seq<string>, name: string): (mask: seq<bool>)
    ensures |mask| == |columns|
    ensures forall j | 0 <= j < |columns| :: mask[j] <==> columns[j] != name
  {
    seq(|columns|, j requires 0 <= j < |columns| => columns[j] != name)
  }

  /** `df.drop([name], axis=1)`: every column labelled `name` goes, from the label
      list and from every row. An absent label raises KeyError. */
  function Drop(t: Table, name: string): (r: Result<Table>)
    requires WellFormed(t)
    ensures r.Success? <==> name in t.columns
    ensures r.Failure? ==> r.error == MissingColumn(name)
    ensures r.Success? ==> WellFormed(r.value) && |r.value.rows| == |t.rows|
    ensures r.Success? ==> name !in r.value.columns
    ensures r.Success? ==> |r.value.columns| == |t.columns| - Count(t.columns, name)
  {
    if name !in t.columns then Failure(MissingColumn(name))
    else
      var mask := DropMask(t.columns, name);
      var columns := Keep(t.columns, mask);
      var rows := seq(|t.rows|, i requires 0 <= i < |t.rows| => Keep(t.rows[i], mask));
      assert name !in columns by {
        if name in columns {
          KeepOnlyKept(t.columns, mask, name);
        }
      }
      DropRankCounts(t.columns, name);
      Success(Table(columns, rows))
  }

  lemma {:induction false} DropRankCounts(columns: seq<string>, name: string)
    ensures Rank(DropMask(columns, name)) == |columns| - Count(columns, name)
    decreases |columns|
  {
    if |columns| > 0 {
      var n := |columns| - 1;
      DropRankCounts(columns[..n], name);
      assert DropMask(columns, name)[..n] == DropMask(columns[..n], name);
    }
  }

  /** Appending a label counts it once more if it is the one counted. */
  lemma CountSnoc(columns: seq<string>, x: string, c: string)
    ensures Count(columns + [x], c) == Count(columns, c) + if x == c then 1 else 0
  {
    assert (columns + [x])[..|columns|] == columns;
  }

  /** Dropping one label leaves the count of every other label as it was. */
  lemma {:induction false} DropCountsOthers(columns: seq<string>, name: string, c: string)
    requires c != name
    ensures Count(Keep(columns, DropMask(columns, name)), c) == Count(columns, c)
    decreases |columns|
  {
    if |columns| > 0 {
      var n := |columns| - 1;
      var mask := DropMask(columns, name);
      assert mask[..n] == DropMask(columns[..n], name);
      DropCountsOthers(columns[..n], name, c);
      if mask[n] {
        CountSnoc(Keep(columns[..n], mask[..n]), columns[n], c);
      } else {
        assert Keep(columns, mask) == Keep(columns[..n], mask[..n]);
      }
    }
  }

  /** Dropping leaves every other column, with its label and every row's value,
      at the position given by the number of kept columns before it. */
  lemma DropKeepsOthers(t: Table, name: string, i: nat, j: nat)
    requires WellFormed(t) && i < |t.rows| && j < |t.columns| && t.columns[j] != name
    requires name in t.columns
    ensures var r := Drop(t, name).value;
            var k := Rank(DropMask(t.columns, name)[..j]);
            k < |r.columns| && r.columns[k] == t.columns[j] && r.rows[i][k] == t.rows[i][j]
  {
    var mask := DropMask(t.columns, name);
    KeepAt(t.columns, mask, j);
    KeepAt(t.rows[i], mask, j);
  }

  /** The DataFrame the scripts change in place: `df.columns = ...` and `df[k] = ...`.
      Rebinding (`df = df.rename(...)`) makes a new frame. */
  class Frame {
    var columns: seq<string>
    var rows: seq<seq<Cell>>

    function Value(): Table
      reads this
    {
      Table(columns, rows)
    }

    ghost predicate Valid()
      reads this
    {
      WellFormed(Value())
    }

    constructor (t: Table)
      requires WellFormed(t)
      ensures Valid() && Value() == t
    {
      columns := t.columns;
      rows := t.rows;
    }

    /** `df.columns = labels`: relabels in place; the data does not move. */
    method SetColumns(labels: seq<string>)
      requires Valid() && |labels| == |columns|
      modifies this
      ensures Valid() && columns == labels && rows == old(rows)
    {
      columns := labels;
    }

    /** `df[name] = values`. */
    method SetItem(name: string, values: seq<Cell>)
      requires Valid() && |values| == |rows|
      modifies this
      ensures Valid() && Value() == SetColumn(old(Value()), name, values)
    {
      var t := SetColumn(Value(), name, values);
      columns, rows := t.columns, t.rows;
    }

    /** `df[name]`, as a Series. */
    method GetItem(name: string) returns (r: Result<seq<Cell>>)
      requires Valid()
      ensures r.Success? <==> Count(columns, name) == 1
      ensures r == Select(Value(), name)
    {
      r := Select(Value(), name);
    }
  }
}
