/** `pd.concat(files, sort=False)` over the yearly extracts, and the two scripts
    built on it: us/concat (labels kept as they are) and us-fy16-19/concat
    (labels normalised, then a sequential `id`). */
module Concatenate {
  import opened Wrappers
  import opened Frames
  import opened Text

  // ---------------------------------------------------------------------
  // The column union.

  /** `acc` followed by the labels of `columns` it does not hold yet, in their order. */
  function AppendNew(acc: seq<string>, columns: seq<string>): (r: seq<string>)
    ensures acc <= r
    ensures forall c :: c in r <==> c in acc || c in columns
    ensures DistinctColumns(acc) ==> DistinctColumns(r)
    decreases |columns|
  {
    if |columns| == 0 then acc
    else AppendNew(if columns[0] in acc then acc else acc + [columns[0]], columns[1..])
  }

  /** Labels that are new and distinct are all appended, in order. */
  lemma {:induction false} AppendNewFresh(acc: seq<string>, columns: seq<string>)
    requires DistinctColumns(columns)
    requires forall k | 0 <= k < |columns| :: columns[k] !in acc
    ensures AppendNew(acc, columns) == acc + columns
    decreases |columns|
  {
    if |columns| > 0 {
      var x, rest := columns[0], columns[1..];
      var acc' := acc + [x];
      assert DistinctColumns(rest) by {
        forall i, j | 0 <= i < j < |rest| ensures rest[i] != rest[j] {
          assert rest[i] == columns[i + 1] && rest[j] == columns[j + 1];
        }
      }
      assert forall k | 0 <= k < |rest| :: rest[k] !in acc' by {
        forall k | 0 <= k < |rest| ensures rest[k] !in acc' {
          assert rest[k] == columns[k + 1];
        }
      }
      calc {
        AppendNew(acc, columns);
        { assert x !in acc; }
        AppendNew(acc', rest);
        { AppendNewFresh(acc', rest); }
        acc' + rest;
        { assert acc' + rest == acc + columns; }
        acc + columns;
      }
    }
  }

  /** Labels already held are not appended again. */
  lemma {:induction false} AppendNewKnown(acc: seq<string>, columns: seq<string>)
    requires forall k | 0 <= k < |columns| :: columns[k] in acc
    ensures AppendNew(acc, columns) == acc
    decreases |columns|
  {
    if |columns| > 0 {
      assert columns[0] in acc;
      AppendNewKnown(acc, columns[1..]);
    }
  }

  /** The positions of `columns` that hold a label seen neither in `acc` nor earlier in `columns`. */
  function FirstNewMask(acc: seq<string>, columns: seq<string>): (mask: seq<bool>)
    ensures |mask| == |columns|
    ensures forall k | 0 <= k < |columns| :: mask[k] <==> columns[k] !in acc && columns[k] !in columns[..k]
  {
    seq(|columns|, k requires 0 <= k < |columns| => columns[k] !in acc && columns[k] !in columns[..k])
  }

  /** After the first label, the mask of the rest is taken against `acc` grown by that label. */
  lemma FirstNewMaskTail(acc: seq<string>, columns: seq<string>)
    requires |columns| > 0
    ensures var acc' := if columns[0] in acc then acc else acc + [columns[0]];
            FirstNewMask(acc, columns)[1..] == FirstNewMask(acc', columns[1..])
  {
    var x, rest := columns[0], columns[1..];
    var acc' := if x in acc then acc else acc + [x];
    var m, m' := FirstNewMask(acc, columns), FirstNewMask(acc', rest);
    forall k | 0 <= k < |rest| ensures m[1..][k] == m'[k] {
      assert rest[k] == columns[k + 1];
      assert columns[..k + 1] == [x] + rest[..k];
    }
  }

  /** The labels appended are exactly the first appearances of labels `acc` lacks,
      in the order of `columns`. */
  lemma {:induction false} AppendNewFirstAppearance(acc: seq<string>, columns: seq<string>)
    ensures AppendNew(acc, columns) == acc + Keep(columns, FirstNewMask(acc, columns))
    decreases |columns|
  {
    if |columns| > 0 {
      var x, rest := columns[0], columns[1..];
      var acc' := if x in acc then acc else acc + [x];
      var m := FirstNewMask(acc, columns);
      var head := if m[0] then [x] else [];
      assert acc' == acc + head by {
        assert columns[..0] == [];
      }
      calc {
        AppendNew(acc, columns);
        AppendNew(acc', rest);
        { AppendNewFirstAppearance(acc', rest); FirstNewMaskTail(acc, columns); }
        acc' + Keep(rest, m[1..]);
        acc + (head + Keep(rest, m[1..]));
        { KeepCons(columns, m); }
        acc + Keep(columns, m);
      }
    }
  }

  /** Some source has a column labelled `c`. */
  predicate InSomeSource(ts: seq<Table>, c: string) {
    exists n | 0 <= n < |ts| :: c in ts[n].columns
  }

  /** The labels of the concatenation: every label of every source, once, in
      order of first appearance (`sort=False`). */
  function UnionColumns(ts: seq<Table>): (u: seq<string>)
    ensures DistinctColumns(u)
    ensures forall c :: c in u <==> InSomeSource(ts, c)
    decreases |ts|
  {
    if |ts| == 0 then []
    else
      var init := ts[..|ts| - 1];
      var u := AppendNew(UnionColumns(init), ts[|ts| - 1].columns);
      assert forall c :: InSomeSource(ts, c) <==> InSomeSource(init, c) || c in ts[|ts| - 1].columns by {
        forall c | InSomeSource(ts, c)
          ensures InSomeSource(init, c) || c in ts[|ts| - 1].columns
        {
          var n :| 0 <= n < |ts| && c in ts[n].columns;
          if n < |init| {
            assert c in init[n].columns;
          }
        }
        forall c | InSomeSource(init, c) ensures InSomeSource(ts, c) {
          var n :| 0 <= n < |init| && c in init[n].columns;
          assert c in ts[n].columns;
        }
      }
      u
  }

  /** Labels keep their first-appearance position as later sources are added:
      the union of the first `n` sources is a prefix of the whole union. */
  lemma {:induction false} UnionGrowsAtTheEnd(ts: seq<Table>, n: nat)
    requires n <= |ts|
    ensures UnionColumns(ts[..n]) <= UnionColumns(ts)
    decreases |ts|
  {
    if n < |ts| {
      var init := ts[..|ts| - 1];
      UnionGrowsAtTheEnd(init, n);
      assert init[..n] == ts[..n];
    } else {
      assert ts[..n] == ts;
    }
  }

  /** Adding a source appends its labels that are new, in the source's own order:
      the union never reorders or interleaves. */
  lemma UnionColumnsLast(ts: seq<Table>)
    requires |ts| > 0
    ensures var init, last := ts[..|ts| - 1], ts[|ts| - 1].columns;
            UnionColumns(ts) == UnionColumns(init) + Keep(last, FirstNewMask(UnionColumns(init), last))
  {
    AppendNewFirstAppearance(UnionColumns(ts[..|ts| - 1]), ts[|ts| - 1].columns);
  }

  // ---------------------------------------------------------------------
  // The rows.

  /** One source row laid out over the union's labels; a label the source lacks gives None. */
  function Align(row: seq<Cell>, columns: seq<string>, u: seq<string>): (r: seq<Cell>)
    requires |row| == |columns|
    ensures |r| == |u|
    ensures forall k | 0 <= k < |u| && u[k] !in columns :: r[k].None?
  {
    seq(|u|, k requires 0 <= k < |u| => if u[k] in columns then row[IndexOf(columns, u[k])] else None)
  }

  /** The number of rows in the first `n` sources. */
  function Offset(ts: seq<Table>, n: nat): nat
    requires n <= |ts|
    decreases n
  {
    if n == 0 then 0 else |ts[0].rows| + Offset(ts[1..], n - 1)
  }

  function TotalRows(ts: seq<Table>): nat {
    Offset(ts, |ts|)
  }

  predicate AllWellFormed(ts: seq<Table>) {
    forall n | 0 <= n < |ts| :: WellFormed(ts[n])
  }

  predicate AllSources(ts: seq<Table>) {
    forall n | 0 <= n < |ts| :: Source(ts[n])
  }

  /** Sources that all have the same distinct labels concatenate under those labels. */
  lemma {:induction false} SameColumnsUnion(ts: seq<Table>, cols: seq<string>)
    requires |ts| >= 1 && DistinctColumns(cols)
    requires forall n | 0 <= n < |ts| :: ts[n].columns == cols
    ensures UnionColumns(ts) == cols
    decreases |ts|
  {
    var init := ts[..|ts| - 1];
    if |ts| == 1 {
      assert init == [];
      AppendNewFresh([], cols);
    } else {
      SameColumnsUnion(init, cols);
      AppendNewKnown(cols, cols);
    }
  }

  /** The rows of one source, in order, each laid out over `u`. */
  function Block(t: Table, u: seq<string>): (rows: seq<seq<Cell>>)
    requires WellFormed(t)
    ensures |rows| == |t.rows|
  {
    seq(|t.rows|, i requires 0 <= i < |t.rows| => Align(t.rows[i], t.columns, u))
  }

  /** The rows of every source in turn, each laid out over `u`. */
  function ConcatRows(ts: seq<Table>, u: seq<string>): (rows: seq<seq<Cell>>)
    requires AllWellFormed(ts)
    ensures |rows| == TotalRows(ts)
    ensures forall i | 0 <= i < |rows| :: |rows[i]| == |u|
    decreases |ts|
  {
    if |ts| == 0 then []
    else
      var rest := ConcatRows(ts[1..], u);
      assert TotalRows(ts) == |ts[0].rows| + TotalRows(ts[1..]);
      Block(ts[0], u) + rest
  }

  /** `pd.concat(files, sort=False)`: no row is added or removed, and the labels are the union. */
  function Concat(ts: seq<Table>): (r: Table)
    requires AllSources(ts)
    ensures WellFormed(r)
    ensures r.columns == UnionColumns(ts)
    ensures |r.rows| == TotalRows(ts)
  {
    Table(UnionColumns(ts), ConcatRows(ts, UnionColumns(ts)))
  }

  /** Row `i` of source `n` is row `Offset(ts, n) + i` of the concatenation:
      all rows of the first source in their order, then those of the second, and so on. */
  lemma {:induction false} ConcatRowAt(ts: seq<Table>, u: seq<string>, n: nat, i: nat)
    requires AllWellFormed(ts) && n < |ts| && i < |ts[n].rows|
    ensures Offset(ts, n) + i < |ConcatRows(ts, u)|
    ensures ConcatRows(ts, u)[Offset(ts, n) + i] == Align(ts[n].rows[i], ts[n].columns, u)
    decreases n
  {
    var rest := ts[1..];
    assert AllWellFormed(rest) by {
      forall m | 0 <= m < |rest| ensures WellFormed(rest[m]) {
        assert rest[m] == ts[m + 1];
      }
    }
    assert TotalRows(ts) == |ts[0].rows| + TotalRows(rest);
    if n > 0 {
      ConcatRowAt(rest, u, n - 1, i);
      assert rest[n - 1] == ts[n];
    }
  }

  /** Every row of the concatenation comes from one source: the sources' blocks of rows cover it. */
  lemma {:induction false} ConcatRowOrigin(ts: seq<Table>, row: nat)
    requires row < TotalRows(ts)
    ensures exists n | 0 <= n < |ts| :: Offset(ts, n) <= row < Offset(ts, n) + |ts[n].rows|
    decreases |ts|
  {
    assert TotalRows(ts) == |ts[0].rows| + TotalRows(ts[1..]);
    if row < |ts[0].rows| {
      assert Offset(ts, 0) == 0;
    } else {
      ConcatRowOrigin(ts[1..], row - |ts[0].rows|);
      var n :| 0 <= n < |ts[1..]| && Offset(ts[1..], n) <= row - |ts[0].rows| < Offset(ts[1..], n) + |ts[1..][n].rows|;
      assert ts[1..][n] == ts[n + 1];
      assert Offset(ts, n + 1) == |ts[0].rows| + Offset(ts[1..], n);
    }
  }

  /** A cell of the concatenation, by label: the source row's value under the same
      label, or None where that source has no such column. */
  lemma ConcatCell(ts: seq<Table>, n: nat, i: nat, k: nat)
    requires AllSources(ts) && n < |ts| && i < |ts[n].rows| && k < |UnionColumns(ts)|
    ensures var r := Concat(ts);
            var row := Offset(ts, n) + i;
            && row < |r.rows|
            && (forall j | 0 <= j < |ts[n].columns| && ts[n].columns[j] == r.columns[k] :: r.rows[row][k] == ts[n].rows[i][j])
            && (r.columns[k] !in ts[n].columns ==> r.rows[row][k] == None)
  {
    var u := UnionColumns(ts);
    ConcatRowAt(ts, u, n, i);
    var t := ts[n];
    if u[k] in t.columns {
      var j0 := IndexOf(t.columns, u[k]);
      forall j | 0 <= j < |t.columns| && t.columns[j] == u[k] ensures j == j0 {
        assert Source(t);
      }
    }
  }

  // ---------------------------------------------------------------------
  // us/concat/src/concat.py

  /** The four extracts in the order the script lists them. */
  function Fy16To19(fy16: Table, fy17: Table, fy18: Table, fy19: Table): seq<Table> {
    [fy16, fy17, fy18, fy19]
  }

  /** us/concat: the concatenation of the four extracts, written as it is. */
  function UsConcat(fy16: Table, fy17: Table, fy18: Table, fy19: Table): (df: Table)
    requires Source(fy16) && Source(fy17) && Source(fy18) && Source(fy19)
    ensures WellFormed(df)
    ensures df.columns == UnionColumns(Fy16To19(fy16, fy17, fy18, fy19))
    ensures |df.rows| == TotalRows(Fy16To19(fy16, fy17, fy18, fy19))
  {
    var files := Fy16To19(fy16, fy17, fy18, fy19);
    assert AllSources(files);
    Concat(files)
  }

  /** The first source's labels lead the union, in their own order. */
  lemma FirstSourceLeads(ts: seq<Table>)
    requires |ts| >= 1 && Source(ts[0])
    ensures ts[0].columns <= UnionColumns(ts)
  {
    UnionGrowsAtTheEnd(ts, 1);
    var t := ts[0];
    assert ts[..1] == [t];
    assert [t][..0] == [];
    AppendNewFresh([], t.columns);
  }

  lemma InOneOfFour(ts: seq<Table>, c: string)
    requires |ts| == 4
    ensures InSomeSource(ts, c) <==> c in ts[0].columns || c in ts[1].columns || c in ts[2].columns || c in ts[3].columns
  {
  }

  /** us/concat's labels pass through unchanged (no normalisation, no `id`):
      every label of every extract, once, fy16's first and in their order. Nothing
      is deduplicated: the row count is the sum of the four. */
  lemma UsConcatShape(fy16: Table, fy17: Table, fy18: Table, fy19: Table)
    requires Source(fy16) && Source(fy17) && Source(fy18) && Source(fy19)
    ensures var df := UsConcat(fy16, fy17, fy18, fy19);
            && (forall c :: c in df.columns <==> c in fy16.columns || c in fy17.columns || c in fy18.columns || c in fy19.columns)
            && DistinctColumns(df.columns) && fy16.columns <= df.columns
            && |df.rows| == |fy16.rows| + |fy17.rows| + |fy18.rows| + |fy19.rows|
  {
    var files := Fy16To19(fy16, fy17, fy18, fy19);
    assert AllSources(files);
    var df := UsConcat(fy16, fy17, fy18, fy19);
    assert df == Concat(files);
    FourOffsets(files);
    FirstSourceLeads(files);
    forall c ensures c in df.columns <==> c in fy16.columns || c in fy17.columns || c in fy18.columns || c in fy19.columns {
      InOneOfFour(files, c);
    }
  }

  /** us/concat's rows: all fy16 rows in order, then fy17, fy18 and fy19, each laid out over the union. */
  lemma UsConcatRowOrder(fy16: Table, fy17: Table, fy18: Table, fy19: Table)
    requires Source(fy16) && Source(fy17) && Source(fy18) && Source(fy19)
    ensures var df := UsConcat(fy16, fy17, fy18, fy19);
            df.rows == Block(fy16, df.columns) + Block(fy17, df.columns) + Block(fy18, df.columns) + Block(fy19, df.columns)
  {
    var files := Fy16To19(fy16, fy17, fy18, fy19);
    assert AllSources(files);
    var u := UnionColumns(files);
    assert UsConcat(fy16, fy17, fy18, fy19).rows == ConcatRows(files, u);
    ConcatRowsOfFour(files, u);
  }

  /** The rows of four sources are their four blocks, one after the other. */
  lemma ConcatRowsOfFour(ts: seq<Table>, u: seq<string>)
    requires |ts| == 4 && AllWellFormed(ts)
    ensures ConcatRows(ts, u) == Block(ts[0], u) + Block(ts[1], u) + Block(ts[2], u) + Block(ts[3], u)
  {
    var t1, t2, t3 := ts[1..], ts[2..], ts[3..];
    assert t1[1..] == t2 && t2[1..] == t3 && t3[1..] == [];
    assert t1[0] == ts[1] && t2[0] == ts[2] && t3[0] == ts[3];
    calc {
      ConcatRows(ts, u);
      Block(ts[0], u) + ConcatRows(t1, u);
      Block(ts[0], u) + (Block(ts[1], u) + ConcatRows(t2, u));
      Block(ts[0], u) + (Block(ts[1], u) + (Block(ts[2], u) + ConcatRows(t3, u)));
      Block(ts[0], u) + (Block(ts[1], u) + (Block(ts[2], u) + (Block(ts[3], u) + ConcatRows([], u))));
    }
  }

  /** The offsets of four sources. */
  lemma FourOffsets(ts: seq<Table>)
    requires |ts| == 4
    ensures Offset(ts, 1) == |ts[0].rows|
    ensures Offset(ts, 2) == |ts[0].rows| + |ts[1].rows|
    ensures Offset(ts, 3) == |ts[0].rows| + |ts[1].rows| + |ts[2].rows|
    ensures TotalRows(ts) == |ts[0].rows| + |ts[1].rows| + |ts[2].rows| + |ts[3].rows|
  {
    assert ts[1..][1..] == ts[2..];
    assert ts[2..][1..] == ts[3..];
    assert ts[3..][1..] == ts[4..];
  }

  // ---------------------------------------------------------------------
  // us-fy16-19/concat/src/concat.py (also the first steps of us-fy12-23)

  /** The `id` value of row `i`: `range(len(df))`, as its decimal text. */
  function IdCell(i: nat): Cell {
    Some(NatToString(i))
  }

  function IdColumn(n: nat): (col: seq<Cell>)
    ensures |col| == n
  {
    seq(n, i requires 0 <= i < n => IdCell(i))
  }

  /** The `id` cell of row `i` reads back as the number `i`. */
  lemma IdCellIsRowNumber(i: nat)
    ensures IdCell(i).Some? && IsDigits(IdCell(i).value) && ParseNat(IdCell(i).value) == i
  {
    ParseNatToString(i);
  }

  /** The steps after the concatenation: every label normalised (lines 117-118 of
      the fy12-23 script), then `id` = 0..N-1 in the final row order. The `id`
      column replaces any column already normalised to `id`, else it comes last;
      every other cell is the concatenation's. */
  function Numbered(merged: Table): (out: Table)
    requires WellFormed(merged)
    ensures WellFormed(out) && |out.rows| == |merged.rows|
    ensures var labels := NormaliseNames(merged.columns);
            out.columns == (if "id" in labels then labels else labels + ["id"])
    ensures forall i, j | 0 <= i < |out.rows| && 0 <= j < |out.columns| && out.columns[j] == "id" ::
              out.rows[i][j].Some? && IsDigits(out.rows[i][j].value) && ParseNat(out.rows[i][j].value) == i
    ensures forall i, j | 0 <= i < |out.rows| && 0 <= j < |merged.columns| && out.columns[j] != "id" ::
              out.rows[i][j] == merged.rows[i][j]
  {
    var out := SetColumn(Table(NormaliseNames(merged.columns), merged.rows), "id", IdColumn(|merged.rows|));
    assert forall i | 0 <= i < |out.rows| :: IdCell(i).Some? && IsDigits(IdCell(i).value) && ParseNat(IdCell(i).value) == i by {
      forall i | 0 <= i < |out.rows|
        ensures IdCell(i).Some? && IsDigits(IdCell(i).value) && ParseNat(IdCell(i).value) == i
      {
        IdCellIsRowNumber(i);
      }
    }
    out
  }

  /** us-fy16-19: concatenate the four extracts, then number the rows. */
  method ConcatFy16To19(fy16: Table, fy17: Table, fy18: Table, fy19: Table) returns (out: Table)
    requires Source(fy16) && Source(fy17) && Source(fy18) && Source(fy19)
    ensures out == Numbered(UsConcat(fy16, fy17, fy18, fy19))
  {
    var df := new Frame(UsConcat(fy16, fy17, fy18, fy19));
    df.SetColumns(NormaliseNames(df.columns));
    df.SetItem("id", IdColumn(|df.rows|));
    out := df.Value();
  }
}
