/** The identity assigner of us-fy12-23/concat: after the twelve yearly extracts
    are concatenated and numbered, every row gets `hashid`, the SHA-1 hex digest
    of the output path followed by the text of every cell in column order, and
    the run aborts unless those digests are pairwise distinct. */
module Identity {
  import opened Wrappers
  import opened Frames
  import opened Text
  import opened Concatenate

  // ---------------------------------------------------------------------
  // make_hashid

  /** `str()` of a cell: a missing value prints as `nan`. */
  function Render(c: Cell): (s: string)
    ensures c.Some? ==> s == c.value
    ensures c.None? ==> s == "nan"
  {
    if c.Some? then c.value else "nan"
  }

  function Rendered(row: seq<Cell>): seq<string> {
    seq(|row|, k requires 0 <= k < |row| => Render(row[k]))
  }

  /** `''.join(str(getattr(row, f)) for f in hash_fields)`: every cell of the row,
      `id` included, in column order and with nothing between them. */
  function RowText(row: seq<Cell>): string {
    Flatten(Rendered(row))
  }

  /** The text that is hashed: the output path, then the row's text. */
  function HashInput(salt: string, row: seq<Cell>): string {
    salt + RowText(row)
  }

  /** `make_hashid`: `sha1` stands for `hashlib.sha1(...).hexdigest()` of the UTF-8 bytes. */
  function MakeHashId(sha1: string -> string, salt: string, row: seq<Cell>): string {
    sha1(HashInput(salt, row))
  }

  /** `df.apply(make_hashid, axis=1)`. */
  function HashIds(sha1: string -> string, salt: string, rows: seq<seq<Cell>>): (hs: seq<Cell>)
    ensures |hs| == |rows|
    ensures forall i | 0 <= i < |rows| :: hs[i].Some? && hs[i].value == sha1(salt + RowText(rows[i]))
  {
    seq(|rows|, i requires 0 <= i < |rows| => Some(MakeHashId(sha1, salt, rows[i])))
  }

  /** Appending a cell appends its text. */
  lemma RowTextAppend(row: seq<Cell>, c: Cell)
    ensures RowText(row + [c]) == RowText(row) + Render(c)
  {
    assert Rendered(row + [c]) == Rendered(row) + [Render(c)];
    FlattenAppend(Rendered(row), [Render(c)]);
  }

  /** Field `k`'s text comes right after the text of the fields before it, with nothing between. */
  lemma RowTextFields(row: seq<Cell>, k: nat)
    requires k < |row|
    ensures RowText(row[..k]) + Render(row[k]) <= RowText(row)
  {
    assert row[..k] + [row[k]] == row[..k + 1];
    RowTextAppend(row[..k], row[k]);
    assert Rendered(row) == Rendered(row[..k + 1]) + Rendered(row[k + 1..]);
    FlattenAppend(Rendered(row[..k + 1]), Rendered(row[k + 1..]));
  }

  /** The same row hashed under two output paths: the texts agree exactly when the paths do. */
  lemma SaltSeparates(salt1: string, salt2: string, row: seq<Cell>)
    ensures HashInput(salt1, row) == HashInput(salt2, row) <==> salt1 == salt2
  {
    if HashInput(salt1, row) == HashInput(salt2, row) {
      assert |salt1| == |salt2|;
      assert salt1 == HashInput(salt1, row)[..|salt1|];
    }
  }

  // ---------------------------------------------------------------------
  // The uniqueness assertion

  predicate Distinct<T(==)>(xs: seq<T>) {
    forall i, j | 0 <= i < j < |xs| :: xs[i] != xs[j]
  }

  /** The number of different values in `xs` equals its length exactly when no value repeats. */
  lemma {:induction false} SetSizeIsLength<T>(xs: seq<T>)
    ensures |set x | x in xs| <= |xs|
    ensures |set x | x in xs| == |xs| <==> Distinct(xs)
    decreases |xs|
  {
    if |xs| > 0 {
      var rest := xs[1..];
      SetSizeIsLength(rest);
      var s, s' := set x | x in xs, set x | x in rest;
      assert s == s' + {xs[0]};
      if xs[0] in rest {
        var k :| 0 <= k < |rest| && rest[k] == xs[0];
        assert xs[k + 1] == xs[0];
        assert s == s';
      } else {
        assert |s| == |s'| + 1;
        assert Distinct(xs) <==> Distinct(rest) by {
          if Distinct(rest) {
            forall i, j | 0 <= i < j < |xs| ensures xs[i] != xs[j] {
              if i > 0 {
                assert xs[i] == rest[i - 1] && xs[j] == rest[j - 1];
              } else {
                assert xs[j] == rest[j - 1];
              }
            }
          }
          if Distinct(xs) {
            forall i, j | 0 <= i < j < |rest| ensures rest[i] != rest[j] {
              assert rest[i] == xs[i + 1] && rest[j] == xs[j + 1];
            }
          }
        }
      }
    }
  }

  /** `assert len(df['hashid']) == len(set(df['hashid']))`. With one `hashid`
      column this compares the row count with the number of different digests.
      With a repeated `hashid` label `df['hashid']` is a DataFrame: its length is
      the row count and iterating it yields its labels, all `hashid`. */
  predicate UniquenessHolds(t: Table): (ok: bool)
    requires WellFormed(t)
    ensures Count(t.columns, "hashid") == 1 ==> (ok <==> Distinct(Select(t, "hashid").value))
    ensures Count(t.columns, "hashid") != 1 ==> (ok <==> |t.rows| == 1)
  {
    var col := Select(t, "hashid");
    if col.Success? then
      SetSizeIsLength(col.value);
      |col.value| == |set h | h in col.value|
    else |t.rows| == 1
  }

  /** `df['hashid'] = df.apply(make_hashid, axis=1)`: the digests are computed over the
      columns as they stand, so a `hashid` column the sources already had is hashed too. */
  function WithHashIds(t: Table, salt: string, sha1: string -> string): (r: Table)
    requires WellFormed(t)
    ensures WellFormed(r) && |r.rows| == |t.rows| && "hashid" in r.columns
    ensures Count(t.columns, "hashid") <= 1 ==> Select(r, "hashid") == Success(HashIds(sha1, salt, t.rows))
  {
    var hs := HashIds(sha1, salt, t.rows);
    if Count(t.columns, "hashid") <= 1 then
      SelectAfterSet(t, "hashid", hs);
      SetColumn(t, "hashid", hs)
    else SetColumn(t, "hashid", hs)
  }

  /** The assertion passes on a table whose `hashid` label was absent or unique exactly
      when no two rows got the same digest; with a repeated label, exactly when there is one row. */
  lemma UniquenessMeansDistinct(t: Table, hs: seq<Cell>)
    requires WellFormed(t) && |hs| == |t.rows|
    ensures UniquenessHolds(SetColumn(t, "hashid", hs)) <==>
            if Count(t.columns, "hashid") <= 1 then Distinct(hs) else |t.rows| == 1
  {
    if Count(t.columns, "hashid") <= 1 {
      SelectAfterSet(t, "hashid", hs);
      SetSizeIsLength(hs);
    } else {
      assert "hashid" in t.columns;
      assert SetColumn(t, "hashid", hs).columns == t.columns;
    }
  }

  // ---------------------------------------------------------------------
  // us-fy12-23/concat/src/concat.py

  /** The whole script on its twelve extracts: concatenate, number, hash, check.
      `salt` is the output path. */
  function Fy12To23(files: seq<Table>, salt: string, sha1: string -> string): (r: Result<Table>)
    requires |files| == 12 && AllSources(files)
    ensures r.Failure? ==> r.error == DuplicateHashId
    ensures r.Success? ==> WellFormed(r.value) && |r.value.rows| == TotalRows(files) && "hashid" in r.value.columns
  {
    var t := WithHashIds(Numbered(Concat(files)), salt, sha1);
    if UniquenessHolds(t) then Success(t) else Failure(DuplicateHashId)
  }

  /** The script as it runs, on one DataFrame changed in place. */
  method ConcatFy12To23(files: seq<Table>, salt: string, sha1: string -> string) returns (r: Result<Table>)
    requires |files| == 12 && AllSources(files)
    ensures r == Fy12To23(files, salt, sha1)
  {
    var df := new Frame(Concat(files));
    df.SetColumns(NormaliseNames(df.columns));
    df.SetItem("id", IdColumn(|df.rows|));
    var hashes := HashIds(sha1, salt, df.rows);
    df.SetItem("hashid", hashes);
    var col := df.GetItem("hashid");
    var unique := if col.Success? then |col.value| == |set h | h in col.value| else |df.rows| == 1;
    if unique {
      r := Success(df.Value());
    } else {
      r := Failure(DuplicateHashId);
    }
  }

  /** What the script produces: with the labels of the sources not normalising to
      `hashid` more than once, the run aborts exactly when two rows get the same
      digest; otherwise the output is the numbered concatenation with `hashid` set
      to each row's digest, and those digests are pairwise distinct. */
  lemma Fy12To23Outcome(files: seq<Table>, salt: string, sha1: string -> string)
    requires |files| == 12 && AllSources(files)
    ensures var n := Numbered(Concat(files));
            var hs := HashIds(sha1, salt, n.rows);
            var r := Fy12To23(files, salt, sha1);
            && (Count(n.columns, "hashid") <= 1 ==> (r.Success? <==> Distinct(hs)))
            && (Count(n.columns, "hashid") > 1 ==> (r.Success? <==> |n.rows| == 1))
            && (r.Failure? ==> r.error == DuplicateHashId)
            && (r.Success? ==> r.value == SetColumn(n, "hashid", hs))
            && (r.Success? && Count(n.columns, "hashid") <= 1 ==>
                  var w := r.value;
                  |w.rows| == |n.rows| &&
                  forall i, j | 0 <= i < |n.rows| && 0 <= j < |w.columns| && w.columns[j] == "hashid" ::
                    j < |w.rows[i]| && w.rows[i][j] == Some(MakeHashId(sha1, salt, n.rows[i])))
  {
    var n := Numbered(Concat(files));
    HashedOutcome(n, salt, sha1);
  }

  /** The hashing step and the assertion on any table. */
  lemma HashedOutcome(n: Table, salt: string, sha1: string -> string)
    requires WellFormed(n)
    ensures var hs := HashIds(sha1, salt, n.rows);
            var w := WithHashIds(n, salt, sha1);
            && w == SetColumn(n, "hashid", hs)
            && (Count(n.columns, "hashid") <= 1 ==> (UniquenessHolds(w) <==> Distinct(hs)))
            && (Count(n.columns, "hashid") > 1 ==> (UniquenessHolds(w) <==> |n.rows| == 1))
            && (Count(n.columns, "hashid") <= 1 ==>
                  |w.rows| == |n.rows| &&
                  forall i, j | 0 <= i < |n.rows| && 0 <= j < |w.columns| && w.columns[j] == "hashid" ::
                    j < |w.rows[i]| && w.rows[i][j] == Some(MakeHashId(sha1, salt, n.rows[i])))
  {
    UniquenessMeansDistinct(n, HashIds(sha1, salt, n.rows));
  }

  // ---------------------------------------------------------------------
  // What `id` contributes to the digest

  /** When no source label normalises to `id`, the numbered row hashes the source
      row's text followed by the row number. */
  lemma NumberedHashInput(merged: Table, salt: string, i: nat)
    requires WellFormed(merged) && "id" !in NormaliseNames(merged.columns) && i < |merged.rows|
    ensures HashInput(salt, Numbered(merged).rows[i]) == salt + RowText(merged.rows[i]) + NatToString(i)
  {
    NumberedRow(merged, i);
    RowTextAppend(merged.rows[i], IdCell(i));
  }

  /** When no source label normalises to `id`, the `id` cell is appended to the row. */
  lemma NumberedRow(merged: Table, i: nat)
    requires WellFormed(merged) && "id" !in NormaliseNames(merged.columns) && i < |merged.rows|
    ensures Numbered(merged).rows[i] == merged.rows[i] + [IdCell(i)]
  {
    var t := Table(NormaliseNames(merged.columns), merged.rows);
    SetColumnAppends(t, "id", IdColumn(|merged.rows|));
    assert Numbered(merged) == SetColumn(t, "id", IdColumn(|merged.rows|));
  }

  /** Two source rows that are exact duplicates still hash different texts once
      numbered, because `id` is among the hashed columns: only a SHA-1 collision
      can make the assertion fire on them. */
  lemma DuplicateRowsHashApart(merged: Table, salt: string, i: nat, j: nat)
    requires WellFormed(merged) && "id" !in NormaliseNames(merged.columns)
    requires i < j < |merged.rows| && merged.rows[i] == merged.rows[j]
    ensures var n := Numbered(merged);
            HashInput(salt, n.rows[i]) != HashInput(salt, n.rows[j])
  {
    NumberedHashInput(merged, salt, i);
    NumberedHashInput(merged, salt, j);
    var p := salt + RowText(merged.rows[i]);
    ParseNatToString(i);
    ParseNatToString(j);
    assert NatToString(i) == (p + NatToString(i))[|p|..];
    assert NatToString(j) == (p + NatToString(j))[|p|..];
  }

  // ---------------------------------------------------------------------
  // No separator between the hashed cells

  /** As written, the cells are joined with nothing between them, so a row whose
      text ends in a digit can absorb part of the next row number: when row 1's text
      is row 11's text followed by "1", both rows hash the same text ("…1" + "1" and
      "…" + "11"), and the uniqueness assertion aborts the run whatever the digest. */
  lemma AsWrittenRowsCollide(files: seq<Table>, salt: string, sha1: string -> string)
    requires |files| == 12 && AllSources(files)
    requires var m := Concat(files);
             && "id" !in NormaliseNames(m.columns) && "hashid" !in NormaliseNames(m.columns)
             && |m.rows| >= 12 && RowText(m.rows[1]) == RowText(m.rows[11]) + "1"
    ensures Fy12To23(files, salt, sha1) == Failure(DuplicateHashId)
  {
    var m := Concat(files);
    var n := Numbered(m);
    RowsOneAndElevenHashAlike(m, salt, sha1);
    assert Count(n.columns, "hashid") == 0;
    UniquenessMeansDistinct(n, HashIds(sha1, salt, n.rows));
  }

  lemma RowsOneAndElevenHashAlike(m: Table, salt: string, sha1: string -> string)
    requires WellFormed(m) && "id" !in NormaliseNames(m.columns)
    requires |m.rows| >= 12 && RowText(m.rows[1]) == RowText(m.rows[11]) + "1"
    ensures !Distinct(HashIds(sha1, salt, Numbered(m).rows))
  {
    var n := Numbered(m);
    NumberedHashInput(m, salt, 1);
    NumberedHashInput(m, salt, 11);
    OneAndEleven();
    assert HashInput(salt, n.rows[1]) == HashInput(salt, n.rows[11]);
    var hs := HashIds(sha1, salt, n.rows);
    assert hs[1] == hs[11];
  }

  lemma OneAndEleven()
    ensures NatToString(1) == "1" && NatToString(11) == "11"
  {
    assert NatToString(11) == NatToString(1) + [DigitChar(1)];
  }

  /** One input that shows it: fy12 holds twelve rows under the single label `x`,
      row 1 reading "a1", row 11 reading "a" and the others reading `other`; the
      other eleven extracts have the same header and no rows. */
  function CollidingExtracts(other: string): seq<Table> {
    var rows := seq(12, i requires 0 <= i < 12 => [Some(if i == 1 then "a1" else if i == 11 then "a" else other)]);
    [Table(["x"], rows)] + seq(11, n => Table(["x"], []))
  }

  lemma AsWrittenCollisionExample(other: string, salt: string, sha1: string -> string)
    ensures |CollidingExtracts(other)| == 12 && AllSources(CollidingExtracts(other))
    ensures Fy12To23(CollidingExtracts(other), salt, sha1) == Failure(DuplicateHashId)
  {
    CollidingPremises(other);
    AsWrittenRowsCollide(CollidingExtracts(other), salt, sha1);
  }

  lemma CollidingPremises(other: string)
    ensures |CollidingExtracts(other)| == 12 && AllSources(CollidingExtracts(other))
    ensures var m := Concat(CollidingExtracts(other));
            && "id" !in NormaliseNames(m.columns) && "hashid" !in NormaliseNames(m.columns)
            && |m.rows| >= 12 && RowText(m.rows[1]) == RowText(m.rows[11]) + "1"
  {
    CollidingMerge(other);
    CollidingTable(Concat(CollidingExtracts(other)));
  }

  lemma CollidingTable(m: Table)
    requires m.columns == ["x"] && |m.rows| >= 12 && m.rows[1] == [Some("a1")] && m.rows[11] == [Some("a")]
    ensures "id" !in NormaliseNames(m.columns) && "hashid" !in NormaliseNames(m.columns)
    ensures RowText(m.rows[1]) == RowText(m.rows[11]) + "1"
  {
    CollidingLiterals();
  }

  lemma CollidingLiterals()
    ensures NormaliseNames(["x"]) == ["x"]
    ensures RowText([Some("a1")]) == RowText([Some("a")]) + "1"
  {
    assert NormaliseName("x") == "x";
    assert RowText([Some("a1")]) == "a1" && RowText([Some("a")]) == "a";
  }

  lemma CollidingSources(other: string)
    ensures var files := CollidingExtracts(other);
            |files| == 12 && AllSources(files) && forall n | 0 <= n < 12 :: files[n].columns == ["x"]
  {
  }

  lemma CollidingMerge(other: string)
    ensures |CollidingExtracts(other)| == 12 && AllSources(CollidingExtracts(other))
    ensures var m := Concat(CollidingExtracts(other));
            && m.columns == ["x"] && |m.rows| >= 12
            && m.rows[1] == [Some("a1")] && m.rows[11] == [Some("a")]
  {
    var files := CollidingExtracts(other);
    CollidingSources(other);
    SameColumnsUnion(files, ["x"]);
    CollidingRows(other);
  }

  lemma CollidingRows(other: string)
    ensures |CollidingExtracts(other)| == 12 && AllWellFormed(CollidingExtracts(other))
    ensures var rows := ConcatRows(CollidingExtracts(other), ["x"]);
            |rows| >= 12 && rows[1] == [Some("a1")] && rows[11] == [Some("a")]
  {
    var files := CollidingExtracts(other);
    CollidingSources(other);
    ConcatRowAt(files, ["x"], 0, 1);
    ConcatRowAt(files, ["x"], 0, 11);
  }

  /** The corrected text: every cell preceded by a separator that no row number
      contains, so the last field of the text is the row number itself. */
  function DelimitedText(row: seq<Cell>): string {
    Flatten(Fields(row))
  }

  function Fields(row: seq<Cell>): seq<string> {
    seq(|row|, k requires 0 <= k < |row| => "|" + Render(row[k]))
  }

  function DelimitedHashIds(sha1: string -> string, salt: string, rows: seq<seq<Cell>>): (hs: seq<Cell>)
    ensures |hs| == |rows|
    ensures forall i | 0 <= i < |rows| :: hs[i].Some? && hs[i].value == sha1(salt + DelimitedText(rows[i]))
  {
    seq(|rows|, i requires 0 <= i < |rows| => Some(sha1(salt + DelimitedText(rows[i]))))
  }

  /** The script with the corrected hash text. */
  function Fy12To23Delimited(files: seq<Table>, salt: string, sha1: string -> string): (r: Result<Table>)
    requires |files| == 12 && AllSources(files)
    ensures r.Failure? ==> r.error == DuplicateHashId
    ensures r.Success? ==> WellFormed(r.value) && |r.value.rows| == TotalRows(files) && "hashid" in r.value.columns
  {
    var n := Numbered(Concat(files));
    var t := SetColumn(n, "hashid", DelimitedHashIds(sha1, salt, n.rows));
    if UniquenessHolds(t) then Success(t) else Failure(DuplicateHashId)
  }

  lemma DelimitedTextAppend(row: seq<Cell>, c: Cell)
    ensures DelimitedText(row + [c]) == DelimitedText(row) + "|" + Render(c)
  {
    assert Fields(row + [c]) == Fields(row) + ["|" + Render(c)];
    FlattenAppend(Fields(row), ["|" + Render(c)]);
  }

  /** With the corrected text, and a digest that tells different texts apart, the
      assertion never fires: different row numbers give different texts. */
  lemma DelimitedNeverCollides(files: seq<Table>, salt: string, sha1: string -> string)
    requires |files| == 12 && AllSources(files)
    requires var labels := NormaliseNames(Concat(files).columns); "id" !in labels && "hashid" !in labels
    requires forall a, b :: sha1(a) == sha1(b) ==> a == b
    ensures Fy12To23Delimited(files, salt, sha1).Success?
  {
    var m := Concat(files);
    var n := Numbered(m);
    var hs := DelimitedHashIds(sha1, salt, n.rows);
    DelimitedDistinct(m, salt, sha1);
    assert Count(n.columns, "hashid") == 0;
    UniquenessMeansDistinct(n, hs);
  }

  lemma DelimitedDistinct(m: Table, salt: string, sha1: string -> string)
    requires WellFormed(m) && "id" !in NormaliseNames(m.columns)
    requires forall a, b :: sha1(a) == sha1(b) ==> a == b
    ensures Distinct(DelimitedHashIds(sha1, salt, Numbered(m).rows))
  {
    var hs := DelimitedHashIds(sha1, salt, Numbered(m).rows);
    forall i, j | 0 <= i < j < |hs| ensures hs[i] != hs[j] {
      DelimitedRowsDiffer(m, salt, i, j);
    }
  }

  lemma DelimitedRowsDiffer(m: Table, salt: string, i: nat, j: nat)
    requires WellFormed(m) && "id" !in NormaliseNames(m.columns) && i < j < |m.rows|
    ensures var n := Numbered(m);
            salt + DelimitedText(n.rows[i]) != salt + DelimitedText(n.rows[j])
  {
    NumberedDelimited(m, salt, i);
    NumberedDelimited(m, salt, j);
    ParseNatToString(i);
    ParseNatToString(j);
    var di, dj := NatToString(i), NatToString(j);
    assert '|' !in di && '|' !in dj;
    LastFieldDetermined(salt + DelimitedText(m.rows[i]), di, salt + DelimitedText(m.rows[j]), dj, '|');
  }

  lemma NumberedDelimited(m: Table, salt: string, i: nat)
    requires WellFormed(m) && "id" !in NormaliseNames(m.columns) && i < |m.rows|
    ensures salt + DelimitedText(Numbered(m).rows[i]) == salt + DelimitedText(m.rows[i]) + ['|'] + NatToString(i)
  {
    NumberedRow(m, i);
    DelimitedTextAppend(m.rows[i], IdCell(i));
  }
}
