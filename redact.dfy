/** The cleaning script of the privacy-redacted release (us/clean/src/clean.py):
    `birth_date` is dropped, the two area-of-responsibility labels become `aor`,
    the phrase "Area of Responsibility" is deleted from `aor` (no copy of the
    original text is kept), and then the cleaning rules run. */
module Redact {
  import opened Wrappers
  import opened Frames
  import opened Text
  import opened CleanRules
  import opened Clean

  /** The columns the release withholds. */
  const BirthDate: string := "birth_date"

  /** The labels left after the drop and the renames. */
  function RedactedLabels(columns: seq<string>): seq<string> {
    Relabel(Keep(columns, DropMask(columns, BirthDate)))
  }

  /** Everything before the rule loop: the drop, the renames and the phrase removal. */
  function PrepareRedacted(t: Table): (r: Result<Table>)
    requires WellFormed(t)
    ensures r.Success? ==> WellFormed(r.value) && |r.value.rows| == |t.rows| && r.value.columns == RedactedLabels(t.columns)
  {
    var d :- Drop(t, BirthDate);
    var u := UnifyAor(d);
    var aor :- Select(u, Aor);
    Success(SetColumn(u, Aor, RemovePhraseColumn(aor)))
  }

  /** The whole transformation of the script, from the table read to the table written. */
  function RedactTable(t: Table, rules: seq<Rule>): (r: Result<Table>)
    requires WellFormed(t)
    ensures r.Success? ==> WellFormed(r.value) && |r.value.rows| == |t.rows| && r.value.columns == RedactedLabels(t.columns)
  {
    var p :- PrepareRedacted(t);
    ApplyRules(p, rules)
  }

  /** The script's main block, statement by statement, with the record count it reports
      after writing. */
  method RedactFile(t: Table, rules: seq<Rule>) returns (r: Result<Table>, records: nat)
    requires WellFormed(t)
    ensures r == RedactTable(t, rules)
    ensures r.Success? ==> records == |r.value.rows| == |t.rows|
  {
    var dropped := Drop(t, BirthDate);
    if dropped.Failure? {
      return Failure(dropped.error), 0;
    }
    var df := new Frame(dropped.value);
    df := new Frame(Rename(df.Value(), AreaOfResponsibility, Aor));
    df := new Frame(Rename(df.Value(), EventAreaOfResponsibility, Aor));
    assert df.Value() == UnifyAor(dropped.value);
    var aor := df.GetItem(Aor);
    if aor.Failure? {
      return Failure(aor.error), 0;
    }
    df.SetItem(Aor, RemovePhraseColumn(aor.value));
    var err := RunRules(df, rules);
    if err.Some? {
      return Failure(err.value), 0;
    }
    r := Success(df.Value());
    records := |df.rows|;
  }

  // ---------------------------------------------------------------------
  // What the script guarantees

  /** The drop does not change how many columns become `aor`. */
  lemma DropKeepsAorSources(columns: seq<string>)
    ensures AorSources(Keep(columns, DropMask(columns, BirthDate))) == AorSources(columns)
  {
    DropCountsOthers(columns, BirthDate, AreaOfResponsibility);
    DropCountsOthers(columns, BirthDate, EventAreaOfResponsibility);
    DropCountsOthers(columns, BirthDate, Aor);
  }

  /** The run writes a file exactly when `birth_date` is there, one column becomes `aor`
      and every rule then names a column that occurs exactly once; otherwise it aborts,
      with KeyError first of all when `birth_date` is missing. */
  lemma RedactSucceedsIff(t: Table, rules: seq<Rule>)
    requires WellFormed(t)
    ensures RedactTable(t, rules).Success? <==>
              && BirthDate in t.columns
              && AorSources(t.columns) == 1
              && forall k | 0 <= k < |rules| :: Count(RedactedLabels(t.columns), rules[k].column) == 1
    ensures BirthDate !in t.columns ==> RedactTable(t, rules) == Failure(MissingColumn(BirthDate))
  {
    DropKeepsAorSources(t.columns);
    var p := PrepareRedacted(t);
    if p.Success? {
      ApplyRulesSucceedsIff(p.value, rules);
    }
  }

  /** `birth_date` is gone, and so are both original area-of-responsibility labels:
      unlike the general script, no copy of the text before phrase removal is kept. */
  lemma RedactWithholds(t: Table, rules: seq<Rule>)
    requires WellFormed(t) && RedactTable(t, rules).Success?
    ensures var r := RedactTable(t, rules).value;
            BirthDate !in r.columns && AreaOfResponsibility !in r.columns && EventAreaOfResponsibility !in r.columns
  {
    var kept := Keep(t.columns, DropMask(t.columns, BirthDate));
    if BirthDate in kept {
      KeepOnlyKept(t.columns, DropMask(t.columns, BirthDate), BirthDate);
    }
  }

  /** Before the rules, cell by cell: each column other than `birth_date` keeps its value
      at its place among the kept columns, except `aor`, which loses the phrase. */
  lemma PrepareRedactedCells(t: Table, i: nat, j: nat)
    requires WellFormed(t) && PrepareRedacted(t).Success?
    requires i < |t.rows| && j < |t.columns| && t.columns[j] != BirthDate
    ensures var p := PrepareRedacted(t).value;
            var k := Rank(DropMask(t.columns, BirthDate)[..j]);
            && k < |p.columns| && p.columns[k] == AorLabel(t.columns[j])
            && p.rows[i][k] == if IsAorLabel(t.columns[j]) then RemovePhraseCell(t.rows[i][j]) else t.rows[i][j]
  {
    var d := Drop(t, BirthDate).value;
    var u := UnifyAor(d);
    var aor := Select(u, Aor).value;
    assert PrepareRedacted(t).value == SetColumn(u, Aor, RemovePhraseColumn(aor));
    DropKeepsOthers(t, BirthDate, i, j);
  }

  /** After the rules, cell by cell: each kept column, under its new label, holds its
      value (phrase removed in `aor`) as the rules for that label leave it. */
  lemma RedactCells(t: Table, rules: seq<Rule>, i: nat, j: nat)
    requires WellFormed(t) && RedactTable(t, rules).Success?
    requires i < |t.rows| && j < |t.columns| && t.columns[j] != BirthDate
    ensures var r := RedactTable(t, rules).value;
            var k := Rank(DropMask(t.columns, BirthDate)[..j]);
            && k < |r.columns| && r.columns[k] == AorLabel(t.columns[j])
            && r.rows[i][k] == CellRules(rules, AorLabel(t.columns[j]),
                                 if IsAorLabel(t.columns[j]) then RemovePhraseCell(t.rows[i][j]) else t.rows[i][j])
  {
    var p := PrepareRedacted(t).value;
    PrepareRedactedCells(t, i, j);
    ApplyRulesCells(p, rules);
  }

  /** A column that is neither `birth_date`, an area-of-responsibility column nor named
      by a rule is written as it was read, at its place among the kept columns. */
  lemma RedactKeepsOtherColumns(t: Table, rules: seq<Rule>, i: nat, j: nat)
    requires WellFormed(t) && RedactTable(t, rules).Success?
    requires i < |t.rows| && j < |t.columns| && t.columns[j] != BirthDate && !IsAorLabel(t.columns[j])
    requires forall k | 0 <= k < |rules| :: rules[k].column != t.columns[j]
    ensures var r := RedactTable(t, rules).value;
            var k := Rank(DropMask(t.columns, BirthDate)[..j]);
            k < |r.columns| && r.columns[k] == t.columns[j] && r.rows[i][k] == t.rows[i][j]
  {
    RedactCells(t, rules, i, j);
    CellRulesUntouched(rules, t.columns[j], t.rows[i][j]);
  }
}
