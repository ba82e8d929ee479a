/** The general-purpose cleaning script (clean/src/clean.py): the two
    area-of-responsibility labels become `aor`, the original text is kept in a
    copy under `area_of_responsibility`, the phrase "Area of Responsibility" is
    deleted from `aor`, and then the cleaning rules run. */
module Clean {
  import opened Wrappers
  import opened Frames
  import opened Text
  import opened CleanRules

  const AreaOfResponsibility: string := "area_of_responsibility"
  const EventAreaOfResponsibility: string := "event_area_of_responsibility"
  const Aor: string := "aor"

  /** The labels that end up as `aor`. */
  predicate IsAorLabel(c: string) {
    c == AreaOfResponsibility || c == EventAreaOfResponsibility || c == Aor
  }

  /** A label after the two renames. */
  function AorLabel(c: string): (r: string)
    ensures r == Aor <==> IsAorLabel(c)
  {
    if IsAorLabel(c) then Aor else c
  }

  function Relabel(columns: seq<string>): (r: seq<string>)
    ensures |r| == |columns| && forall j | 0 <= j < |r| :: r[j] == AorLabel(columns[j])
  {
    seq(|columns|, j requires 0 <= j < |columns| => AorLabel(columns[j]))
  }

  /** How many columns become `aor`: reading `df['aor']` needs exactly one. */
  function AorSources(columns: seq<string>): nat {
    Count(columns, AreaOfResponsibility) + Count(columns, EventAreaOfResponsibility) + Count(columns, Aor)
  }

  /** `rename({'area_of_responsibility': 'aor'})` then `rename({'event_area_of_responsibility': 'aor'})`:
      both labels become `aor`; renaming an absent label does nothing. */
  function UnifyAor(t: Table): (r: Table)
    ensures r.rows == t.rows && r.columns == Relabel(t.columns)
    ensures AreaOfResponsibility !in r.columns && EventAreaOfResponsibility !in r.columns
    ensures Count(r.columns, Aor) == AorSources(t.columns)
    ensures AorSources(t.columns) == 0 ==> r == t
  {
    var r1 := Rename(t, AreaOfResponsibility, Aor);
    var r := Rename(r1, EventAreaOfResponsibility, Aor);
    assert r.columns == Relabel(t.columns) by {
      forall j | 0 <= j < |t.columns| ensures r.columns[j] == AorLabel(t.columns[j]) {
        assert r1.columns[j] == if t.columns[j] == AreaOfResponsibility then Aor else t.columns[j];
      }
    }
    assert AreaOfResponsibility !in r.columns by {
      forall j | 0 <= j < |r.columns| ensures r.columns[j] != AreaOfResponsibility {
        assert r1.columns[j] != AreaOfResponsibility;
      }
    }
    CountSamePositions(r1.columns, t.columns, EventAreaOfResponsibility);
    r
  }

  /** `.str.replace('Area of Responsibility', '')` on one value; a missing value stays missing. */
  function RemovePhraseCell(c: Cell): (r: Cell)
    ensures r.Some? <==> c.Some?
    ensures c.Some? ==> r.value == RemoveAll(c.value, AorPhrase)
  {
    if c.Some? then Some(RemoveAll(c.value, AorPhrase)) else None
  }

  function RemovePhraseColumn(col: seq<Cell>): (r: seq<Cell>)
    ensures |r| == |col| && forall i | 0 <= i < |r| :: r[i] == RemovePhraseCell(col[i])
  {
    seq(|col|, i requires 0 <= i < |col| => RemovePhraseCell(col[i]))
  }

  /** The labels after the renames and the copy: the copy is the new last column. */
  function PreparedLabels(columns: seq<string>): seq<string> {
    Relabel(columns) + [AreaOfResponsibility]
  }

  /** The error `df['aor']` raises when the label is absent or repeated. */
  function AorError(columns: seq<string>): Error {
    if AorSources(columns) == 0 then MissingColumn(Aor) else AmbiguousColumn(Aor)
  }

  /** Everything before the rule loop: the renames, `df['area_of_responsibility'] = df['aor']`
      and the phrase removal. Reading `df['aor']` again after the copy gives the same
      values (`SelectOtherAfterSet`), so the phrase is removed from `aor` as read once. */
  function Prepare(t: Table): (r: Result<Table>)
    requires WellFormed(t)
    ensures r.Success? <==> AorSources(t.columns) == 1
    ensures r.Failure? ==> r.error == AorError(t.columns)
    ensures r.Success? ==> WellFormed(r.value) && |r.value.rows| == |t.rows| && r.value.columns == PreparedLabels(t.columns)
  {
    var u := UnifyAor(t);
    var aor :- Select(u, Aor);
    var v := SetColumn(u, AreaOfResponsibility, aor);
    Success(SetColumn(v, Aor, RemovePhraseColumn(aor)))
  }

  /** The whole transformation of the script, from the table read to the table written. */
  function CleanTable(t: Table, rules: seq<Rule>): (r: Result<Table>)
    requires WellFormed(t)
    ensures r.Success? ==> WellFormed(r.value) && |r.value.rows| == |t.rows| && r.value.columns == PreparedLabels(t.columns)
  {
    var p :- Prepare(t);
    ApplyRules(p, rules)
  }

  /** The script's main block, statement by statement: `df = df.rename(...)` rebinds
      `df` to a new frame, `df[...] = ...` and the rule loop change it in place. */
  method CleanFile(t: Table, rules: seq<Rule>) returns (r: Result<Table>)
    requires WellFormed(t)
    ensures r == CleanTable(t, rules)
  {
    var df := new Frame(t);
    df := new Frame(Rename(df.Value(), AreaOfResponsibility, Aor));
    df := new Frame(Rename(df.Value(), EventAreaOfResponsibility, Aor));
    assert df.Value() == UnifyAor(t);
    var aor := df.GetItem(Aor);
    if aor.Failure? {
      return Failure(aor.error);
    }
    df.SetItem(AreaOfResponsibility, aor.value);
    var again := df.GetItem(Aor);
    SelectOtherAfterSet(UnifyAor(t), AreaOfResponsibility, Aor, aor.value);
    df.SetItem(Aor, RemovePhraseColumn(again.value));
    assert df.Value() == Prepare(t).value;
    var err := RunRules(df, rules);
    if err.Some? {
      return Failure(err.value);
    }
    return Success(df.Value());
  }

  // ---------------------------------------------------------------------
  // What the script guarantees

  /** The run writes a file exactly when one column becomes `aor` and every rule then
      names a column that occurs exactly once; otherwise it aborts. */
  lemma CleanSucceedsIff(t: Table, rules: seq<Rule>)
    requires WellFormed(t)
    ensures CleanTable(t, rules).Success? <==>
              AorSources(t.columns) == 1 && forall k | 0 <= k < |rules| :: Count(PreparedLabels(t.columns), rules[k].column) == 1
  {
    var p := Prepare(t);
    if p.Success? {
      ApplyRulesSucceedsIff(p.value, rules);
    }
  }

  /** Before the rules: `aor` holds the source column's text with the phrase removed,
      the appended copy holds that text unchanged, and every other cell is as read. */
  lemma PrepareCells(t: Table)
    requires WellFormed(t) && Prepare(t).Success?
    ensures var p := Prepare(t).value;
            && (forall i, j | 0 <= i < |t.rows| && 0 <= j < |t.columns| ::
                  p.rows[i][j] == if IsAorLabel(t.columns[j]) then RemovePhraseCell(t.rows[i][j]) else t.rows[i][j])
            && (forall i, j | 0 <= i < |t.rows| && 0 <= j < |t.columns| && IsAorLabel(t.columns[j]) ::
                  p.rows[i][|t.columns|] == t.rows[i][j])
  {
    var u := UnifyAor(t);
    var aor := Select(u, Aor).value;
    var v := SetColumn(u, AreaOfResponsibility, aor);
    var p := SetColumn(v, Aor, RemovePhraseColumn(aor));
    assert Prepare(t).value == p;
    assert v.columns == u.columns + [AreaOfResponsibility];
    forall i, j | 0 <= i < |t.rows| && 0 <= j < |t.columns| && IsAorLabel(t.columns[j])
      ensures p.rows[i][|t.columns|] == t.rows[i][j]
    {
      assert u.columns[j] == Aor;
    }
  }

  /** After the rules, cell by cell: each original column, under its new label, holds
      its value (phrase removed in `aor`) as the rules for that label leave it, and the
      copy holds the original `aor` text as the rules for `area_of_responsibility` leave it. */
  lemma CleanCells(t: Table, rules: seq<Rule>)
    requires WellFormed(t) && CleanTable(t, rules).Success?
    ensures var r := CleanTable(t, rules).value;
            && (forall i, j | 0 <= i < |t.rows| && 0 <= j < |t.columns| ::
                  r.rows[i][j] == CellRules(rules, AorLabel(t.columns[j]),
                                    if IsAorLabel(t.columns[j]) then RemovePhraseCell(t.rows[i][j]) else t.rows[i][j]))
            && (forall i, j | 0 <= i < |t.rows| && 0 <= j < |t.columns| && IsAorLabel(t.columns[j]) ::
                  r.rows[i][|t.columns|] == CellRules(rules, AreaOfResponsibility, t.rows[i][j]))
  {
    var p := Prepare(t).value;
    PrepareCells(t);
    ApplyRulesCells(p, rules);
    assert p.columns[|t.columns|] == AreaOfResponsibility;
  }

  /** A column that is neither an area-of-responsibility column nor named by a rule is
      written exactly as it was read, at the same position. */
  lemma CleanKeepsOtherColumns(t: Table, rules: seq<Rule>, i: nat, j: nat)
    requires WellFormed(t) && CleanTable(t, rules).Success?
    requires i < |t.rows| && j < |t.columns| && !IsAorLabel(t.columns[j])
    requires forall k | 0 <= k < |rules| :: rules[k].column != t.columns[j]
    ensures CleanTable(t, rules).value.columns[j] == t.columns[j]
    ensures CleanTable(t, rules).value.rows[i][j] == t.rows[i][j]
  {
    CleanCells(t, rules);
    CellRulesUntouched(rules, t.columns[j], t.rows[i][j]);
  }

  /** Unless a rule names `aor`, the `aor` column holds the text read with every
      occurrence of the phrase removed and nothing else changed. */
  lemma CleanAorLosesPhrase(t: Table, rules: seq<Rule>, i: nat, j: nat)
    requires WellFormed(t) && CleanTable(t, rules).Success?
    requires i < |t.rows| && j < |t.columns| && IsAorLabel(t.columns[j])
    requires forall k | 0 <= k < |rules| :: rules[k].column != Aor
    ensures CleanTable(t, rules).value.columns[j] == Aor
    ensures CleanTable(t, rules).value.rows[i][j] == RemovePhraseCell(t.rows[i][j])
  {
    CleanCells(t, rules);
    CellRulesUntouched(rules, Aor, RemovePhraseCell(t.rows[i][j]));
  }

  /** Unless a rule names `area_of_responsibility`, the copy is the text as read, with
      the phrase and any surrounding whitespace still in it. */
  lemma CleanCopyIsUnstripped(t: Table, rules: seq<Rule>, i: nat, j: nat)
    requires WellFormed(t) && CleanTable(t, rules).Success?
    requires i < |t.rows| && j < |t.columns| && IsAorLabel(t.columns[j])
    requires forall k | 0 <= k < |rules| :: rules[k].column != AreaOfResponsibility
    ensures CleanTable(t, rules).value.columns[|t.columns|] == AreaOfResponsibility
    ensures CleanTable(t, rules).value.rows[i][|t.columns|] == t.rows[i][j]
  {
    CleanCells(t, rules);
    CellRulesUntouched(rules, AreaOfResponsibility, t.rows[i][j]);
  }

  /** A one-row table whose first column is `area_of_responsibility`, with no rules. */
  lemma {:induction false} CleanOneRow(text: string, other: string, c: Cell)
    requires !IsAorLabel(other)
    ensures CleanTable(Table([AreaOfResponsibility, other], [[Some(text), c]]), [])
         == Success(Table([Aor, other, AreaOfResponsibility], [[Some(RemoveAll(text, AorPhrase)), c, Some(text)]]))
  {
    var t := Table([AreaOfResponsibility, other], [[Some(text), c]]);
    assert AorSources(t.columns) == 1 by {
      CountSnoc([AreaOfResponsibility], other, AreaOfResponsibility);
      CountSnoc([AreaOfResponsibility], other, EventAreaOfResponsibility);
      CountSnoc([AreaOfResponsibility], other, Aor);
    }
    var r := CleanTable(t, []).value;
    assert r.columns == [Aor, other, AreaOfResponsibility];
    var aor, copy := Some(RemoveAll(text, AorPhrase)), Some(text);
    assert r.rows[0] == [aor, c, copy] by {
      CleanAorLosesPhrase(t, [], 0, 0);
      CleanKeepsOtherColumns(t, [], 0, 1);
      CleanCopyIsUnstripped(t, [], 0, 0);
    }
    assert r.rows == [[aor, c, copy]];
  }

  /** One row with `area_of_responsibility` = "Area of Responsibility - North" and no rules:
      `aor` becomes " - North" (the dash and spaces stay, as no rule strips `aor`) and
      the copy keeps the whole text. */
  lemma CleanExample(count: Cell)
    ensures CleanTable(Table([AreaOfResponsibility, "count"], [[Some("Area of Responsibility - North"), count]]), [])
         == Success(Table([Aor, "count", AreaOfResponsibility],
                          [[Some(" - North"), count, Some("Area of Responsibility - North")]]))
  {
    CleanOneRow("Area of Responsibility - North", "count", count);
    RemoveAorPhraseExample();
  }
}
