/** The cleaning-rule loop both cleaning scripts share: for each column named in
    the rules file, in the file's order, every value is stripped of surrounding
    whitespace and then, if the stripped value is one of the rule's keys, replaced
    by the value the rule maps it to. */
module CleanRules {
  import opened Wrappers
  import opened Frames
  import opened Text

  /** One entry of the rules file: a column and its value substitutions. */
  datatype Rule = Rule(column: string, substitutions: map<string, string>)

  /** The columns of a rules file are the keys of a mapping, so none repeats. */
  predicate DistinctRuleColumns(rules: seq<Rule>) {
    forall k, l | 0 <= k < l < |rules| :: rules[k].column != rules[l].column
  }

  /** `.str.strip().replace(substitutions)` on one value: a whole-value lookup
      after stripping; a value that is not a key stays stripped. */
  function CleanValue(v: string, substitutions: map<string, string>): (r: string)
    ensures Strip(v) in substitutions ==> r == substitutions[Strip(v)]
    ensures Strip(v) !in substitutions ==> r == Strip(v) && Stripped(r)
  {
    var s := Strip(v);
    if s in substitutions then substitutions[s] else s
  }

  /** A missing value stays missing. */
  function CleanCell(c: Cell, substitutions: map<string, string>): (r: Cell)
    ensures r.Some? <==> c.Some?
    ensures c.Some? ==> r.value == CleanValue(c.value, substitutions)
  {
    if c.Some? then Some(CleanValue(c.value, substitutions)) else None
  }

  function CleanColumn(col: seq<Cell>, substitutions: map<string, string>): (r: seq<Cell>)
    ensures |r| == |col|
  {
    seq(|col|, i requires 0 <= i < |col| => CleanCell(col[i], substitutions))
  }

  /** `df[k] = df[k].str.strip().replace(cleanrules[k])`. A column that is absent
      or repeated aborts the run. */
  function ApplyRule(t: Table, rule: Rule): (r: Result<Table>)
    requires WellFormed(t)
    ensures r.Success? <==> Count(t.columns, rule.column) == 1
    ensures r.Success? ==> WellFormed(r.value) && r.value.columns == t.columns && |r.value.rows| == |t.rows|
  {
    var col :- Select(t, rule.column);
    Success(SetColumn(t, rule.column, CleanColumn(col, rule.substitutions)))
  }

  /** The loop over the rules, in order; the first failing rule aborts the run. */
  function ApplyRules(t: Table, rules: seq<Rule>): (r: Result<Table>)
    requires WellFormed(t)
    ensures r.Success? ==> WellFormed(r.value) && r.value.columns == t.columns && |r.value.rows| == |t.rows|
    decreases |rules|
  {
    if |rules| == 0 then Success(t)
    else
      var next :- ApplyRule(t, rules[0]);
      ApplyRules(next, rules[1..])
  }

  /** The loop as the scripts run it, on the DataFrame in place. */
  method RunRules(df: Frame, rules: seq<Rule>) returns (err: Option<Error>)
    requires df.Valid()
    modifies df
    ensures df.Valid()
    ensures err.None? ==> ApplyRules(old(df.Value()), rules) == Success(df.Value())
    ensures err.Some? ==> ApplyRules(old(df.Value()), rules) == Failure(err.value)
  {
    for n := 0 to |rules|
      invariant df.Valid()
      invariant ApplyRules(old(df.Value()), rules) == ApplyRules(df.Value(), rules[n..])
    {
      var rule := rules[n];
      assert rules[n..][1..] == rules[n + 1..];
      var col := df.GetItem(rule.column);
      if col.Failure? {
        return Some(col.error);
      }
      df.SetItem(rule.column, CleanColumn(col.value, rule.substitutions));
    }
    assert rules[|rules|..] == [];
    return None;
  }

  // ---------------------------------------------------------------------
  // What the loop guarantees

  /** Rule `k` is the first whose column is not there exactly once. */
  predicate FirstBadRule(columns: seq<string>, rules: seq<Rule>, k: nat) {
    && k < |rules| && Count(columns, rules[k].column) != 1
    && forall m | 0 <= m < k :: Count(columns, rules[m].column) == 1
  }

  /** The error a script aborts with when `df[name]` is not a single column. */
  function SelectError(columns: seq<string>, name: string): Error {
    if name in columns then AmbiguousColumn(name) else MissingColumn(name)
  }

  /** The loop runs to the end exactly when every rule names a column that occurs
      exactly once. */
  lemma {:induction false} ApplyRulesSucceedsIff(t: Table, rules: seq<Rule>)
    requires WellFormed(t)
    ensures ApplyRules(t, rules).Success? <==> forall k | 0 <= k < |rules| :: Count(t.columns, rules[k].column) == 1
    decreases |rules|
  {
    if |rules| > 0 {
      var first := ApplyRule(t, rules[0]);
      if first.Success? {
        ApplyRulesSucceedsIff(first.value, rules[1..]);
        assert forall k | 1 <= k < |rules| :: rules[1..][k - 1] == rules[k];
      }
    }
  }

  /** Otherwise it stops with the error of the first rule whose column is absent or repeated. */
  lemma {:induction false} ApplyRulesFailsAt(t: Table, rules: seq<Rule>)
    requires WellFormed(t) && ApplyRules(t, rules).Failure?
    ensures exists k: nat :: FirstBadRule(t.columns, rules, k) && ApplyRules(t, rules).error == SelectError(t.columns, rules[k].column)
    decreases |rules|
  {
    var first := ApplyRule(t, rules[0]);
    if first.Success? {
      var rest := rules[1..];
      ApplyRulesFailsAt(first.value, rest);
      var k: nat :| FirstBadRule(t.columns, rest, k) && ApplyRules(first.value, rest).error == SelectError(t.columns, rest[k].column);
      assert rest[k] == rules[k + 1];
      assert forall m | 1 <= m <= k :: rest[m - 1] == rules[m];
      assert FirstBadRule(t.columns, rules, k + 1);
    } else {
      assert FirstBadRule(t.columns, rules, 0);
    }
  }

  /** A cell of a column labelled `name` after the rules: each rule for `name`, in order,
      cleans it; the other rules leave it alone. */
  function CellRules(rules: seq<Rule>, name: string, c: Cell): Cell
    decreases |rules|
  {
    if |rules| == 0 then c
    else CellRules(rules[1..], name, if rules[0].column == name then CleanCell(c, rules[0].substitutions) else c)
  }

  /** The loop, cell by cell: every cell becomes `CellRules` of its column's label and its
      old value; the rows keep their order and the columns their labels. */
  lemma {:induction false} ApplyRulesCells(t: Table, rules: seq<Rule>)
    requires WellFormed(t) && ApplyRules(t, rules).Success?
    ensures var r := ApplyRules(t, rules).value;
            forall i, j | 0 <= i < |t.rows| && 0 <= j < |t.columns| ::
              r.rows[i][j] == CellRules(rules, t.columns[j], t.rows[i][j])
    decreases |rules|
  {
    if |rules| > 0 {
      var t1 := ApplyRule(t, rules[0]).value;
      ApplyRuleCells(t, rules[0]);
      ApplyRulesCells(t1, rules[1..]);
    }
  }

  /** One rule rewrites the cells of its column and leaves every other cell alone. */
  lemma ApplyRuleCells(t: Table, rule: Rule)
    requires WellFormed(t) && ApplyRule(t, rule).Success?
    ensures var r := ApplyRule(t, rule).value;
            forall i, j | 0 <= i < |t.rows| && 0 <= j < |t.columns| ::
              r.rows[i][j] == if t.columns[j] == rule.column then CleanCell(t.rows[i][j], rule.substitutions) else t.rows[i][j]
  {
    var col := Select(t, rule.column).value;
    var r := SetColumn(t, rule.column, CleanColumn(col, rule.substitutions));
    assert ApplyRule(t, rule).value == r;
  }

  /** A column no rule names keeps every value. */
  lemma {:induction false} CellRulesUntouched(rules: seq<Rule>, name: string, c: Cell)
    requires forall k | 0 <= k < |rules| :: rules[k].column != name
    ensures CellRules(rules, name, c) == c
    decreases |rules|
  {
    if |rules| > 0 {
      CellRulesUntouched(rules[1..], name, c);
    }
  }

  /** With distinct rule columns a named column is cleaned once, by its own rule. */
  lemma {:induction false} CellRulesOnce(rules: seq<Rule>, k: nat, c: Cell)
    requires DistinctRuleColumns(rules) && k < |rules|
    ensures CellRules(rules, rules[k].column, c) == CleanCell(c, rules[k].substitutions)
    decreases |rules|
  {
    var name, rest := rules[k].column, rules[1..];
    if k == 0 {
      CellRulesUntouched(rest, name, CleanCell(c, rules[0].substitutions));
    } else {
      assert rest[k - 1] == rules[k];
      CellRulesOnce(rest, k - 1, c);
    }
  }

  // ---------------------------------------------------------------------
  // Running the rules twice

  /** A rule whose replacement values are already stripped and are not keys themselves. */
  predicate SettledSubstitutions(substitutions: map<string, string>) {
    forall key | key in substitutions :: Stripped(substitutions[key]) && substitutions[key] !in substitutions
  }

  /** Cleaning a value twice with such a rule is cleaning it once. */
  lemma CleanValueIdempotent(v: string, substitutions: map<string, string>)
    requires SettledSubstitutions(substitutions)
    ensures CleanValue(CleanValue(v, substitutions), substitutions) == CleanValue(v, substitutions)
  {
    var r := CleanValue(v, substitutions);
    assert Stripped(r) && r !in substitutions;
    StripStripped(r);
  }

  /** Line-for-line: running one rule a second time on its own output changes nothing. */
  lemma ApplyRuleIdempotent(t: Table, rule: Rule)
    requires WellFormed(t) && SettledSubstitutions(rule.substitutions) && ApplyRule(t, rule).Success?
    ensures var r := ApplyRule(t, rule).value;
            ApplyRule(r, rule) == Success(r)
  {
    var col := Select(t, rule.column).value;
    var v := CleanColumn(col, rule.substitutions);
    var r := SetColumn(t, rule.column, v);
    SelectAfterSet(t, rule.column, v);
    forall i | 0 <= i < |v| ensures CleanCell(v[i], rule.substitutions) == v[i] {
      if col[i].Some? {
        CleanValueIdempotent(col[i].value, rule.substitutions);
      }
    }
    assert CleanColumn(v, rule.substitutions) == v;
    SetColumnSelected(r, rule.column);
  }

  /** Every rule of the file is settled. */
  predicate SettledRules(rules: seq<Rule>) {
    forall k | 0 <= k < |rules| :: SettledSubstitutions(rules[k].substitutions)
  }

  /** With distinct, settled rules a cell cleaned twice by the whole loop is cleaned once. */
  lemma CellRulesIdempotent(rules: seq<Rule>, name: string, c: Cell)
    requires DistinctRuleColumns(rules) && SettledRules(rules)
    ensures CellRules(rules, name, CellRules(rules, name, c)) == CellRules(rules, name, c)
  {
    if k: nat :| k < |rules| && rules[k].column == name {
      var subs := rules[k].substitutions;
      CellRulesOnce(rules, k, c);
      CellRulesOnce(rules, k, CleanCell(c, subs));
      if c.Some? {
        CleanValueIdempotent(c.value, subs);
      }
    } else {
      CellRulesUntouched(rules, name, c);
    }
  }

  /** The whole loop run a second time on its own output changes nothing, when the rule
      columns are distinct (YAML keys) and every rule is settled. */
  lemma ApplyRulesIdempotent(t: Table, rules: seq<Rule>)
    requires WellFormed(t) && DistinctRuleColumns(rules) && SettledRules(rules)
    requires ApplyRules(t, rules).Success?
    ensures var r := ApplyRules(t, rules).value;
            ApplyRules(r, rules) == Success(r)
  {
    var r := ApplyRules(t, rules).value;
    ApplyRulesSucceedsIff(t, rules);
    ApplyRulesSucceedsIff(r, rules);
    var r2 := ApplyRules(r, rules).value;
    ApplyRulesCells(t, rules);
    ApplyRulesCells(r, rules);
    forall i | 0 <= i < |r.rows| ensures r2.rows[i] == r.rows[i] {
      forall j | 0 <= j < |r.columns| ensures r2.rows[i][j] == r.rows[i][j] {
        CellRulesIdempotent(rules, t.columns[j], t.rows[i][j]);
      }
    }
    assert r2.rows == r.rows;
  }

  /** Without that condition a second run can change values again: with `a` mapped
      to `b` and `b` to `c`, one run turns `a` into `b` and a second into `c`. */
  lemma CleanValueNotIdempotent()
    ensures var subs := map["a" := "b", "b" := "c"];
            CleanValue("a", subs) == "b" && CleanValue(CleanValue("a", subs), subs) == "c"
  {
    StripStripped("a");
    StripStripped("b");
  }
}
