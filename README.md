# Yearly enforcement extracts: concatenation, record identity and cleaning

This project models the table transformations of the pipeline's batch scripts.
Each script reads one or more pipe-delimited extracts, changes the DataFrame and
writes the result. The model covers what happens between the read and the write:

- **Concatenation** (`us/concat`, `us-fy16-19/concat`, `us-fy12-23/concat`):
  - `pd.concat(files, sort=False)` stacks the yearly extracts in the order listed.
  - The labels are the union of the extracts' labels, in order of first appearance.
  - A row from an extract that lacks a label has a missing value (NaN) there.
  - The two numbering scripts lower-case every label and turn its spaces into `_`.
  - They then add `id` = `range(len(df))`.
- **Identity** (`us-fy12-23/concat`):
  - `make_hashid` joins `str()` of every current field, `id` included, with no separator.
  - It prefixes the output path (the salt) and takes the SHA-1 hex digest.
  - The script asserts that all `hashid` values differ. A failed assertion aborts the run before anything is written.
- **Cleaning** (`clean/src/clean.py`, `us/clean/src/clean.py`):
  - `area_of_responsibility`, then `event_area_of_responsibility`, are renamed to `aor`.
  - The general script copies `aor`, as read, back into `area_of_responsibility`.
  - "Area of Responsibility" is deleted from `aor` in one left-to-right pass.
  - Each rule column is then stripped and passed through its substitution map.
  - The privacy-redacted release first drops `birth_date` and keeps no copy.

A table is an ordered list of labels and a list of rows. Each row holds one cell per label, and a cell is
`Some(text)` or `None` (NaN). The rows are positional, not maps, because pandas allows repeated labels.
Normalising `"A b"` and `"a_b"`, or renaming both area-of-responsibility columns, produces them.

Reading a column works as follows:
- `df[name]` is a Series when the label occurs once.
- An absent label raises KeyError (`MissingColumn`).
- A repeated label yields a DataFrame, on which `.str` and the single-column assignment fail (`AmbiguousColumn`).

Every abort is an `Error` in a `Result`. The scripts' in-place updates run on the class `Frames.Frame`:
- `df.columns = ...` is `SetColumns`;
- `df[k] = ...` is `SetItem`;
- `df[k]` is `GetItem`.

Rebinding (`df = df.rename(...)`) creates a new `Frame`. Each script is a method that runs on a `Frame`, statement by
statement, and is proved equal to a function. The properties are proved about that function.

Files: `wrappers.dfy` (Option, Result, errors), `text.dfy` (strip, label normalisation, phrase removal,
decimal text), `frames.dfy` (the table and its pandas operations), `concat.dfy`, `identity.dfy`,
`rules.dfy` (the cleaning-rule loop), `clean.dfy`, `redact.dfy`.

## Model

| member | source | states |
|---|---|---|
| Text.Strip | clean/src/clean.py:61 | `str.strip()`: the result has no whitespace at either end, and it is the input with only whitespace removed from its two ends |
| Text.StripSurrounded | clean/src/clean.py:61 | stripping whitespace + m + whitespace gives back m when m is stripped, so the strip is characterised by its result |
| Text.StripIdempotent | clean/src/clean.py:61 | stripping twice equals stripping once |
| Text.NormaliseName | us-fy12-23/concat/src/concat.py:117-118 | `lower()` then `replace(' ', '_')`: same length; an upper-case letter becomes its lower-case letter, a space becomes `_`, and every other character stays |
| Text.NormaliseNameIdempotent | us-fy16-19/concat/src/concat.py:69-70 | normalising a normalised label changes nothing |
| Text.NormaliseNames | us-fy16-19/concat/src/concat.py:69-70 | the label list keeps its length and order; each label is normalised |
| Text.NatToString | us-fy12-23/concat/src/concat.py:120 | `str(i)` of a row number: at least one decimal digit, and no leading zero unless the number is 0 |
| Text.RemoveAllIsFlattenedSplit | clean/src/clean.py:58 | the one-pass deletion equals joining the pieces between occurrences (Python's `split(p)`) with nothing |
| Text.SplitJoin | clean/src/clean.py:58 | the pieces re-joined with the phrase give back the string |
| Text.SplitPiecesAreFree | clean/src/clean.py:58 | no piece between deleted occurrences contains the phrase |
| Text.RemoveAllAbsent | clean/src/clean.py:58 | a value without the phrase is left exactly as it was |
| Text.RemoveAllPresent | clean/src/clean.py:58 | a value with the phrase gets strictly shorter |
| Text.RemoveAllUnchangedIff | clean/src/clean.py:58 | the deletion leaves a value unchanged if and only if the phrase does not occur in it |
| Text.RemoveAorPhraseExample | clean/src/clean.py:58 | "Area of Responsibility - North" becomes " - North", keeping the dash and the spaces |
| Text.RemoveAorPhraseNotIdempotent | clean/src/clean.py:58 | "Area of Area of ResponsibilityResponsibility" becomes the phrase after one pass and the empty string after a second pass, so the deletion is not idempotent |
| Text.RemoveAll | clean/src/clean.py:58 | `str.replace(phrase, '')`, one left-to-right pass: the result is never longer than the value |
| Text.ParseNatToString | us-fy12-23/concat/src/concat.py:120 | the decimal text of `id` reads back as the same number, so different rows get different `id` texts |
| Frames.Select | clean/src/clean.py:57 | `df[name]` succeeds if and only if the label occurs once, returning that column's cell from every row; otherwise KeyError when absent, ambiguous when repeated |
| Frames.SetColumn | clean/src/clean.py:57 | `df[name] = values` overwrites every column with that label, or appends a new last column; every other cell is unchanged |
| Frames.SelectAfterSet | clean/src/clean.py:57-58 | a column just set under an absent or unique label reads back as the values set |
| Frames.SelectOtherAfterSet | clean/src/clean.py:57-58 | setting one label leaves what another label reads unchanged |
| Frames.SetColumnSelected | clean/src/clean.py:61 | writing a column's own values back leaves the table unchanged |
| Frames.Rename | clean/src/clean.py:55-56 | `rename({from: to})` relabels every `from` as `to` and leaves the rows alone; the count of `to` grows by the count of `from`; an absent label is a no-op |
| Frames.Drop | us/clean/src/clean.py:52-53 | `drop([name], axis=1)` fails with KeyError if and only if the label is absent; otherwise the label is gone and the column count falls by its count |
| Frames.DropKeepsOthers | us/clean/src/clean.py:53 | every other column keeps its label and its value in every row, in its place among the kept columns |
| Frames.DropCountsOthers | us/clean/src/clean.py:53 | dropping one label leaves the count of every other label unchanged |
| Frames.Frame.SetColumns | us-fy12-23/concat/src/concat.py:117-118 | `df.columns = labels` replaces the labels and leaves the rows unchanged |
| Frames.Frame.SetItem | us-fy12-23/concat/src/concat.py:120 | the frame afterwards is `SetColumn` of the frame before |
| Frames.Frame.GetItem | clean/src/clean.py:57 | returns what `Select` gives on the frame, and changes nothing |
| Concatenate.AppendNew | us/concat/src/concat.py:60 | the accumulated labels stay a prefix; the result holds exactly the labels of both inputs, without repeats |
| Concatenate.AppendNewFresh | us/concat/src/concat.py:60 | labels that are new and distinct are all appended, in their order |
| Concatenate.AppendNewFirstAppearance | us/concat/src/concat.py:60 | the result is the accumulated labels followed by every label of the new source that is neither among them nor earlier in that source, in the source's order |
| Concatenate.UnionColumns | us/concat/src/concat.py:60 | the concatenation's labels are distinct and are exactly those of some source |
| Concatenate.UnionColumnsLast | us/concat/src/concat.py:60 | adding a source appends, after the union of the earlier sources, the first appearances of its new labels, in its own order |
| Concatenate.UnionGrowsAtTheEnd | us-fy12-23/concat/src/concat.py:115 | the labels of the first n sources are a prefix of the labels of all sources (first-appearance order) |
| Concatenate.SameColumnsUnion | us-fy12-23/concat/src/concat.py:115 | sources that share the same labels concatenate under exactly those labels |
| Concatenate.Align | us/concat/src/concat.py:60 | a source row laid out over the union has one cell per union label, and a label the source lacks gets a missing value |
| Concatenate.ConcatRows | us/concat/src/concat.py:60 | the stacked rows number the sum of the sources' rows, each as wide as the union |
| Concatenate.Concat | us-fy12-23/concat/src/concat.py:115 | `pd.concat(files, sort=False)` is well formed, has the union of the labels, and has as many rows as all sources together |
| Concatenate.ConcatRowAt | us-fy12-23/concat/src/concat.py:102-115 | row i of source n is row Offset(n) + i of the result, laid out over the union: sources in the listed order, each in its own order |
| Concatenate.ConcatRowOrigin | us-fy12-23/concat/src/concat.py:115 | every output row lies in the block of exactly one source: no row is added |
| Concatenate.ConcatCell | us-fy16-19/concat/src/concat.py:67 | an output cell equals the source row's cell under the same label, and is None when the source lacks that label |
| Concatenate.UsConcat | us/concat/src/concat.py:55-60 | the four extracts concatenate under the union of their labels, with the sum of their rows |
| Concatenate.UsConcatShape | us/concat/src/concat.py:55-60 | the four-extract output holds exactly the labels of the four, unrenamed, with no `id`, fy16's labels first and no repeats; its row count is the sum of the four |
| Concatenate.UsConcatRowOrder | us/concat/src/concat.py:55-60 | the output rows are fy16's rows, then fy17's, fy18's and fy19's, each in its own order and with none dropped as a duplicate |
| Concatenate.IdCellIsRowNumber | us-fy16-19/concat/src/concat.py:72 | the `id` written in row i is the decimal text of i |
| Concatenate.Numbered | us-fy16-19/concat/src/concat.py:69-72 | labels normalised, with `id` appended unless already present; `id` in row i reads back as i; every other cell unchanged; row count unchanged |
| Concatenate.ConcatFy16To19 | us-fy16-19/concat/src/concat.py:62-72 | the script run on one Frame in place gives `Numbered` of the concatenation of fy16..fy19 |
| Identity.HashIds | us-fy12-23/concat/src/concat.py:36-45 | `df.apply(make_hashid, axis=1)`: one digest per row; the digest of row i is `sha1` of the salt followed by the row's text |
| Identity.Render | us-fy12-23/concat/src/concat.py:38 | `str()` of a field: text stays as it is, a missing value becomes `nan` |
| Identity.RowTextFields | us-fy12-23/concat/src/concat.py:38 | each field's text comes directly after the text of the fields before it, with no separator |
| Identity.RowTextAppend | us-fy12-23/concat/src/concat.py:38 | a row's text with one more field is the old text followed by that field's `str()` |
| Identity.SaltSeparates | us-fy12-23/concat/src/concat.py:42 | the same row under two output paths gives equal hash input if and only if the paths are equal |
| Identity.SetSizeIsLength | us-fy12-23/concat/src/concat.py:123 | `len(set(xs)) <= len(xs)`, with equality if and only if no value repeats |
| Identity.UniquenessHolds | us-fy12-23/concat/src/concat.py:123 | `len(df['hashid']) == len(set(df['hashid']))`: with one `hashid` column, true if and only if no two digests are equal; with a repeated label, true if and only if there is one row |
| Identity.WithHashIds | us-fy12-23/concat/src/concat.py:122 | `df['hashid'] = ...` keeps the rows and adds or overwrites `hashid`; when that label was absent or unique, the column reads back as the digests |
| Identity.HashedOutcome | us-fy12-23/concat/src/concat.py:122-123 | on any table: the assertion passes if and only if the digests are distinct (one row, for a repeated label), and each `hashid` cell is `make_hashid` of its row |
| Identity.UniquenessMeansDistinct | us-fy12-23/concat/src/concat.py:122-123 | after `df['hashid'] = hs`, the assertion passes if and only if hs has no repeats (when `hashid` was absent or unique) |
| Identity.ConcatFy12To23 | us-fy12-23/concat/src/concat.py:102-123 | the script run on one Frame in place (concat, normalise, `id`, `hashid`, assert) equals `Fy12To23` |
| Identity.Fy12To23 | us-fy12-23/concat/src/concat.py:102-123 | the script aborts only with the integrity error; otherwise it writes every row of the twelve extracts, with a `hashid` column |
| Identity.Fy12To23Outcome | us-fy12-23/concat/src/concat.py:115-132 | the run writes if and only if the digests are pairwise distinct, aborting with the integrity error otherwise; the written table is the numbered concatenation plus `hashid`, which for row i is `make_hashid` of that row, `id` included |
| Identity.NumberedHashInput | us-fy12-23/concat/src/concat.py:120-122 | the hashed text of row i is salt + the source row's text + the decimal text of i, so `id` is hashed and `hashid` is not |
| Identity.DuplicateRowsHashApart | us-fy12-23/concat/src/concat.py:120-122 | two identical source rows still hash different texts, because `id` is part of the text |
| Identity.AsWrittenRowsCollide | us-fy12-23/concat/src/concat.py:38 | when row 1's fields join to row 11's text + "1", the two hash texts are equal and the run aborts |
| Identity.AsWrittenCollisionExample | us-fy12-23/concat/src/concat.py:36-45 | twelve valid extracts (fy12 holding "a1" in row 1 and "a" in row 11) make the script abort with the integrity error |
| Identity.DelimitedNeverCollides | us-fy12-23/concat/src/concat.py:36-45 | with every field preceded by "\|" and a digest that tells texts apart, the uniqueness check always passes |
| Identity.DelimitedHashIds | us-fy12-23/concat/src/concat.py:36-45 | corrected digests: one per row, `sha1` of the salt followed by every field behind a `\|` |
| Identity.Fy12To23Delimited | us-fy12-23/concat/src/concat.py:102-123 | the corrected script, too, aborts only with the integrity error and otherwise writes every row with a `hashid` column |
| CleanRules.CleanValue | clean/src/clean.py:61 | `.str.strip().replace(map)` on one value gives the map's value for the stripped text, or the stripped text itself when that is not a key |
| CleanRules.CleanCell | clean/src/clean.py:61 | a missing value stays missing and a text value never becomes missing; a text value is cleaned by `CleanValue` |
| CleanRules.ApplyRule | clean/src/clean.py:61 | one rule succeeds if and only if its column occurs once; labels and row count unchanged |
| CleanRules.ApplyRules | clean/src/clean.py:60-61 | the whole loop, when it completes, keeps the labels and the row count |
| CleanRules.RunRules | clean/src/clean.py:60-61 | the `for k in cleanrules` loop on the Frame in place ends in `ApplyRules` of the frame before, or stops with its error |
| CleanRules.ApplyRulesSucceedsIff | us/clean/src/clean.py:58-59 | the loop completes if and only if every rule's column occurs exactly once |
| CleanRules.ApplyRulesFailsAt | us/clean/src/clean.py:59 | otherwise it stops with KeyError or ambiguity on the first rule whose column is absent or repeated |
| CleanRules.ApplyRuleCells | clean/src/clean.py:61 | one rule cleans every cell of its column and leaves every other cell unchanged |
| CleanRules.ApplyRulesCells | clean/src/clean.py:60-61 | after the loop, each cell is its value as read, cleaned in order by the rules for its column |
| CleanRules.CellRulesUntouched | clean/src/clean.py:60-61 | a column that no rule names keeps every value |
| CleanRules.CellRulesOnce | clean/src/clean.py:60-61 | with distinct rule columns (YAML keys), a named column is cleaned once, by its own rule |
| CleanRules.CleanValueIdempotent | clean/src/clean.py:61 | when every replacement is stripped and is not itself a key, cleaning twice equals cleaning once |
| CleanRules.ApplyRuleIdempotent | clean/src/clean.py:61 | under that condition, running a rule again on its own output changes nothing |
| CleanRules.CellRulesIdempotent | clean/src/clean.py:60-61 | with distinct rule columns and every rule settled, a cell cleaned twice by the loop is cleaned once |
| CleanRules.ApplyRulesIdempotent | clean/src/clean.py:60-61 | under the same conditions, running the whole loop again on its output changes nothing |
| CleanRules.CleanValueNotIdempotent | clean/src/clean.py:61 | with `a -> b` and `b -> c`, one run gives `b` and a second run gives `c` |
| Clean.UnifyAor | clean/src/clean.py:55-56 | both labels become `aor` and neither remains; the `aor` count is the sum of the three labels' counts; with none of them the table is unchanged |
| Clean.RemovePhraseCell | clean/src/clean.py:58 | a missing `aor` stays missing; a text value loses every occurrence of "Area of Responsibility" in one pass |
| Clean.Prepare | clean/src/clean.py:55-58 | succeeds if and only if exactly one column becomes `aor`; fails with KeyError when none does, ambiguity when several do; labels are the renamed ones plus `area_of_responsibility` |
| Clean.CleanFile | clean/src/clean.py:55-61 | the main block run statement by statement equals `CleanTable` |
| Clean.CleanTable | clean/src/clean.py:55-61 | on success the output has the renamed labels plus the copy, and as many rows as the input |
| Clean.CleanSucceedsIff | clean/src/clean.py:55-61 | the run writes if and only if one column becomes `aor` and every rule's column then occurs exactly once |
| Clean.PrepareCells | clean/src/clean.py:57-58 | before the rules, `aor` holds the value read with the phrase removed, the appended copy holds the value read, and all other cells are unchanged |
| Clean.CleanCells | clean/src/clean.py:55-61 | after the rules, each cell is its value (phrase removed in `aor`) as cleaned by the rules for its new label, and the copy is the original value as cleaned by the rules for `area_of_responsibility` |
| Clean.CleanKeepsOtherColumns | clean/src/clean.py:55-61 | a column that is neither an area-of-responsibility column nor named by a rule is written exactly as read, at the same position |
| Clean.CleanAorLosesPhrase | clean/src/clean.py:58 | unless a rule names `aor`, the `aor` cell is the value read with the phrase removed, and it is not stripped |
| Clean.CleanCopyIsUnstripped | clean/src/clean.py:57 | unless a rule names `area_of_responsibility`, the copy is the value as read, phrase and whitespace included |
| Clean.CleanOneRow | clean/src/clean.py:55-61 | a one-row table with `area_of_responsibility` and one other column, and no rules, becomes `aor`, the other column, and the copy |
| Clean.CleanExample | clean/src/clean.py:55-61 | "Area of Responsibility - North" with no rules yields `aor` = " - North" and keeps the whole text in `area_of_responsibility` |
| Redact.RedactFile | us/clean/src/clean.py:52-68 | the main block run statement by statement equals `RedactTable`, and the record count it reports is the row count |
| Redact.PrepareRedacted | us/clean/src/clean.py:52-56 | on success the table before the rules has the kept, renamed labels, as many rows as the input, and is well formed |
| Redact.RedactTable | us/clean/src/clean.py:52-59 | on success the output has the kept, renamed labels and as many rows as the input |
| Redact.RedactSucceedsIff | us/clean/src/clean.py:52-59 | the run writes if and only if `birth_date` is present, one column becomes `aor`, and every rule's column occurs once; a missing `birth_date` aborts with KeyError |
| Redact.DropKeepsAorSources | us/clean/src/clean.py:53-55 | the drop does not change how many columns become `aor` |
| Redact.RedactWithholds | us/clean/src/clean.py:52-56 | the output has no `birth_date`, and neither original area-of-responsibility label: no copy is kept |
| Redact.PrepareRedactedCells | us/clean/src/clean.py:53-56 | before the rules, every column but `birth_date` keeps its value in its place among the kept columns, except `aor`, which loses the phrase |
| Redact.RedactCells | us/clean/src/clean.py:52-59 | after the rules, each kept cell is its value (phrase removed in `aor`) as cleaned by the rules for its new label |
| Redact.RedactKeepsOtherColumns | us/clean/src/clean.py:52-59 | a column that is neither `birth_date`, nor an area-of-responsibility column, nor named by a rule is written as read |

## Left out

- Argument parsing, YAML loading of the dtypes and of the rules, logging, and the `Wrote ... records` print.
  The rules, the salt and the sources are parameters. The printed count is an out-parameter of `Redact.RedactFile`.
- Reading and writing: gzip, the pipe-delimited quoted CSV format, and the `header: 5` preamble skip.
  A source is a table with distinct labels (`Frames.Source`), because `read_csv` renames duplicate header names.
- Type coercion by `read_csv(dtype=...)`. Every value is text or missing. `str()` of a missing value is `nan`, and
  any other value is its text. The rendering of numbers is not modelled.
- SHA-1 itself. The digest is a function parameter `sha1`. Whether two rows get distinct digests is stated in terms of
  their hash texts, and of `sha1` where it matters.
- `mem_usage`: floating-point diagnostics only.
- The `getattr` field access and the `except: print(row); raise` debug path of `make_hashid`. The model reads the
  fields by position. `getattr(row, name)` returns the row's value under that label for most labels. It returns
  something else for a label that names an attribute of a pandas Series (`name`, `size`, `index`, `values`,
  `count`, ...), and a Series rather than one value for a repeated label. Neither case is modelled.
- Text.NormaliseName: lower-cases ASCII and Latin-1 letters only. Python's full Unicode case mapping is not modelled.
- A label that is repeated after normalisation and is then written: pandas would overwrite all columns under that label.
  `Frames.SetColumn` models this, but the lemmas about `id` and `hashid` assume the normalised source labels
  contain neither `id` nor `hashid`.
- Identity.NumberedHashInput, Identity.DuplicateRowsHashApart: these assume no source label normalises to `id`.
- Identity.DelimitedNeverCollides: this assumes the digest tells different texts apart. Real SHA-1 collisions are not modelled.
- CleanRules.CellRulesOnce: this assumes distinct rule columns, as YAML mapping keys are.
- Non-text values under `.str`: every value is text or missing here. In pandas, `.str` on a column with a numeric
  dtype raises AttributeError, and a non-text value inside an object column gives NaN. Neither is modelled.

The scripts behave as follows, and the model follows them:
- the hashed text includes `id`, so identical source rows never collide;
- both area-of-responsibility columns present aborts the run; the later one does not win;
- dropping an absent `birth_date` aborts the run; it is not a no-op;
- the copy `area_of_responsibility` holds the unstripped text, phrase included;
- the cleaning step is idempotent only under the condition in `CleanRules.CleanValueIdempotent` (and, for the whole loop, distinct rule columns);
- in the `North` example, `aor` becomes " - North".

## Findings

| source | as written | input that shows it | evidently intended | confidence | as-written member | corrected member |
|---|---|---|---|---|---|---|
| us-fy12-23/concat/src/concat.py:38 | the fields, `id` included, are joined with `''`, so different rows can give the same hash text | fy12 with one label, row 1 = "a1", row 11 = "a": both texts are "a11" (id 1 vs 11), the digests agree and the uniqueness assertion aborts the run | the rows, which differ, get different `hashid` values; joining each field behind a separator (`'\|'`) keeps the texts apart | not executed | Identity.AsWrittenCollisionExample | Identity.DelimitedNeverCollides |

`Identity.ConcatFy12To23` and `Identity.Fy12To23Outcome` model the script as written. `Identity.Fy12To23Delimited` is
the same script with the corrected hash text.
