# Clinical-trials dataset validator, modelled in Dafny

The validator is a data-quality gate over a relational extract of a
clinical-trials registry. It loads nine tables (trials, conditions,
interventions, arms, primary and secondary outcomes, locations, sponsors,
collaborators) and an arm-intervention bridge table that may be absent. It
then runs a fixed script of assertions and stops at the first one that
fails.

The assertions are:

- non-emptiness of every table;
- required, non-blank `nct_id` columns;
- uniqueness of the trial id;
- per-table composite keys with null-rate tolerances;
- foreign keys of every dependent table into the trial ids;
- the bridge table's schema and its references into the arms table;
- no nested (dict or list) values;
- null-rate ceilings on three trials columns;
- start and completion dates in order.

The model has three modules.

- `Tables` (`tables.dfy`) defines cells, rows and tables. It also holds the
  column aggregates the checks are built from:
  - counting, as pandas' boolean `.sum()` does it;
  - the `duplicated(keep="first")` count, proved equal to the number of
    elements minus the number of distinct ones;
  - Python's `str.strip()` over the characters `str.isspace` accepts.
- `Checks` (`checks.dfy`) models each reusable assertion as a function from
  tables to a `Verdict`. A verdict is either `Pass` or `Fail` with the
  failure the assertion reports. A `KeyError` from indexing a missing column
  is the failure `ColumnNotFound`. Each contract says when the check passes,
  as a property of the table's cells, and which failure it reports
  otherwise.
- `Runner` (`runner.dfy`) models the script itself.
  - `Catalog` lists every assertion in script order.
  - `FirstFailure` is the fail-fast semantics.
  - `Validate` is a loop that runs the catalog and is proved to compute
    `FirstFailure`.
  - Further lemmas state what the order of the script implies, and what a
    passing run guarantees about the dataset.

## Specification and code

The code is modelled as it is written. It differs from the intended
behaviour described for the system in these ways:

- **A missing bridge table fails the run.** The non-emptiness loop
  (`src/validate.py:70-82`) includes the bridge table. So an absent bridge
  table fails with "arm_interventions is None", and an empty one fails with
  "is empty". The intended behaviour skips an absent bridge table.
  `Runner.MissingBridgeFailsRun` states this. `Runner.BridgeCheckSeesPopulatedTable`
  states the consequence: the bridge check (assertion 36) and the bridge's
  nested-value check (assertion 46) are reached only with a bridge table
  that has rows. So the `is not None` guards (`src/validate.py:154`,
  `src/validate.py:182`) and the zero-row branch (`src/validate.py:161`) never
  decide a run.
- **The run stops at the first failure.** It does not collect a full
  report.
- **A nested value can crash the run.** The intended behaviour rejects
  dict and list values with an assertion. The code hashes columns before
  that check (`src/validate.py:45-46`, `src/validate.py:59`,
  `src/validate.py:86`, `src/validate.py:140`, `src/validate.py:162-165`).
  Hashing a dict or list raises `TypeError`, so a nested value in a hashed
  column stops the run with an exception instead. The model keeps this
  behaviour as the failure `Unhashable`. `Runner.NestedTrialIdCrashesRun`
  shows a run that stops this way. `Runner.FlatRunEndsInAssertion` shows
  that a dataset without nested values never does.
- **Some failures carry no offending count.** The trial-id uniqueness
  failure has none. The foreign-key count is the number of distinct orphan
  values, not orphan rows.

## Model

| member | source | states |
|---|---|---|
| `Checks.Nonempty` | src/validate.py:24-26 | passes iff the table exists and has a row; an absent table reports "is None", an empty one "is empty" |
| `Checks.RequiredNonNull` | src/validate.py:29-33 | passes iff the column exists, no cell is null and no cell is whitespace-only text; a missing column is reported first; nulls are reported iff the column exists and a null cell exists; blanks are reported iff the column exists, has no null and has a whitespace-only text cell |
| `Checks.NullCellsCounted` | src/validate.py:31 | `isna().sum()` is positive iff some cell of the column is null |
| `Checks.BlankCellsCounted` | src/validate.py:32-33 | the count of cells that strip to "" is positive iff some cell is whitespace-only text |
| `Tables.Strip` | src/validate.py:32 | `str.strip()` returns a slice of the text with only whitespace before and after it, and the slice neither starts nor ends with whitespace |
| `Tables.StripEmptyIffAllSpace` | src/validate.py:32 | `str.strip()` gives "" iff every character is whitespace |
| `Tables.TrimStart` | src/validate.py:32 | removes exactly the leading whitespace: the result is a suffix, starts with a non-space or is empty, and the removed part is all whitespace |
| `Tables.TrimEnd` | src/validate.py:32 | removes exactly the trailing whitespace, symmetrically |
| `Tables.Count` | src/validate.py:32 | the boolean `.sum()`: at most the length, and zero iff no element satisfies the predicate |
| `Checks.IsUnique` | src/validate.py:86 | a missing column is a KeyError; a dict or list cell makes hashing raise a TypeError; otherwise passes iff no two rows hold equal values (two nulls are equal), and a failure is "nct_id not unique" |
| `Checks.RateWithinIsFraction` | src/validate.py:41-42 | over a non-empty column the cross-multiplied test equals `nulls / rows <= max_rate` |
| `Checks.NullRateBelow` | src/validate.py:63-67 | skipped (passes) when the column is absent; otherwise passes iff the table has rows and the null fraction is at most the ceiling (the mean of no rows is NaN and fails) |
| `Checks.KeyTuples` | src/validate.py:45 | `dropna(subset=cols)`: there are at most as many key tuples as rows, and a key tuple is listed iff some row has all key parts present and carries it |
| `Checks.KeyTuplesOnePerFullKeyRow` | src/validate.py:45 | there are exactly as many key tuples as rows that `dropna` keeps |
| `Checks.KeyTuplesAppend` | src/validate.py:45 | the tuples keep row order: a new last row appends its tuple at the end when its key is full, and adds nothing otherwise |
| `Tables.DuplicateCountIsSurplus` | src/validate.py:46 | `duplicated().sum()` equals the number of tuples minus the number of distinct tuples |
| `Tables.DuplicateCountZeroIff` | src/validate.py:46-47 | no duplicate is counted iff the elements are pairwise different |
| `Checks.NoDuplicateKeysIffNoCollision` | src/validate.py:44-47 | no duplicate key is counted iff no two full-key rows share their key tuple |
| `Checks.NullKeyRowNeverCounted` | src/validate.py:44-46 | inserting a row with a missing key part anywhere leaves the key tuples unchanged |
| `Checks.FirstOverRate` | src/validate.py:40-42 | finds no column iff every key column is within the ceiling; otherwise the first column, in key order, that is over it |
| `Checks.FullKeysUnique` | src/validate.py:44-47 | over the kept rows: a nested key part is a TypeError; otherwise a key collision fails with a positive count equal to tuples minus distinct tuples, and no collision passes |
| `Checks.CompositeKeyMostlyPresent` | src/validate.py:35-47 | missing key columns are reported as the exact set missing; with all present, an over-rate column is reported under this table's name; with all within the rate, a nested key part in a kept row is a TypeError, a collision of two full-key rows fails with `DuplicateKeys` for this table whose count is tuples minus distinct tuples, and otherwise the check passes |
| `Checks.ComplexColumns` | src/validate.py:51-54 | a column is listed iff it holds a dict or list cell; the list keeps column order and has no repeats when the columns have none |
| `Checks.NoComplexTypes` | src/validate.py:50-55 | passes iff no cell is nested; a failure names exactly the nested columns, in column order |
| `Checks.NestedCellIsReported` | src/validate.py:50-55 | putting a nested value into one cell of a passing table fails it, naming exactly that column |
| `Checks.ForeignKey` | src/validate.py:58-60 | a missing column is a KeyError; a nested cell is a TypeError; otherwise passes iff every non-null value is a reference key, and a failure names this table and column and counts the distinct orphan values |
| `Checks.NullForeignKeyIgnored` | src/validate.py:59 | adding a row whose foreign-key cell is null never changes the verdict |
| `Checks.CoerceDate` | src/validate.py:192-193 | `to_datetime(errors="coerce")` keeps a timestamp as it is, and only a timestamp, a number or a text can give a date (null and nested values give NaT) |
| `Checks.InvertedRows` | src/validate.py:195-196 | counts at most every row, and is zero iff no row has both dates parsed with the end before the start |
| `Checks.UnparsedDateRowExcluded` | src/validate.py:192-195 | a row with either date missing or unparseable never changes the count |
| `Checks.CompletionOrder` | src/validate.py:191-197 | passes iff no trial's completion date parses to before its start date; a failure's count is positive and at most the number of trials |
| `Checks.PrimaryCompletionOrder` | src/validate.py:199-207 | skipped when the column is absent; otherwise the same for the primary completion date |
| `Checks.BridgeReferences` | src/validate.py:154-167 | skipped without a bridge table; reports the exact set of missing bridge columns; passes with zero rows; otherwise, in this order, a KeyError when arms lacks `nct_id` or `arm_label`, a TypeError on a nested arms pair, then on a nested bridge pair; else passes iff every bridge row's (`nct_id`, `arm_label`) pair is a pair of some arms row |
| `Checks.ArmRefsCovered` | src/validate.py:162-167 | the set difference of pairs is empty iff every bridge row matches some arms row |
| `Runner.Evaluate` | src/validate.py:70-207 | one assertion of the script; every check other than uniqueness, foreign keys and bridge references tests for the columns it reads and never raises a KeyError; the bridge's nested-value check passes when the bridge table is absent (the guard at line 182) |
| `Runner.CompositeKey` | src/validate.py:88-137 | each table's key starts with `nct_id`, has no repeated column, and has at least two columns for every dependent table |
| `Runner.KeyNullCeiling` | src/validate.py:88-137 | the null ceiling is 1% exactly for conditions and arms, 5% exactly for interventions and sponsors, and 10% for the others |
| `Runner.CatalogLayout` | src/validate.py:70-207 | the script has 52 assertions: ten non-emptiness checks, 18 key checks, eight foreign keys, the bridge check at 36, ten nested-value checks, then the trials checks |
| `Runner.Position` | src/validate.py:70-180 | each table's non-emptiness, required-id, composite-key, foreign-key and nested-value assertions sit at matching places in their groups |
| `Runner.FirstFail` | src/validate.py:70-211 | the verdict is a pass iff every verdict passes; otherwise it is the first failing one |
| `Runner.FirstFailAppend` | src/validate.py:70-211 | checking `a` then `b` stops in `a` when `a` has a failure, else gives `b`'s result |
| `Runner.FirstFailure` | src/validate.py:70-211 | the run passes iff every rule passes; otherwise it reports the verdict of the first failing rule, all earlier rules having passed |
| `Runner.FirstFailureAppend` | src/validate.py:70-211 | running two stretches of the script in sequence composes their first failures |
| `Runner.FirstFailureAt` | src/validate.py:70-211 | when every rule before `k` passes and rule `k` fails, the run reports rule `k`'s failure |
| `Runner.Validate` | src/validate.py:70-211 | the loop over the catalog returns exactly the first failure of the script, or pass |
| `Runner.FailingPartFailsRun` | src/validate.py:70-211 | a run containing a failing stretch of rules fails |
| `Runner.PassedRunPassesEachGroup` | src/validate.py:70-207 | a passing run passes every group of assertions of the script |
| `Runner.MissingBridgeFailsRun` | src/validate.py:70-82 | an absent or empty bridge table fails the run; with the nine tables non-empty, the failure is exactly the bridge's "is None" or "is empty" |
| `Runner.BridgeCheckSeesPopulatedTable` | src/validate.py:154-183 | the bridge check is assertion 36 and the bridge's nested-value check is assertion 46; when the first is reached (so also the second), the bridge table exists and has rows |
| `Runner.DuplicateTrialIdFailsRun` | src/validate.py:85-86 | two trials with the same id fail the run |
| `Runner.KeyRulesNeverRaise` | src/validate.py:85-137 | the trial-id uniqueness lookup runs only after the required-column assertion found `nct_id` |
| `Runner.ForeignKeyRulesNeverRaise` | src/validate.py:140-152 | after the key assertions pass, neither `trials["nct_id"]` nor any `df["nct_id"]` raises |
| `Runner.BridgeRuleNeverRaises` | src/validate.py:160-162 | after the arms key assertion passes, `arms["nct_id"]` and `arms["arm_label"]` do not raise |
| `Runner.RunNeverRaisesKeyError` | src/validate.py:70-211 | a run never stops on a KeyError; a TypeError from a nested value is not excluded |
| `Runner.FlatRuleNeverCrashes` | src/validate.py:35-167 | on a dataset without nested values no assertion raises a TypeError |
| `Runner.FlatRunEndsInAssertion` | src/validate.py:70-211 | a run over a dataset without nested values ends in a pass or in one of the script's own assertion failures |
| `Runner.NestedTrialIdCrashesRun` | src/validate.py:85-86 | with every table loaded, a dict or list among otherwise present trial ids stops the run with a TypeError at the uniqueness test, before the nested-value check is reached |
| `Runner.PassedRunNonempty` | src/validate.py:70-82 | after a passing run all ten tables exist and have rows |
| `Runner.PassedRunTrialKey` | src/validate.py:85-86 | after a passing run `nct_id` is present, non-null, non-blank and unique in trials |
| `Runner.PassedRunCompositeKeys` | src/validate.py:88-137 | after a passing run each dependent table has its key columns, each within its null ceiling, and no two full-key rows collide |
| `Runner.PassedRunReferences` | src/validate.py:140-152 | after a passing run every dependent row's `nct_id` is non-null and is the id of some trial |
| `Runner.PassedRunBridge` | src/validate.py:154-167 | after a passing run the bridge table exists with its columns and rows, and every pair names an arm |
| `Runner.PassedRunNoNestedValues` | src/validate.py:169-180 | after a passing run none of the nine tables holds a nested value |
| `Runner.PassedRunBridgeNoNestedValues` | src/validate.py:182-183 | after a passing run the bridge table holds no nested value either |
| `Runner.PassedRunDatesOrdered` | src/validate.py:191-207 | after a passing run no trial's completion or primary completion date parses to before its start date |

## Left out

- Loading the CSV files (`src/validate.py:6-21`) is not modelled. The
  dataset is a value. The bridge file's existence is its `Option`.
- `src/download_trials.py` is not part of this model. It is the extractor
  that produces the files.
- `pd.to_datetime(..., errors="coerce")` on text is not implemented. It is
  the dataset's `parseDate` parameter.
  - Numbers are read as nanoseconds since the epoch.
  - Null cells and nested values give NaT. The dates are coerced only
    after the nested-value checks have passed, so no nested value reaches
    `to_datetime` in a run.
  - Each cell is parsed on its own. pandas 2 infers one format for a whole
    column from its first text value, so the same text can parse
    differently in different columns. `parseDate` does not depend on the
    column.
- Null rates are exact rationals (`real`), not floating-point means. A rate
  within one rounding step of a ceiling can compare differently.
- The message texts are not modelled. This includes the `sorted()` list of
  missing key columns, which the model reports as a set, and the `:.2%`
  formatting. The closing `print` is not modelled either: a passing run is
  `Pass`.
- Python objects inside the bridge's `set(zip(...))` are not modelled. The
  model treats a null as an ordinary value equal to every other null. pandas'
  float NaN can make two such pairs differ.
- Duplicate column names in one table are not modelled. A row maps each name
  to one cell.
- `Checks.CompositeKeyMostlyPresent`: when several key columns are over
  their ceiling, the contract names some over-rate key column. It does not
  name the first in key order. `Checks.FirstOverRate` states the first-column
  choice.
- `Checks.CompletionOrder` and `Checks.PrimaryCompletionOrder` bound the
  failure count. They do not equate it with the set of inverted rows.
  `Checks.InvertedRows` states what the count is zero for.
