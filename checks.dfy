/**
 * The reusable data-quality checks of the validator. Each check looks at one
 * table (two for the bridge check) and yields a verdict: pass, or the failure
 * that the corresponding assertion of the script raises, with the table name
 * and the diagnostic it reports (a column, a column list or a count).
 */
module Checks {
  import opened Tables

  datatype Failure =
    | TableIsNone(table: string)
    | TableIsEmpty(table: string)
    | MissingRequiredColumn(table: string, column: string)
    | RequiredHasNulls(table: string, column: string)
    | RequiredHasBlanks(table: string, column: string)
      // a lookup `df[column]` of a column the table lacks raises KeyError
    | ColumnNotFound(table: string, column: string)
      // hashing a dict or list cell (in a set, a uniqueness or a duplicate
      // test) raises TypeError: unhashable type; `table` is the table hashed
    | Unhashable(table: string)
    | NotUnique(table: string, column: string)
    | MissingKeyColumns(table: string, missing: set<string>)
    | KeyNullRateExceeded(table: string, column: string)
    | DuplicateKeys(table: string, count: nat)
    | ComplexTypes(table: string, badColumns: seq<string>)
    | OrphanValues(table: string, column: string, count: nat)
    | NullRateExceeded(table: string, column: string)
    | BridgeMissingColumns(missing: set<string>)
    | UnknownArmReferences
    | CompletionBeforeStart(count: nat)
    | PrimaryCompletionBeforeStart(count: nat)

  datatype Verdict = Pass | Fail(failure: Failure)

  // ---------------------------------------------------------------------
  // Non-emptiness

  /** `assert_nonempty`: the table must exist and have at least one row. */
  function Nonempty(t: Option<Table>, name: string): (v: Verdict)
    ensures v.Pass? <==> t.Some? && |t.value.rows| > 0
    ensures t.None? ==> v == Fail(TableIsNone(name))
    ensures t.Some? && v.Fail? ==> v == Fail(TableIsEmpty(name))
  {
    if t.None? then Fail(TableIsNone(name))
    else if |t.value.rows| == 0 then Fail(TableIsEmpty(name))
    else Pass
  }

  // ---------------------------------------------------------------------
  // Required columns

  /** A cell holding only whitespace characters (possibly none). */
  predicate IsWhitespaceText(x: Cell) {
    x.Str? && AllSpace(x.text)
  }

  /**
   * `assert_required_nonnull`: the column exists, no cell of it is null, and
   * no cell's text is empty once stripped; the three are reported apart, in
   * that order.
   */
  function RequiredNonNull(t: Table, col: string, name: string): (v: Verdict)
    ensures v.Pass? <==>
      col in t.columns &&
      forall i :: 0 <= i < |t.rows| ==> !At(t, i, col).Null? && !IsWhitespaceText(At(t, i, col))
    ensures col !in t.columns ==> v == Fail(MissingRequiredColumn(name, col))
    ensures v == Fail(RequiredHasNulls(name, col)) <==>
      col in t.columns && exists i :: 0 <= i < |t.rows| && At(t, i, col).Null?
    ensures v == Fail(RequiredHasBlanks(name, col)) <==>
      && col in t.columns
      && (forall i :: 0 <= i < |t.rows| ==> !At(t, i, col).Null?)
      && (exists i :: 0 <= i < |t.rows| && IsWhitespaceText(At(t, i, col)))
    ensures v.Fail? ==>
      (v.failure == MissingRequiredColumn(name, col) || v.failure == RequiredHasNulls(name, col)
       || v.failure == RequiredHasBlanks(name, col))
  {
    if col !in t.columns then Fail(MissingRequiredColumn(name, col))
    else
      NullCellsCounted(t, col);
      BlankCellsCounted(t, col);
      if NullCount(t, col) > 0 then Fail(RequiredHasNulls(name, col))
      else if Count(Column(t, col), IsBlank) > 0 then Fail(RequiredHasBlanks(name, col))
      else Pass
  }

  /** `isna().sum()` is positive exactly when some cell of the column is null. */
  lemma NullCellsCounted(t: Table, col: string)
    ensures NullCount(t, col) > 0 <==> exists i :: 0 <= i < |t.rows| && At(t, i, col).Null?
  {
    var cells := Column(t, col);
    if NullCount(t, col) > 0 {
      var i :| 0 <= i < |cells| && IsNull(cells[i]);
      assert At(t, i, col).Null?;
    }
  }

  /**
   * Some cell of the column strips to nothing exactly when some cell is
   * whitespace text.
   */
  lemma BlankCellsCounted(t: Table, col: string)
    ensures Count(Column(t, col), IsBlank) > 0 <==>
      exists i :: 0 <= i < |t.rows| && IsWhitespaceText(At(t, i, col))
  {
    var cells := Column(t, col);
    forall i | 0 <= i < |cells| ensures IsBlank(cells[i]) <==> IsWhitespaceText(cells[i]) {
      if cells[i].Str? { StripEmptyIffAllSpace(cells[i].text); }
    }
    if Count(cells, IsBlank) > 0 {
      var i :| 0 <= i < |cells| && IsBlank(cells[i]);
      assert IsWhitespaceText(At(t, i, col));
    }
  }

  /** Some cell of column `c` holds a dict or a list. */
  predicate HasComplex(t: Table, c: string) {
    exists i :: 0 <= i < |t.rows| && At(t, i, c).Complex?
  }

  /**
   * `Series.is_unique` on column `col`: the lookup raises when the column is
   * absent, and hashing a nested cell raises.
   */
  function IsUnique(t: Table, col: string, name: string): (v: Verdict)
    ensures col !in t.columns ==> v == Fail(ColumnNotFound(name, col))
    ensures col in t.columns && HasComplex(t, col) ==> v == Fail(Unhashable(name))
    ensures col in t.columns && !HasComplex(t, col) ==>
      (v.Pass? <==> forall i, j :: 0 <= i < j < |t.rows| ==> At(t, i, col) != At(t, j, col))
    ensures col in t.columns && !HasComplex(t, col) && v.Fail? ==> v == Fail(NotUnique(name, col))
  {
    if col !in t.columns then Fail(ColumnNotFound(name, col))
    else if HasComplex(t, col) then Fail(Unhashable(name))
    else
      var cells := Column(t, col);
      DuplicateCountZeroIff(cells);
      if DuplicateCount(cells) == 0 then Pass else Fail(NotUnique(name, col))
  }

  // ---------------------------------------------------------------------
  // Null rates

  /**
   * `rate <= maxRate` for the mean of the null indicator over `rows` rows.
   * Over zero rows the mean is NaN and the comparison is false.
   */
  predicate RateWithin(nulls: nat, rows: nat, maxRate: real) {
    rows > 0 && nulls as real <= maxRate * rows as real
  }

  /** The null fraction of column `c` is at most `maxRate` (`isna().mean() <= maxRate`). */
  predicate NullRateWithin(t: Table, c: string, maxRate: real) {
    RateWithin(NullCount(t, c), |t.rows|, maxRate)
  }

  /** On a non-empty column the comparison is the one on the exact null fraction. */
  lemma RateWithinIsFraction(nulls: nat, rows: nat, maxRate: real)
    requires rows > 0
    ensures RateWithin(nulls, rows, maxRate) <==> nulls as real / rows as real <= maxRate
  {
    var n, q := rows as real, nulls as real / rows as real;
    assert q * n == nulls as real;
    if q <= maxRate {
      assert q * n <= maxRate * n;
    }
    if nulls as real <= maxRate * n {
      assert q * n <= maxRate * n;
    }
  }

  /** `assert_null_rate_below`: skipped when the column is absent. */
  function NullRateBelow(t: Table, col: string, maxRate: real, name: string): (v: Verdict)
    ensures col !in t.columns ==> v == Pass
    ensures col in t.columns ==>
      (v.Pass? <==> |t.rows| > 0 && NullCount(t, col) as real / |t.rows| as real <= maxRate)
    ensures v.Pass? || v == Fail(NullRateExceeded(name, col))
  {
    if col !in t.columns then Pass
    else
      assert |t.rows| > 0 ==> (NullRateWithin(t, col, maxRate) <==>
        NullCount(t, col) as real / |t.rows| as real <= maxRate) by {
        if |t.rows| > 0 { RateWithinIsFraction(NullCount(t, col), |t.rows|, maxRate); }
      }
      if NullRateWithin(t, col, maxRate) then Pass
      else Fail(NullRateExceeded(name, col))
  }

  // ---------------------------------------------------------------------
  // Composite keys

  /** The tuple of key parts of `row`. */
  function KeyOf(row: Row, cols: seq<string>): seq<Cell> {
    seq(|cols|, k requires 0 <= k < |cols| => Get(row, cols[k]))
  }

  /** Every key part of `row` is present (the row survives `dropna(subset=cols)`). */
  predicate FullKey(row: Row, cols: seq<string>) {
    forall k :: 0 <= k < |cols| ==> !Get(row, cols[k]).Null?
  }

  /** The positions of the rows that `dropna(subset=cols)` keeps. */
  function FullKeyRows(rows: seq<Row>, cols: seq<string>): set<int> {
    set i | 0 <= i < |rows| && FullKey(rows[i], cols)
  }

  /** The key tuples of the rows whose key parts are all present, in row order, repeats included. */
  function KeyTuples(rows: seq<Row>, cols: seq<string>): (keys: seq<seq<Cell>>)
    ensures |keys| <= |rows|
    ensures forall key :: key in keys <==>
      exists i :: 0 <= i < |rows| && FullKey(rows[i], cols) && KeyOf(rows[i], cols) == key
  {
    if rows == [] then []
    else
      var p, x := rows[..|rows| - 1], rows[|rows| - 1];
      var keys := KeyTuples(p, cols);
      assert forall i :: 0 <= i < |p| ==> rows[i] == p[i];
      if FullKey(x, cols) then keys + [KeyOf(x, cols)] else keys
  }

  /** Each row kept by `dropna(subset=cols)` contributes exactly one key tuple. */
  lemma {:induction false} KeyTuplesOnePerFullKeyRow(rows: seq<Row>, cols: seq<string>)
    ensures |KeyTuples(rows, cols)| == |FullKeyRows(rows, cols)|
  {
    if rows != [] {
      var p := rows[..|rows| - 1];
      KeyTuplesOnePerFullKeyRow(p, cols);
      FullKeyRowsAppend(rows, cols);
    } else {
      assert FullKeyRows(rows, cols) == {};
    }
  }

  /** The last row adds its own position to the kept rows exactly when its key is full. */
  lemma FullKeyRowsAppend(rows: seq<Row>, cols: seq<string>)
    requires rows != []
    ensures FullKeyRows(rows, cols) ==
      FullKeyRows(rows[..|rows| - 1], cols) + (if FullKey(rows[|rows| - 1], cols) then {|rows| - 1} else {})
    ensures |rows| - 1 !in FullKeyRows(rows[..|rows| - 1], cols)
  {
    var p := rows[..|rows| - 1];
    assert forall i :: 0 <= i < |p| ==> rows[i] == p[i];
  }

  /** Appending a row appends its key tuple when its key is full, and changes nothing otherwise. */
  lemma KeyTuplesAppend(rows: seq<Row>, x: Row, cols: seq<string>)
    ensures KeyTuples(rows + [x], cols) ==
      KeyTuples(rows, cols) + (if FullKey(x, cols) then [KeyOf(x, cols)] else [])
  {
    assert (rows + [x])[..|rows|] == rows;
  }

  /** Two different rows, each with its whole key present, carry the same key tuple. */
  ghost predicate KeysCollide(rows: seq<Row>, cols: seq<string>) {
    exists i, j :: 0 <= i < j < |rows| && FullKey(rows[i], cols) && FullKey(rows[j], cols)
      && KeyOf(rows[i], cols) == KeyOf(rows[j], cols)
  }

  /** No duplicate is counted exactly when no two full-key rows share their key. */
  lemma {:induction false} NoDuplicateKeysIffNoCollision(rows: seq<Row>, cols: seq<string>)
    ensures DuplicateCount(KeyTuples(rows, cols)) == 0 <==> !KeysCollide(rows, cols)
  {
    if rows != [] {
      var p, x := rows[..|rows| - 1], rows[|rows| - 1];
      assert rows == p + [x];
      NoDuplicateKeysIffNoCollision(p, cols);
      var keys := KeyTuples(p, cols);
      assert forall i :: 0 <= i < |p| ==> rows[i] == p[i];
      if KeysCollide(p, cols) {
        CollisionPersists(rows, cols);
        if FullKey(x, cols) { DuplicateCountAppend(keys, KeyOf(x, cols)); }
      } else if FullKey(x, cols) {
        DuplicateCountAppend(keys, KeyOf(x, cols));
        if KeyOf(x, cols) in keys {
          RepeatedKeyCollides(rows, cols);
        } else {
          FreshKeyKeepsKeysApart(rows, cols);
        }
      } else {
        FreshKeyKeepsKeysApart(rows, cols);
      }
    }
  }

  /** A collision among the earlier rows is still one once a row is appended. */
  lemma CollisionPersists(rows: seq<Row>, cols: seq<string>)
    requires rows != [] && KeysCollide(rows[..|rows| - 1], cols)
    ensures KeysCollide(rows, cols)
  {
    var p := rows[..|rows| - 1];
    var i, j :| 0 <= i < j < |p| && FullKey(p[i], cols) && FullKey(p[j], cols)
      && KeyOf(p[i], cols) == KeyOf(p[j], cols);
    assert rows[i] == p[i] && rows[j] == p[j];
  }

  /** An appended full-key row whose key is already present collides with an earlier row. */
  lemma RepeatedKeyCollides(rows: seq<Row>, cols: seq<string>)
    requires rows != [] && FullKey(rows[|rows| - 1], cols)
    requires KeyOf(rows[|rows| - 1], cols) in KeyTuples(rows[..|rows| - 1], cols)
    ensures KeysCollide(rows, cols)
  {
    var p, x := rows[..|rows| - 1], rows[|rows| - 1];
    var i :| 0 <= i < |p| && FullKey(p[i], cols) && KeyOf(p[i], cols) == KeyOf(x, cols);
    assert rows[i] == p[i] && rows[|p|] == x;
  }

  /** Appending a row whose key is absent or new to distinct keys keeps them distinct. */
  lemma FreshKeyKeepsKeysApart(rows: seq<Row>, cols: seq<string>)
    requires rows != []
    requires !KeysCollide(rows[..|rows| - 1], cols)
    requires FullKey(rows[|rows| - 1], cols) ==>
      KeyOf(rows[|rows| - 1], cols) !in KeyTuples(rows[..|rows| - 1], cols)
    ensures !KeysCollide(rows, cols)
  {
    var p, x := rows[..|rows| - 1], rows[|rows| - 1];
    forall i, j | 0 <= i < j < |rows| && FullKey(rows[i], cols) && FullKey(rows[j], cols)
      ensures KeyOf(rows[i], cols) != KeyOf(rows[j], cols)
    {
      if j == |p| {
        assert rows[i] == p[i];
      } else {
        assert rows[i] == p[i] && rows[j] == p[j];
      }
    }
  }

  /**
   * A row missing some key part is never a duplicate: inserting one anywhere
   * leaves the key tuples, and so the duplicate count, unchanged.
   */
  lemma {:induction false} NullKeyRowNeverCounted(rows: seq<Row>, cols: seq<string>, k: nat, x: Row)
    requires k <= |rows| && !FullKey(x, cols)
    ensures KeyTuples(rows[..k] + [x] + rows[k..], cols) == KeyTuples(rows, cols)
  {
    var r := rows[..k] + [x] + rows[k..];
    if k == |rows| {
      assert r[..|r| - 1] == rows;
    } else {
      var p := rows[..|rows| - 1];
      NullKeyRowNeverCounted(p, cols, k, x);
      assert r[..|r| - 1] == p[..k] + [x] + p[k..];
      assert r[|r| - 1] == rows[|rows| - 1];
    }
  }

  /** The first key column, in the given order, whose null rate is over the ceiling. */
  function FirstOverRate(t: Table, cols: seq<string>, maxRate: real): (r: Option<string>)
    ensures r.None? <==> forall k :: 0 <= k < |cols| ==> NullRateWithin(t, cols[k], maxRate)
    ensures r.Some? ==>
      exists k :: 0 <= k < |cols| && cols[k] == r.value
        && !NullRateWithin(t, cols[k], maxRate)
        && forall m :: 0 <= m < k ==> NullRateWithin(t, cols[m], maxRate)
  {
    if cols == [] then None
    else if !NullRateWithin(t, cols[0], maxRate) then Some(cols[0])
    else
      var r := FirstOverRate(t, cols[1..], maxRate);
      assert forall k :: 1 <= k < |cols| ==> cols[k] == cols[1..][k - 1];
      r
  }

  /**
   * Some row kept by `dropna(subset=cols)` holds a dict or a list in a key
   * column, which `duplicated` then fails to hash.
   */
  predicate NestedKeyPart(rows: seq<Row>, cols: seq<string>) {
    exists i, k :: 0 <= i < |rows| && 0 <= k < |cols| && FullKey(rows[i], cols) && Get(rows[i], cols[k]).Complex?
  }

  /**
   * `assert_composite_key_mostly_present`: every key column exists; each key
   * column's null fraction is at most `maxNullRate`; and among the rows whose
   * key parts are all present no key tuple repeats.
   */
  function CompositeKeyMostlyPresent(t: Table, cols: seq<string>, name: string, maxNullRate: real): (v: Verdict)
    ensures (exists k :: 0 <= k < |cols| && cols[k] !in t.columns) ==>
      v == Fail(MissingKeyColumns(name, (set c | c in cols) - ColumnSet(t)))
    ensures ((forall k :: 0 <= k < |cols| ==> cols[k] in t.columns) &&
             (exists k :: 0 <= k < |cols| && !NullRateWithin(t, cols[k], maxNullRate))) ==>
      v.Fail? && v.failure.KeyNullRateExceeded? && v.failure.table == name && v.failure.column in cols
      && !NullRateWithin(t, v.failure.column, maxNullRate)
    ensures (forall k :: 0 <= k < |cols| ==>
        cols[k] in t.columns && NullRateWithin(t, cols[k], maxNullRate)) ==>
      if NestedKeyPart(t.rows, cols) then v == Fail(Unhashable(name))
      else if KeysCollide(t.rows, cols) then
        && v.Fail? && v.failure.DuplicateKeys? && v.failure.table == name
        && v.failure.count == |KeyTuples(t.rows, cols)| - |Distinct(KeyTuples(t.rows, cols))|
      else v.Pass?
    ensures v.Fail? ==>
      || v.failure.MissingKeyColumns? || v.failure.KeyNullRateExceeded?
      || v.failure.Unhashable? || v.failure.DuplicateKeys?
    ensures v.Fail? && v.failure.DuplicateKeys? ==> v.failure.count > 0
  {
    var missing := (set c | c in cols) - ColumnSet(t);
    if missing != {} then
      Fail(MissingKeyColumns(name, missing))
    else
      assert forall k :: 0 <= k < |cols| ==> cols[k] in t.columns by {
        forall k | 0 <= k < |cols| ensures cols[k] in t.columns {
          assert cols[k] !in missing;
        }
      }
      match FirstOverRate(t, cols, maxNullRate)
      case Some(c) => Fail(KeyNullRateExceeded(name, c))
      case None => FullKeysUnique(t.rows, cols, name)
  }

  /**
   * The duplicate test on the rows whose key parts are all present: hashing
   * a nested key part raises, and otherwise it counts the rows repeating an
   * earlier row's key.
   */
  function FullKeysUnique(rows: seq<Row>, cols: seq<string>, name: string): (v: Verdict)
    ensures
      if NestedKeyPart(rows, cols) then v == Fail(Unhashable(name))
      else if KeysCollide(rows, cols) then
        && v.Fail? && v.failure.DuplicateKeys? && v.failure.table == name
        && v.failure.count == |KeyTuples(rows, cols)| - |Distinct(KeyTuples(rows, cols))|
      else v.Pass?
    ensures v.Fail? && v.failure.DuplicateKeys? ==> v.failure.count > 0
  {
    if NestedKeyPart(rows, cols) then Fail(Unhashable(name))
    else
      var keys := KeyTuples(rows, cols);
      NoDuplicateKeysIffNoCollision(rows, cols);
      DuplicateCountIsSurplus(keys);
      var dupes := DuplicateCount(keys);
      if dupes > 0 then Fail(DuplicateKeys(name, dupes)) else Pass
  }

  // ---------------------------------------------------------------------
  // Nested values

  /** `a` is `b` with some elements left out, the rest kept in order. */
  predicate IsSubsequence<T(==)>(a: seq<T>, b: seq<T>) {
    a == [] ||
    (b != [] && (IsSubsequence(a, b[1..]) || (a[0] == b[0] && IsSubsequence(a[1..], b[1..]))))
  }

  /** The columns among `cols` holding a nested value, in the order of `cols`. */
  function ComplexColumns(t: Table, cols: seq<string>): (bad: seq<string>)
    requires forall c :: c in cols ==> c in t.columns
    ensures forall c :: c in bad <==>
      c in cols && exists i :: 0 <= i < |t.rows| && At(t, i, c).Complex?
    ensures IsSubsequence(bad, cols)
    ensures NoDuplicates(cols) ==> NoDuplicates(bad)
  {
    if cols == [] then []
    else
      var rest := ComplexColumns(t, cols[1..]);
      var c := cols[0];
      if HasComplex(t, c) then
        assert NoDuplicates(cols) ==> c !in cols[1..];
        [c] + rest
      else rest
  }

  /** `assert_no_complex_types`: no cell of any column holds a dict or a list. */
  function NoComplexTypes(t: Table, name: string): (v: Verdict)
    ensures v.Pass? <==>
      forall c, i :: c in t.columns && 0 <= i < |t.rows| ==> !At(t, i, c).Complex?
    ensures v.Fail? ==>
      && v.failure.ComplexTypes? && v.failure.table == name
      && (forall c :: c in v.failure.badColumns <==>
            c in t.columns && exists i :: 0 <= i < |t.rows| && At(t, i, c).Complex?)
      && IsSubsequence(v.failure.badColumns, t.columns)
      && (NoDuplicates(t.columns) ==> NoDuplicates(v.failure.badColumns))
  {
    var bad := ComplexColumns(t, t.columns);
    if bad == [] then Pass
    else
      assert bad[0] in bad;
      Fail(ComplexTypes(name, bad))
  }

  /**
   * Putting a nested value into one cell of a table that passed makes it
   * fail, naming exactly that column.
   */
  lemma NestedCellIsReported(t: Table, name: string, i: nat, c: string)
    requires NoComplexTypes(t, name).Pass?
    requires NoDuplicates(t.columns) && c in t.columns && i < |t.rows|
    ensures NoComplexTypes(SetCell(t, i, c, Complex), name) == Fail(ComplexTypes(name, [c]))
  {
    var u := SetCell(t, i, c, Complex);
    assert At(u, i, c).Complex?;
    var v := NoComplexTypes(u, name);
    forall d, j | d in u.columns && d != c && 0 <= j < |u.rows| ensures !At(u, j, d).Complex? {
      assert At(u, j, d) == At(t, j, d);
    }
    assert v.Fail?;
    var bad := v.failure.badColumns;
    assert Distinct(bad) == {c};
    DuplicateCountZeroIff(bad);
    DuplicateCountIsSurplus(bad);
    assert bad == [c];
  }

  // ---------------------------------------------------------------------
  // Foreign keys

  /** The distinct non-null values of column `col` that `refKeys` lacks. */
  function Orphans(t: Table, col: string, refKeys: set<Cell>): set<Cell> {
    set i | 0 <= i < |t.rows| && !At(t, i, col).Null? && At(t, i, col) !in refKeys :: At(t, i, col)
  }

  /**
   * `assert_fk`: every non-null value of `col` belongs to `refKeys`; the
   * failure reports how many distinct values do not. Building the set of
   * values raises on a missing column and on a nested cell.
   */
  function ForeignKey(t: Table, col: string, refKeys: set<Cell>, name: string): (v: Verdict)
    ensures col !in t.columns ==> v == Fail(ColumnNotFound(name, col))
    ensures col in t.columns && HasComplex(t, col) ==> v == Fail(Unhashable(name))
    ensures col in t.columns && !HasComplex(t, col) ==>
      (v.Pass? <==> forall i :: 0 <= i < |t.rows| && !At(t, i, col).Null? ==> At(t, i, col) in refKeys)
    ensures col in t.columns && !HasComplex(t, col) && v.Fail? ==>
      && v.failure.OrphanValues? && v.failure.table == name && v.failure.column == col
      && v.failure.count > 0 && v.failure.count == |Orphans(t, col, refKeys)|
  {
    if col !in t.columns then Fail(ColumnNotFound(name, col))
    else if HasComplex(t, col) then Fail(Unhashable(name))
    else
      var missing := Orphans(t, col, refKeys);
      if missing == {} then
        assert forall i :: 0 <= i < |t.rows| && !At(t, i, col).Null? ==> At(t, i, col) in refKeys by {
          forall i | 0 <= i < |t.rows| && !At(t, i, col).Null? ensures At(t, i, col) in refKeys {
            assert At(t, i, col) !in missing;
          }
        }
        Pass
      else Fail(OrphanValues(name, col, |missing|))
  }

  /** A row whose foreign-key cell is null changes nothing: nulls are never orphans. */
  lemma NullForeignKeyIgnored(t: Table, col: string, refKeys: set<Cell>, name: string, row: Row)
    requires Get(row, col).Null?
    ensures ForeignKey(AppendRow(t, row), col, refKeys, name) == ForeignKey(t, col, refKeys, name)
  {
    var u := AppendRow(t, row);
    assert forall i :: 0 <= i < |t.rows| ==> At(u, i, col) == At(t, i, col);
    assert Orphans(u, col, refKeys) == Orphans(t, col, refKeys);
  }

  // ---------------------------------------------------------------------
  // Temporal ordering

  /**
   * `pd.to_datetime(..., errors="coerce")` on one cell, as nanoseconds since
   * the epoch. `parse` is that function on a string (None for text it cannot
   * read); a number is read as nanoseconds; null and nested values give NaT.
   */
  function CoerceDate(x: Cell, parse: string -> Option<int>): (d: Option<int>)
    ensures d.Some? ==> x.Date? || x.Num? || x.Str?
    ensures x.Date? ==> d == Some(x.instant)
  {
    match x
    case Date(d) => Some(d)
    case Num(n) => Some(n)
    case Str(s) => parse(s)
    case _ => None
  }

  /** Both dates of a row parse and the end one lies before the start one. */
  predicate Inverted(dates: (Option<int>, Option<int>)) {
    dates.0.Some? && dates.1.Some? && dates.1.value < dates.0.value
  }

  /** The coerced (start, end) pair of every row of `t`. */
  function DatePairs(t: Table, startCol: string, endCol: string, parse: string -> Option<int>)
    : seq<(Option<int>, Option<int>)>
  {
    seq(|t.rows|, i requires 0 <= i < |t.rows| =>
      (CoerceDate(At(t, i, startCol), parse), CoerceDate(At(t, i, endCol), parse)))
  }

  predicate EndsBeforeStart(t: Table, i: int, startCol: string, endCol: string, parse: string -> Option<int>)
    requires 0 <= i < |t.rows|
  {
    Inverted((CoerceDate(At(t, i, startCol), parse), CoerceDate(At(t, i, endCol), parse)))
  }

  /** The number of rows with both dates present and the end before the start. */
  function InvertedRows(t: Table, startCol: string, endCol: string, parse: string -> Option<int>): (n: nat)
    ensures n <= |t.rows|
    ensures n == 0 <==> forall i :: 0 <= i < |t.rows| ==> !EndsBeforeStart(t, i, startCol, endCol, parse)
  {
    var pairs := DatePairs(t, startCol, endCol, parse);
    assert forall i :: 0 <= i < |t.rows| ==>
      (Inverted(pairs[i]) <==> EndsBeforeStart(t, i, startCol, endCol, parse));
    Count(pairs, Inverted)
  }

  /** A row with either date missing or unparseable is excluded from the count. */
  lemma UnparsedDateRowExcluded(t: Table, startCol: string, endCol: string, parse: string -> Option<int>, row: Row)
    requires CoerceDate(Get(row, startCol), parse).None? || CoerceDate(Get(row, endCol), parse).None?
    ensures InvertedRows(AppendRow(t, row), startCol, endCol, parse) == InvertedRows(t, startCol, endCol, parse)
  {
    var u := AppendRow(t, row);
    var pairs := DatePairs(t, startCol, endCol, parse);
    var last := (CoerceDate(At(u, |t.rows|, startCol), parse), CoerceDate(At(u, |t.rows|, endCol), parse));
    assert DatePairs(u, startCol, endCol, parse) == pairs + [last];
    CountAppend(pairs, last, Inverted);
  }

  /** The check of `completion_date` against `start_date` on every trial. */
  function CompletionOrder(trials: Table, parse: string -> Option<int>): (v: Verdict)
    ensures v.Pass? <==>
      forall i :: 0 <= i < |trials.rows| ==> !EndsBeforeStart(trials, i, "start_date", "completion_date", parse)
    ensures v.Fail? ==> v.failure.CompletionBeforeStart? && 0 < v.failure.count <= |trials.rows|
  {
    var bad := InvertedRows(trials, "start_date", "completion_date", parse);
    if bad == 0 then Pass else Fail(CompletionBeforeStart(bad))
  }

  /** The check of `primary_completion_date`, run only when the column exists. */
  function PrimaryCompletionOrder(trials: Table, parse: string -> Option<int>): (v: Verdict)
    ensures "primary_completion_date" !in trials.columns ==> v.Pass?
    ensures v.Pass? <==>
      forall i :: 0 <= i < |trials.rows| ==>
        !EndsBeforeStart(trials, i, "start_date", "primary_completion_date", parse)
    ensures v.Fail? ==> v.failure.PrimaryCompletionBeforeStart? && 0 < v.failure.count <= |trials.rows|
  {
    if "primary_completion_date" !in trials.columns then Pass
    else
      var bad := InvertedRows(trials, "start_date", "primary_completion_date", parse);
      if bad == 0 then Pass else Fail(PrimaryCompletionBeforeStart(bad))
  }

  // ---------------------------------------------------------------------
  // The arm-intervention bridge

  const BridgeColumns: set<string> := {"nct_id", "arm_label", "intervention_name"}

  /** The (`nct_id`, `arm_label`) pair of row `i`; a null is an ordinary value here. */
  function ArmRef(t: Table, i: int): (Cell, Cell)
    requires 0 <= i < |t.rows|
  {
    (At(t, i, "nct_id"), At(t, i, "arm_label"))
  }

  function ArmRefs(t: Table): set<(Cell, Cell)> {
    set i | 0 <= i < |t.rows| :: ArmRef(t, i)
  }

  /** Some row's (`nct_id`, `arm_label`) pair holds a dict or a list, which a set of pairs cannot hash. */
  predicate NestedArmRef(t: Table) {
    exists i :: 0 <= i < |t.rows| && (ArmRef(t, i).0.Complex? || ArmRef(t, i).1.Complex?)
  }

  /**
   * The bridge checks: skipped when the bridge table is absent; otherwise its
   * three columns must exist and, when it has rows, each of its (`nct_id`,
   * `arm_label`) pairs must be a pair of the arms table. The arms pairs are
   * collected first, then the bridge pairs.
   */
  function BridgeReferences(bridge: Option<Table>, arms: Table): (v: Verdict)
    ensures bridge.None? ==> v.Pass?
    ensures bridge.Some? && !(BridgeColumns <= ColumnSet(bridge.value)) ==>
      v == Fail(BridgeMissingColumns(BridgeColumns - ColumnSet(bridge.value)))
    ensures bridge.Some? && BridgeColumns <= ColumnSet(bridge.value) && |bridge.value.rows| == 0 ==> v.Pass?
    ensures (bridge.Some? && BridgeColumns <= ColumnSet(bridge.value) && |bridge.value.rows| > 0
             && "nct_id" in arms.columns && "arm_label" in arms.columns
             && !NestedArmRef(arms) && !NestedArmRef(bridge.value)) ==>
      (v.Pass? <==> forall i :: 0 <= i < |bridge.value.rows| ==> KnownArm(arms, ArmRef(bridge.value, i)))
    ensures (bridge.Some? && BridgeColumns <= ColumnSet(bridge.value) && |bridge.value.rows| > 0) ==>
      (if "nct_id" !in arms.columns then v == Fail(ColumnNotFound("arms", "nct_id"))
       else if "arm_label" !in arms.columns then v == Fail(ColumnNotFound("arms", "arm_label"))
       else if NestedArmRef(arms) then v == Fail(Unhashable("arms"))
       else if NestedArmRef(bridge.value) then v == Fail(Unhashable("arm_interventions"))
       else v.Pass? || v == Fail(UnknownArmReferences))
  {
    if bridge.None? then Pass
    else
      var b := bridge.value;
      var missing := BridgeColumns - ColumnSet(b);
      if missing != {} then Fail(BridgeMissingColumns(missing))
      else
      assert BridgeColumns <= ColumnSet(b) by {
        forall c | c in BridgeColumns ensures c in ColumnSet(b) {
          assert c !in missing;
        }
      }
      if |b.rows| == 0 then Pass
      else if "nct_id" !in arms.columns then Fail(ColumnNotFound("arms", "nct_id"))
      else if "arm_label" !in arms.columns then Fail(ColumnNotFound("arms", "arm_label"))
      else if NestedArmRef(arms) then Fail(Unhashable("arms"))
      else if NestedArmRef(b) then Fail(Unhashable("arm_interventions"))
      else
        var unknown := ArmRefs(b) - ArmRefs(arms);
        ArmRefsCovered(b, arms);
        if unknown == {} then Pass else Fail(UnknownArmReferences)
  }

  /** Some row of `arms` carries the pair `ref`. */
  ghost predicate KnownArm(arms: Table, ref: (Cell, Cell)) {
    exists j :: 0 <= j < |arms.rows| && ArmRef(arms, j) == ref
  }

  /** Every pair of `b` is a pair of `arms` exactly when each row of `b` matches some row of `arms`. */
  lemma ArmRefsCovered(b: Table, arms: Table)
    ensures ArmRefs(b) - ArmRefs(arms) == {} <==> forall i :: 0 <= i < |b.rows| ==> KnownArm(arms, ArmRef(b, i))
  {
    if ArmRefs(b) - ArmRefs(arms) == {} {
      forall i | 0 <= i < |b.rows| ensures KnownArm(arms, ArmRef(b, i)) {
        assert ArmRef(b, i) in ArmRefs(b);
        assert ArmRef(b, i) !in ArmRefs(b) - ArmRefs(arms);
      }
    } else {
      var p :| p in ArmRefs(b) - ArmRefs(arms);
      var i :| 0 <= i < |b.rows| && ArmRef(b, i) == p;
      assert !KnownArm(arms, ArmRef(b, i));
    }
  }
}
