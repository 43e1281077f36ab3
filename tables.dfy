/**
 * In-memory tables as the loader hands them to the validator, and the
 * column-level aggregates (null counts, duplicate counts, stripped text)
 * that the data-quality checks are built from.
 */
module Tables {

  datatype Option<T> = None | Some(value: T)

  /**
   * One cell. `Null` stands for every missing marker (None, NaN, NaT);
   * `Date` is a value the loader already parsed as a point in time (its
   * position on the time line); `Complex` is a nested dict or list value.
   */
  datatype Cell = Null | Str(text: string) | Num(n: int) | Date(instant: int) | Complex

  /** A row maps column names to cells; a name the row does not map reads as null. */
  type Row = map<string, Cell>

  /** A table: its ordered column header and its rows. */
  datatype Table = Table(columns: seq<string>, rows: seq<Row>)

  function Get(row: Row, c: string): Cell {
    if c in row then row[c] else Null
  }

  /**
   * The cell of row `i` under column `c`. A column missing from the header
   * reads as null in every row, as `DataFrame.get` yields no values for it.
   */
  function At(t: Table, i: int, c: string): Cell
    requires 0 <= i < |t.rows|
  {
    if c in t.columns then Get(t.rows[i], c) else Null
  }

  /** The column `c` as a series, one cell per row, in row order. */
  function Column(t: Table, c: string): (col: seq<Cell>)
    ensures |col| == |t.rows|
    ensures forall i :: 0 <= i < |t.rows| ==> col[i] == At(t, i, c)
  {
    seq(|t.rows|, i requires 0 <= i < |t.rows| => At(t, i, c))
  }

  function ColumnSet(t: Table): set<string> {
    set c | c in t.columns
  }

  /** The table with the cell at row `i`, column `c` replaced by `x`. */
  function SetCell(t: Table, i: int, c: string, x: Cell): Table
    requires 0 <= i < |t.rows|
  {
    Table(t.columns, t.rows[i := t.rows[i][c := x]])
  }

  function AppendRow(t: Table, row: Row): Table {
    Table(t.columns, t.rows + [row])
  }

  predicate IsNull(x: Cell) { x.Null? }

  predicate NoDuplicates<T(==)>(s: seq<T>) {
    forall i, j :: 0 <= i < j < |s| ==> s[i] != s[j]
  }

  // ---------------------------------------------------------------------
  // Counting

  /** How many elements of `s` satisfy `p` (the `.sum()` of a boolean series). */
  function Count<T>(s: seq<T>, p: T -> bool): (n: nat)
    ensures n <= |s|
    ensures n == 0 <==> forall i :: 0 <= i < |s| ==> !p(s[i])
  {
    if s == [] then 0
    else Count(s[..|s| - 1], p) + (if p(s[|s| - 1]) then 1 else 0)
  }

  lemma CountAppend<T>(s: seq<T>, x: T, p: T -> bool)
    ensures Count(s + [x], p) == Count(s, p) + (if p(x) then 1 else 0)
  {
    assert (s + [x])[..|s|] == s;
  }

  function NullCount(t: Table, c: string): nat {
    Count(Column(t, c), IsNull)
  }

  /** The elements of `s`, each once. */
  function Distinct<T>(s: seq<T>): set<T> {
    set x | x in s
  }

  /**
   * The number of elements equal to some earlier element: what pandas'
   * `duplicated(keep="first").sum()` reports.
   */
  function DuplicateCount<T(==)>(s: seq<T>): nat {
    if s == [] then 0
    else DuplicateCount(s[..|s| - 1]) + (if s[|s| - 1] in s[..|s| - 1] then 1 else 0)
  }

  lemma DuplicateCountAppend<T>(s: seq<T>, x: T)
    ensures DuplicateCount(s + [x]) == DuplicateCount(s) + (if x in s then 1 else 0)
  {
    assert (s + [x])[..|s|] == s;
  }

  /** The duplicate count is the number of elements minus the number of distinct elements. */
  lemma {:induction false} DuplicateCountIsSurplus<T>(s: seq<T>)
    ensures DuplicateCount(s) == |s| - |Distinct(s)|
  {
    if s != [] {
      var p, x := s[..|s| - 1], s[|s| - 1];
      assert s == p + [x];
      DuplicateCountIsSurplus(p);
      assert Distinct(s) == Distinct(p) + {x};
      if x in p {
        assert Distinct(s) == Distinct(p);
      } else {
        assert x !in Distinct(p);
      }
    }
  }

  /** No duplicate is counted exactly when all elements are pairwise different. */
  lemma {:induction false} DuplicateCountZeroIff<T>(s: seq<T>)
    ensures DuplicateCount(s) == 0 <==> NoDuplicates(s)
  {
    if s != [] {
      var p, x := s[..|s| - 1], s[|s| - 1];
      assert s == p + [x];
      DuplicateCountZeroIff(p);
      if x in p {
        var i :| 0 <= i < |p| && p[i] == x;
        assert s[i] == s[|s| - 1];
      } else if DuplicateCount(p) == 0 {
        forall i, j | 0 <= i < j < |s| ensures s[i] != s[j] {
          if j < |p| {
            assert s[i] == p[i] && s[j] == p[j];
          } else {
            assert s[i] == p[i];
          }
        }
      } else {
        assert !NoDuplicates(p);
        var i, j :| 0 <= i < j < |p| && p[i] == p[j];
        assert s[i] == s[j];
      }
    }
  }

  // ---------------------------------------------------------------------
  // Whitespace and `str.strip()`

  /** The characters Python's `str.isspace` accepts (and `str.strip()` removes). */
  predicate IsSpace(ch: char) {
    var k := ch as int;
    (9 <= k <= 13) || (28 <= k <= 32) || k == 0x85 || k == 0xA0 || k == 0x1680
    || (0x2000 <= k <= 0x200A) || k == 0x2028 || k == 0x2029 || k == 0x202F
    || k == 0x205F || k == 0x3000
  }

  predicate AllSpace(s: string) {
    forall k :: 0 <= k < |s| ==> IsSpace(s[k])
  }

  /** `s` without its leading whitespace. */
  function TrimStart(s: string): (r: string)
    ensures |r| <= |s| && r == s[|s| - |r|..]
    ensures r == [] || !IsSpace(r[0])
    ensures AllSpace(s[..|s| - |r|])
  {
    if s == [] || !IsSpace(s[0]) then s
    else
      var r := TrimStart(s[1..]);
      assert s[..|s| - |r|] == [s[0]] + s[1..][..|s[1..]| - |r|];
      r
  }

  /** `s` without its trailing whitespace. */
  function TrimEnd(s: string): (r: string)
    ensures |r| <= |s| && r == s[..|r|]
    ensures r == [] || !IsSpace(r[|r| - 1])
    ensures AllSpace(s[|r|..])
  {
    if s == [] || !IsSpace(s[|s| - 1]) then s
    else
      var p := s[..|s| - 1];
      var r := TrimEnd(p);
      assert s[|r|..] == p[|r|..] + [s[|s| - 1]];
      r
  }

  /**
   * Python's `str.strip()`: the part of `s` left once the whitespace at both
   * ends is removed.
   */
  function Strip(s: string): (r: string)
    ensures exists a :: StrippedAt(s, a, r)
    ensures r == [] || (!IsSpace(r[0]) && !IsSpace(r[|r| - 1]))
  {
    var m := TrimStart(s);
    var r := TrimEnd(m);
    TrimmedBothEnds(s);
    assert r != [] ==> r[0] == m[0];
    r
  }

  lemma TrimmedBothEnds(s: string)
    ensures StrippedAt(s, |s| - |TrimStart(s)|, TrimEnd(TrimStart(s)))
  {
    var m := TrimStart(s);
    var r := TrimEnd(m);
    StrippedBetweenSpaces(s, |s| - |m|, m, r);
  }

  lemma StrippedBetweenSpaces(s: string, a: int, m: string, r: string)
    requires 0 <= a <= |s| && m == s[a..] && AllSpace(s[..a])
    requires |r| <= |m| && r == m[..|r|] && AllSpace(m[|r|..])
    ensures StrippedAt(s, a, r)
  {
    SliceOfSuffix(s, a, m, r);
  }

  /** A prefix `r` of the suffix `m` of `s` starting at `a` is the slice of `s` from `a`. */
  lemma SliceOfSuffix(s: string, a: int, m: string, r: string)
    requires 0 <= a <= |s| && m == s[a..] && |r| <= |m| && r == m[..|r|]
    ensures r == s[a..a + |r|] && m[|r|..] == s[a + |r|..]
  {
  }

  /** `r` is the slice of `s` from `a` on, with only whitespace before and after it. */
  predicate StrippedAt(s: string, a: int, r: string) {
    && 0 <= a <= a + |r| <= |s| && r == s[a..a + |r|]
    && AllSpace(s[..a]) && AllSpace(s[a + |r|..])
  }

  /** A string strips to nothing exactly when every character of it is whitespace. */
  lemma StripEmptyIffAllSpace(s: string)
    ensures Strip(s) == [] <==> AllSpace(s)
  {
    var m := TrimStart(s);
    if m == [] {
      assert s[..|s| - |m|] == s;
    } else {
      assert !IsSpace(s[|s| - |m|]);
      assert TrimEnd(m) != [];
    }
  }

  /**
   * A cell whose text form is empty after stripping. Only a string can be:
   * the text of a number, a date or a nested value always has a
   * non-whitespace character.
   */
  predicate IsBlank(x: Cell) {
    x.Str? && Strip(x.text) == []
  }
}
