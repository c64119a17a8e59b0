/**
 * The tables the dashboard computes on: a data frame is a list of column names
 * and a list of rows, each row mapping a column name to a cell. A missing cell
 * (pandas' NaN) is `Missing`.
 */
module Table {
  import opened Wrappers
  import opened Strings

  datatype Cell = Missing | Text(s: string) | Number(n: int)

  type Row = map<string, Cell>

  datatype Frame = Frame(columns: seq<string>, rows: seq<Row>)

  /** The cell of `row` in column `col`; a column the row lacks reads as missing. */
  function Get(row: Row, col: string): Cell {
    if col in row then row[col] else Missing
  }

  /** The row's `year`, or `None` when it is missing (pandas leaves NaN keys out of a group-by). */
  function YearOf(row: Row): Option<int> {
    match Get(row, "year")
    case Number(y) => Some(y)
    case _ => None
  }

  /** The years of the rows, in row order. */
  function RowYears(rows: seq<Row>): (ys: seq<int>)
    ensures forall y :: y in ys <==> exists j :: 0 <= j < |rows| && YearOf(rows[j]) == Some(y)
  {
    if rows == [] then []
    else
      var rest := RowYears(rows[1..]);
      assert forall j :: 1 <= j < |rows| ==> rows[j] == rows[1..][j - 1];
      match YearOf(rows[0])
      case Some(y) => [y] + rest
      case None => rest
  }

  // ----- first match in a column list: the `for c in df.columns: ... break` loops -----

  /** The index of the first column that `p` accepts. */
  function FirstIndex(cols: seq<string>, p: string -> bool): (r: Option<nat>)
    ensures r.Some? ==> r.value < |cols| && p(cols[r.value])
    ensures r.Some? ==> forall j :: 0 <= j < r.value ==> !p(cols[j])
    ensures r.None? <==> forall j :: 0 <= j < |cols| ==> !p(cols[j])
  {
    if |cols| == 0 then None
    else if p(cols[0]) then Some(0)
    else
      match FirstIndex(cols[1..], p)
      case None => None
      case Some(k) => Some(k + 1)
  }

  /** The first column that `p` accepts, if any. */
  function FirstMatch(cols: seq<string>, p: string -> bool): Option<string> {
    match FirstIndex(cols, p)
    case None => None
    case Some(k) => Some(cols[k])
  }

  /** Scans the columns in order and stops at the first one `p` accepts. */
  method FindFirst(cols: seq<string>, p: string -> bool) returns (found: Option<string>)
    ensures found == FirstMatch(cols, p)
    ensures found.Some? ==> found.value in cols && p(found.value)
  {
    found := None;
    for i := 0 to |cols|
      invariant forall j :: 0 <= j < i ==> !p(cols[j])
    {
      if p(cols[i]) {
        found := Some(cols[i]);
        return;
      }
    }
  }

  /** A column whose lower-cased name is `state_po`. */
  predicate IsStatePoName(c: string) { Lower(c) == "state_po" }

  /** A column whose lower-cased name is `state`. */
  predicate IsStateColumnName(c: string) { Lower(c) == "state" }

  /**
   * The state column of the coverage text and the turnout explorer: the first
   * column named `state_po` in any case, else the first named `state` in any
   * case, else none.
   */
  function StateColumn(cols: seq<string>): (r: Option<string>)
    ensures forall i :: 0 <= i < |cols| && IsStatePoName(cols[i]) && (forall j :: 0 <= j < i ==> !IsStatePoName(cols[j])) ==>
      r == Some(cols[i])
    ensures forall i ::
      (&& 0 <= i < |cols| && IsStateColumnName(cols[i])
       && (forall j :: 0 <= j < i ==> !IsStateColumnName(cols[j]))
       && (forall c :: c in cols ==> !IsStatePoName(c)))
      ==> r == Some(cols[i])
    ensures r.None? <==> forall c :: c in cols ==> !IsStatePoName(c) && !IsStateColumnName(c)
  {
    match FirstMatch(cols, IsStatePoName)
    case Some(c) => Some(c)
    case None => FirstMatch(cols, IsStateColumnName)
  }

  /** The two search loops for `state_col`, each stopping at its first match. */
  method FindStateColumn(cols: seq<string>) returns (stateCol: Option<string>)
    ensures stateCol == StateColumn(cols)
  {
    stateCol := FindFirst(cols, IsStatePoName);
    if stateCol.None? {
      stateCol := FindFirst(cols, IsStateColumnName);
    }
  }

  // ----- sorted, de-duplicated integers: `sorted(set(...))` and `sorted(s.unique())` -----

  predicate StrictlyIncreasing(s: seq<int>) {
    forall i, j :: 0 <= i < j < |s| ==> s[i] < s[j]
  }

  /** Every later element of an increasing list is above its head. */
  lemma HeadBelowTail(s: seq<int>)
    requires StrictlyIncreasing(s) && s != []
    ensures StrictlyIncreasing(s[1..])
    ensures forall y :: y in s[1..] ==> s[0] < y
  {
    forall y | y in s[1..] ensures s[0] < y {
      var j :| 0 <= j < |s[1..]| && s[1..][j] == y;
      assert s[j + 1] == y;
    }
  }

  /** An element below every element of an increasing list can go in front. */
  lemma ConsIncreasing(x: int, s: seq<int>)
    requires StrictlyIncreasing(s)
    requires forall y :: y in s ==> x < y
    ensures StrictlyIncreasing([x] + s)
  {
    var r := [x] + s;
    forall i, j | 0 <= i < j < |r| ensures r[i] < r[j] {
      assert r[j] == s[j - 1] && s[j - 1] in s;
      if i > 0 {
        assert r[i] == s[i - 1];
      }
    }
  }

  function Insert(x: int, s: seq<int>): (r: seq<int>)
    requires StrictlyIncreasing(s)
    ensures StrictlyIncreasing(r)
    ensures forall y :: y in r <==> y == x || y in s
  {
    if s == [] then [x]
    else if x < s[0] then
      HeadBelowTail(s);
      ConsIncreasing(x, s);
      [x] + s
    else if x == s[0] then s
    else
      HeadBelowTail(s);
      var rest := Insert(x, s[1..]);
      ConsIncreasing(s[0], rest);
      [s[0]] + rest
  }

  /** The distinct values of `xs` in increasing order. */
  function SortedDistinct(xs: seq<int>): (r: seq<int>)
    ensures StrictlyIncreasing(r)
    ensures forall y :: y in r <==> y in xs
  {
    if xs == [] then []
    else Insert(xs[|xs| - 1], SortedDistinct(xs[..|xs| - 1]))
  }

  /** `sorted(df["year"].unique())` over the rows whose year is present. */
  function SortedYears(f: Frame): (ys: seq<int>)
    ensures StrictlyIncreasing(ys)
    ensures forall y :: y in ys <==> exists j :: 0 <= j < |f.rows| && YearOf(f.rows[j]) == Some(y)
  {
    SortedDistinct(RowYears(f.rows))
  }

  /** The rows of `df[df["year"] == year]`, in order. */
  function RowsOfYear(rows: seq<Row>, year: int): (r: seq<Row>)
    ensures forall row :: row in r <==> row in rows && YearOf(row) == Some(year)
    ensures forall row :: multiset(r)[row] == if YearOf(row) == Some(year) then multiset(rows)[row] else 0
  {
    if rows == [] then []
    else
      assert rows == [rows[0]] + rows[1..];
      if YearOf(rows[0]) == Some(year) then [rows[0]] + RowsOfYear(rows[1..], year)
      else RowsOfYear(rows[1..], year)
  }
}
