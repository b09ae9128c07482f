/** `detect_header_row` (app.py): which row of a sheet read without a header
    holds the column titles. */
module HeaderLocator {
  import opened Wrappers
  import opened Text
  import opened Search

  /** One row of the raw grid: `str()` of each cell. */
  type Row = seq<string>
  type Grid = seq<Row>

  /** The default `max_rows`. */
  const DefaultMaxRows: int := 60

  /** `normalize(x).upper()`. */
  function CellKey(cell: string): string {
    Upper(Normalize(cell))
  }

  /** First pass: some cell mentions the student column. */
  predicate NamesStudent(row: Row) {
    exists i :: 0 <= i < |row| && Contains(CellKey(row[i]), "ALUNO")
  }

  /** Second pass: an enrollment-number hint together with a CPF or RG hint. */
  predicate NamesIds(row: Row) {
    (exists i :: 0 <= i < |row| && Contains(CellKey(row[i]), "MAT"))
    && ((exists i :: 0 <= i < |row| && Contains(CellKey(row[i]), "CPF"))
        || (exists i :: 0 <= i < |row| && (CellKey(row[i]) == "RG" || Contains(CellKey(row[i]), " RG"))))
  }

  /** `min(max_rows, len(df_raw))`, where a negative bound scans nothing. */
  function ScanLimit(grid: Grid, maxRows: int): (n: nat)
    ensures n <= |grid| && n <= if maxRows < 0 then 0 else maxRows
    ensures maxRows >= 0 ==> n == maxRows || n == |grid|
  {
    if maxRows < 0 then 0 else if maxRows < |grid| then maxRows else |grid|
  }

  /** The header row index, or None: the first student row within the limit,
      and only when there is none, the first identifier row. */
  function HeaderRow(grid: Grid, maxRows: int): Option<nat>
  {
    var n := ScanLimit(grid, maxRows);
    var first := FirstIndex(grid, NamesStudent, 0, n);
    if first.Some? then first else FirstIndex(grid, NamesIds, 0, n)
  }

  /** The two early-return scans of `detect_header_row`. */
  method DetectHeaderRow(grid: Grid, maxRows: int) returns (r: Option<nat>)
    ensures r == HeaderRow(grid, maxRows)
  {
    var n := ScanLimit(grid, maxRows);
    var i := 0;
    while i < n
      invariant 0 <= i <= n
      invariant forall j :: 0 <= j < i ==> !NamesStudent(grid[j])
    {
      if NamesStudent(grid[i]) {
        StudentRowWins(grid, maxRows, i);
        return Some(i);
      }
      ghost var row := grid[i];
      assert !NamesStudent(row);
      i := i + 1;
    }
    i := 0;
    while i < n
      invariant 0 <= i <= n
      invariant forall j :: 0 <= j < i ==> !NamesIds(grid[j])
    {
      if NamesIds(grid[i]) {
        IdRowFallback(grid, maxRows, i);
        return Some(i);
      }
      ghost var row := grid[i];
      assert !NamesIds(row);
      i := i + 1;
    }
    NoHeaderRow(grid, maxRows);
    return None;
  }

  /** A student row within the limit is the header when no earlier row is. */
  lemma StudentRowWins(grid: Grid, maxRows: int, i: nat)
    requires i < ScanLimit(grid, maxRows) && NamesStudent(grid[i])
    requires forall j :: 0 <= j < i ==> !NamesStudent(grid[j])
    ensures HeaderRow(grid, maxRows) == Some(i)
  {
    FirstIndexIs(grid, NamesStudent, 0, ScanLimit(grid, maxRows), i);
  }

  /** Failing the first pass, the first identifier row is the header. */
  lemma IdRowFallback(grid: Grid, maxRows: int, i: nat)
    requires i < ScanLimit(grid, maxRows) && NamesIds(grid[i])
    requires forall j :: 0 <= j < ScanLimit(grid, maxRows) ==> !NamesStudent(grid[j])
    requires forall j :: 0 <= j < i ==> !NamesIds(grid[j])
    ensures HeaderRow(grid, maxRows) == Some(i)
  {
    var n := ScanLimit(grid, maxRows);
    assert FirstIndex(grid, NamesStudent, 0, n).None?;
    FirstIndexIs(grid, NamesIds, 0, n, i);
  }

  /** With neither kind of row within the limit, there is no header. */
  lemma NoHeaderRow(grid: Grid, maxRows: int)
    requires forall j :: 0 <= j < ScanLimit(grid, maxRows) ==> !NamesStudent(grid[j])
    requires forall j :: 0 <= j < ScanLimit(grid, maxRows) ==> !NamesIds(grid[j])
    ensures HeaderRow(grid, maxRows) == None
  {
  }

  /** Whatever HeaderRow returns is a row within the limit that one of the two
      passes selects: the first student row, or, when there is none, the first
      identifier row. */
  lemma HeaderRowSound(grid: Grid, maxRows: int, i: nat)
    requires HeaderRow(grid, maxRows) == Some(i)
    ensures i < ScanLimit(grid, maxRows)
    ensures || (NamesStudent(grid[i]) && forall j :: 0 <= j < i ==> !NamesStudent(grid[j]))
            || (&& (forall j :: 0 <= j < ScanLimit(grid, maxRows) ==> !NamesStudent(grid[j]))
                && NamesIds(grid[i])
                && (forall j :: 0 <= j < i ==> !NamesIds(grid[j])))
  {
  }

  /** `detect_header_row(raw)` with the default bound: a header found lies
      among the first sixty rows of the sheet. */
  lemma DefaultHeaderRow(grid: Grid)
    ensures ScanLimit(grid, DefaultMaxRows) == if |grid| < 60 then |grid| else 60
    ensures HeaderRow(grid, DefaultMaxRows).Some? ==>
      HeaderRow(grid, DefaultMaxRows).value < 60 && HeaderRow(grid, DefaultMaxRows).value < |grid|
  {
    if HeaderRow(grid, DefaultMaxRows).Some? {
      HeaderRowSound(grid, DefaultMaxRows, HeaderRow(grid, DefaultMaxRows).value);
    }
  }
}
