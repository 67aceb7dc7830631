/** The written grid as the strings of its cells, and the column-width loop
    that fits each column to its longest cell. */
module Grid {
  import opened Strings
  import opened Report
  import opened Derive

  const Header: seq<string> := ["Name", "Violations", "Violations Count"]

  /** `str(cell.value)` of a written cell. */
  function CellText(c: Cell): string
  {
    match c
    case Num(n) => IntToString(n)
    case Text(s) => s
    case Blank => "None"
  }

  function RowTexts(r: ResultRow): seq<string>
  {
    [CellText(r.name), r.violations, IntToString(r.count)]
  }

  /** The sheet as written: the header row, then one row per grid row. */
  function Texts(rows: seq<ResultRow>): (g: seq<seq<string>>)
    ensures |g| == |rows| + 1 && g[0] == Header
    ensures forall i :: 0 <= i < |g| ==> |g[i]| == 3
    ensures forall i :: 0 <= i < |rows| ==> g[i + 1] == RowTexts(rows[i])
  {
    [Header] + seq(|rows|, i requires 0 <= i < |rows| => RowTexts(rows[i]))
  }

  /** The length of the longest text in column `j` of the first `n` rows
      (0 for no rows). */
  function ColumnMax(grid: seq<seq<string>>, j: nat, n: nat): nat
    requires n <= |grid| && forall i :: 0 <= i < n ==> j < |grid[i]|
  {
    if n == 0 then 0
    else
      var m := ColumnMax(grid, j, n - 1);
      if |grid[n - 1][j]| > m then |grid[n - 1][j]| else m
  }

  /** `m` is the length of some text in column `j` of the first `n` rows, or
      0 when there are none. */
  predicate Attained(grid: seq<seq<string>>, j: nat, n: nat, m: nat)
    requires n <= |grid| && forall i :: 0 <= i < n ==> j < |grid[i]|
  {
    if n == 0 then m == 0 else exists i :: 0 <= i < n && |grid[i][j]| == m
  }

  /** ColumnMax is the maximum: no cell is longer, and some cell has that
      length when there is a row. */
  lemma {:induction false} ColumnMaxIsMax(grid: seq<seq<string>>, j: nat, n: nat)
    requires n <= |grid| && forall i :: 0 <= i < n ==> j < |grid[i]|
    ensures forall i :: 0 <= i < n ==> |grid[i][j]| <= ColumnMax(grid, j, n)
    ensures Attained(grid, j, n, ColumnMax(grid, j, n))
  {
    if n > 0 {
      ColumnMaxIsMax(grid, j, n - 1);
    }
  }

  /** For each of the `width` columns, the length of its longest cell text:
      at least every cell's length, and equal to one of them (0 for a grid
      with no rows). */
  method ColumnMaxLengths(grid: seq<seq<string>>, width: nat) returns (lengths: seq<nat>)
    requires forall i :: 0 <= i < |grid| ==> |grid[i]| == width
    ensures |lengths| == width
    ensures forall j :: 0 <= j < width ==> lengths[j] == ColumnMax(grid, j, |grid|)
    ensures forall j, i :: 0 <= j < width && 0 <= i < |grid| ==> |grid[i][j]| <= lengths[j]
    ensures forall j :: 0 <= j < width ==> Attained(grid, j, |grid|, lengths[j])
  {
    lengths := [];
    var j := 0;
    while j < width
      invariant 0 <= j <= width && |lengths| == j
      invariant forall c :: 0 <= c < j ==> lengths[c] == ColumnMax(grid, c, |grid|)
    {
      var maxLength := 0;
      var i := 0;
      while i < |grid|
        invariant 0 <= i <= |grid|
        invariant maxLength == ColumnMax(grid, j, i)
      {
        if |grid[i][j]| > maxLength {
          maxLength := |grid[i][j]|;
        }
        i := i + 1;
      }
      lengths := lengths + [maxLength];
      j := j + 1;
    }
    forall c, i | 0 <= c < width && 0 <= i < |grid|
      ensures |grid[i][c]| <= lengths[c]
    {
      ColumnMaxIsMax(grid, c, |grid|);
    }
    forall c | 0 <= c < width
      ensures Attained(grid, c, |grid|, lengths[c])
    {
      ColumnMaxIsMax(grid, c, |grid|);
    }
  }

  /** The fitted length of each of the three grid columns: at least its
      header's length and every cell's length, and equal to one of them. */
  method GridColumnLengths(rows: seq<ResultRow>) returns (lengths: seq<nat>)
    ensures |lengths| == 3
    ensures forall j :: 0 <= j < 3 ==> |Header[j]| <= lengths[j]
    ensures forall i, j :: 0 <= i < |rows| && 0 <= j < 3 ==> |RowTexts(rows[i])[j]| <= lengths[j]
    ensures forall j :: 0 <= j < 3 ==>
      lengths[j] == |Header[j]| || exists i :: 0 <= i < |rows| && lengths[j] == |RowTexts(rows[i])[j]|
  {
    var grid := Texts(rows);
    lengths := ColumnMaxLengths(grid, 3);
    forall i, j | 0 <= i < |rows| && 0 <= j < 3
      ensures |RowTexts(rows[i])[j]| <= lengths[j]
    {
      assert grid[i + 1] == RowTexts(rows[i]);
    }
    forall j | 0 <= j < 3
      ensures lengths[j] == |Header[j]| || exists i :: 0 <= i < |rows| && lengths[j] == |RowTexts(rows[i])[j]|
    {
      var k :| 0 <= k < |grid| && |grid[k][j]| == lengths[j];
      if k > 0 {
        assert grid[k] == RowTexts(rows[k - 1]);
      }
    }
  }
}
