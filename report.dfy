/** The parsed Driver Report sheet, the fixed column list, and the first
    stage of the upload: the schema check and the reading of each row's
    name and violation counts. */
module Report {

  /** A parsed spreadsheet cell: a number, a piece of text, or an empty
      cell (pandas reads it as NaN). */
  datatype Cell = Num(n: int) | Text(s: string) | Blank

  /** The first sheet of the uploaded workbook: header names and rows of
      cells, positionally under the header. */
  datatype Sheet = Sheet(header: seq<string>, rows: seq<seq<Cell>>)

  datatype Option<T> = None | Some(value: T)

  /** Why an upload produces no grid. */
  datatype Error =
    | NotXlsx          // the file name does not end with ".xlsx"
    | NotDriverReport  // the workbook cannot be read, or a required column is missing
    | NotNumeric       // a violation column holds text, so comparing it with 0 raises

  datatype Result<T> = Ok(value: T) | Err(error: Error)

  const NameColumn: string := "Name"

  /** The eight violation columns, in the order the grid's label lists them. */
  const ViolationColumns: seq<string> := [
    "Following Distance", "Camera Obstruction", "U Turn", "Driver Distraction",
    "Seatbelt Compliance", "Sign Violations", "Speeding Violations",
    "Traffic Light Violation"
  ]

  /** Every column a Driver Report must have. */
  const Columns: seq<string> := [NameColumn] + ViolationColumns

  /** One number per violation column, in the order of ViolationColumns. */
  type Tally = s: seq<int> | |s| == 8 witness [0, 0, 0, 0, 0, 0, 0, 0]

  /** A row of the report as the pipeline sees it: the Name cell and the
      eight violation counts, an empty cell counted as 0. */
  datatype Entry = Entry(name: Cell, counts: Tally)

  /** No name appears twice. */
  predicate Distinct(names: seq<string>)
  {
    forall i, j :: 0 <= i < j < |names| ==> names[i] != names[j]
  }

  lemma ViolationColumnsShape()
    ensures |ViolationColumns| == 8
    ensures Distinct(ViolationColumns)
    ensures forall i :: 0 <= i < 8 ==> ViolationColumns[i] != "" && ',' !in ViolationColumns[i]
  {
  }

  /** The first position of `x` in `xs`. */
  function IndexOf(xs: seq<string>, x: string): (r: nat)
    requires x in xs
    ensures r < |xs| && xs[r] == x
    ensures forall j :: 0 <= j < r ==> xs[j] != x
  {
    if xs[0] == x then 0 else 1 + IndexOf(xs[1..], x)
  }

  /** The cell of `row` under column position `j`; a short row reads as
      empty there. */
  function CellAt(row: seq<Cell>, j: nat): Cell
  {
    if j < |row| then row[j] else Blank
  }

  /** The schema check: every required column is in the header. */
  predicate HasColumns(sheet: Sheet)
  {
    forall c :: c in Columns ==> c in sheet.header
  }

  function NameCell(sheet: Sheet, row: seq<Cell>): Cell
    requires HasColumns(sheet)
  {
    CellAt(row, IndexOf(sheet.header, NameColumn))
  }

  function ViolationCell(sheet: Sheet, row: seq<Cell>, k: nat): Cell
    requires HasColumns(sheet) && k < 8
  {
    CellAt(row, IndexOf(sheet.header, ViolationColumns[k]))
  }

  /** No violation cell holds text: the `> 0` comparisons of the filter can
      all be evaluated. */
  predicate AllNumeric(sheet: Sheet)
    requires HasColumns(sheet)
  {
    forall i, k :: 0 <= i < |sheet.rows| && 0 <= k < 8 ==>
      !ViolationCell(sheet, sheet.rows[i], k).Text?
  }

  /** The count a numeric cell stands for: an empty cell counts as 0, both
      in a `> 0` test and in a sum. */
  function Count(c: Cell): int
    requires !c.Text?
  {
    if c.Num? then c.n else 0
  }

  function ToEntry(sheet: Sheet, row: seq<Cell>): Entry
    requires HasColumns(sheet)
    requires forall k :: 0 <= k < 8 ==> !ViolationCell(sheet, row, k).Text?
  {
    Entry(NameCell(sheet, row),
          seq(8, k requires 0 <= k < 8 => Count(ViolationCell(sheet, row, k))))
  }

  /** The schema check and the reading of the rows: a missing column is
      reported as NotDriverReport; with every column present, text in a
      violation column is reported as NotNumeric; otherwise each entry reads
      the Name cell and the violation cells of its row. */
  function Load(sheet: Sheet): (r: Result<seq<Entry>>)
    ensures r == Err(NotDriverReport) <==> exists c :: c in Columns && c !in sheet.header
    ensures r == Err(NotNumeric) <==> HasColumns(sheet) && !AllNumeric(sheet)
    ensures r.Ok? <==> HasColumns(sheet) && AllNumeric(sheet)
    ensures r.Ok? ==> |r.value| == |sheet.rows|
    ensures r.Ok? ==>
      forall i :: 0 <= i < |sheet.rows| ==>
        && r.value[i].name == NameCell(sheet, sheet.rows[i])
        && forall k :: 0 <= k < 8 ==>
             r.value[i].counts[k] == Count(ViolationCell(sheet, sheet.rows[i], k))
  {
    if !HasColumns(sheet) then Err(NotDriverReport)
    else if !AllNumeric(sheet) then Err(NotNumeric)
    else Ok(seq(|sheet.rows|, i requires 0 <= i < |sheet.rows| => ToEntry(sheet, sheet.rows[i])))
  }
}
