/** The upload handler's pipeline end to end: the file-name check, the
    schema check, filter, group-by-sum, the derived fields, the projection
    and the name of the output workbook. */
module Pipeline {
  import opened Strings
  import opened Report
  import opened Aggregate
  import opened Derive

  const Extension: string := ".xlsx"
  const GridSuffix: string := "_grid.xlsx"

  /** The result of a successful upload: the output workbook's file name and
      the rows of its grid. */
  datatype Output = Output(fileName: string, rows: seq<ResultRow>)

  /** `filename.replace('.xlsx', '_grid.xlsx')`. */
  function OutputName(filename: string): string
  {
    ReplaceAll(filename, Extension, GridSuffix)
  }

  /** Schema check and row reading, then filter, group, derive, project. */
  function Process(sheet: Sheet): Result<seq<ResultRow>>
  {
    match Load(sheet)
    case Err(e) => Err(e)
    case Ok(es) => Ok(Project(GroupRows(Filter(es))))
  }

  /** The upload handler. `filename` is the sanitised name of the upload;
      `parsed` is what reading its first sheet gave, None when the reader
      failed. */
  function Upload(filename: string, parsed: Option<Sheet>): Result<Output>
  {
    if !EndsWith(filename, Extension) then Err(NotXlsx)
    else
      match parsed
      case None => Err(NotDriverReport)
      case Some(sheet) =>
        match Process(sheet)
        case Err(e) => Err(e)
        case Ok(rows) => Ok(Output(OutputName(filename), rows))
  }

  /** A name ending in ".xlsx" gives an output name ending in "_grid.xlsx". */
  lemma OutputNameSuffix(filename: string)
    requires EndsWith(filename, Extension)
    ensures EndsWith(OutputName(filename), GridSuffix)
  {
    assert Extension[1..] == "xlsx";
    ReplaceAllSuffix(filename, Extension, GridSuffix);
  }

  /** A stem in which ".xlsx" does not occur keeps its text: "report.v2.xlsx"
      becomes "report.v2_grid.xlsx". */
  lemma OutputNameOfStem(stem: string)
    requires !Occurs(stem, Extension)
    ensures OutputName(stem + Extension) == stem + GridSuffix
  {
    assert Extension[1..] == "xlsx";
    ReplaceAllStem(stem, Extension, GridSuffix);
  }

  /** When the upload is accepted and when it is refused: a name that does
      not end in ".xlsx" is refused first; an unreadable workbook, or one that
      lacks a required column, is not a Driver Report; text in a violation
      column fails the run; an accepted upload is named with "_grid.xlsx". */
  lemma UploadOutcome(filename: string, parsed: Option<Sheet>)
    ensures !EndsWith(filename, Extension) ==> Upload(filename, parsed) == Err(NotXlsx)
    ensures EndsWith(filename, Extension) && parsed.None? ==>
      Upload(filename, parsed) == Err(NotDriverReport)
    ensures EndsWith(filename, Extension) && parsed.Some? ==>
      (Upload(filename, parsed) == Err(NotDriverReport) <==>
       exists c :: c in Columns && c !in parsed.value.header)
    ensures EndsWith(filename, Extension) && parsed.Some? ==>
      (Upload(filename, parsed).Ok? <==>
       HasColumns(parsed.value) && AllNumeric(parsed.value))
    ensures Upload(filename, parsed).Ok? ==>
      EndsWith(Upload(filename, parsed).value.fileName, GridSuffix)
  {
    if EndsWith(filename, Extension) {
      OutputNameSuffix(filename);
    }
  }

  /** The rows of the grid, for a sheet that passes the checks, with `es`
      its filtered entries: names strictly ascending (so each appears once);
      the names are exactly the non-empty names among the filtered rows; each
      row's label and count are derived from the column sums over the
      filtered rows with its name; and summing a column over the groups gives
      its sum over all named filtered rows. */
  lemma ProcessRows(sheet: Sheet)
    requires Process(sheet).Ok?
    ensures var es := Filter(Load(sheet).value);
      var out := Process(sheet).value;
      && (forall i, j :: 0 <= i < j < |out| ==> KeyLess(out[i].name, out[j].name))
      && (set r | r in out :: r.name) == KeysOf(es)
      && (forall i :: 0 <= i < |out| ==>
            var t := TotalFor(es, out[i].name);
            out[i].violations == Label(ViolationColumns, t) &&
            out[i].count == PositiveTotal(t))
      && GrandTotal(GroupRows(es)) == KeyedTotal(es)
  {
    var es := Filter(Load(sheet).value);
    var gs := GroupRows(es);
    var out := Process(sheet).value;
    assert out == Project(gs);
    GroupRowsNames(es);
    GroupRowsTotals(es);
    GroupRowsConserves(es);
    assert (set r | r in out :: r.name) == Names(gs) by {
      forall x | x in Names(gs)
        ensures x in (set r | r in out :: r.name)
      {
        var g :| g in gs && g.name == x;
        var i :| 0 <= i < |gs| && gs[i] == g;
        assert out[i] in out;
      }
    }
    forall i | 0 <= i < |out|
      ensures var t := TotalFor(es, out[i].name);
        out[i].violations == Label(ViolationColumns, t) &&
        out[i].count == PositiveTotal(t)
    {
      assert gs[i] in gs;
    }
  }

  /** With no negative number in a violation column, every grid row has a
      non-empty label and a positive count, since every grouped row passed
      the filter. */
  lemma ProcessRowsNonEmpty(sheet: Sheet)
    requires HasColumns(sheet) && AllNumeric(sheet)
    requires forall i, k :: 0 <= i < |sheet.rows| && 0 <= k < 8 ==>
      var c := ViolationCell(sheet, sheet.rows[i], k);
      c.Num? ==> c.n >= 0
    ensures Process(sheet).Ok?
    ensures forall r :: r in Process(sheet).value ==> r.violations != "" && r.count > 0
  {
    var es := Load(sheet).value;
    var gs := GroupRows(Filter(es));
    assert forall i :: 0 <= i < |es| ==> NonNegative(es[i].counts);
    GroupRowsPositive(es);
    forall r | r in Process(sheet).value
      ensures r.violations != "" && r.count > 0
    {
      var i :| 0 <= i < |gs| && r == Summarize(gs[i]);
      assert gs[i] in gs;
      SummarizeMeaning(gs[i]);
    }
  }
}
