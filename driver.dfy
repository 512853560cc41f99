/**
 The cleaner as the program runs it: the schema loop that returns at the first
 missing column, and the row loop that cleans one row at a time, lower-cases
 the controlled cells in place, prints its warnings and writes the row. Each
 `return` is one of the ways the Python function ends. The method is proved to
 compute `Cleaning.Clean`, whose properties are the lemmas of module Cleaning.
 */
module Driver {
  import opened PyStr
  import opened Cleaning

  /** `clean_data(input_file, output_file)`, with the existence of the output
      file as `outputExists` and the reader's rows as `input`. */
  method CleanData(outputExists: bool, input: seq<seq<string>>) returns (outcome: Outcome)
    ensures outcome == Clean(outputExists, input)
  {
    if outputExists {
      return Skipped;
    }
    if |input| == 0 {
      return NoHeader;
    }
    var header := NormalizeHeader(input[0]);

    var missing := FindMissing(ExpectedColumns, header);
    if missing.Some? {
      return MissingColumn(missing.value);
    }
    assert HasExpectedColumns(header);

    var progress := CleanAllRows(header, input[1..]);
    match progress
    case Running(rows, warnings) =>
      return Done(header, rows, warnings);
    case Halted(rows, warnings, fault) =>
      return Crashed(header, rows, warnings, fault);
  }

  /** The row loop: clean the data rows in order, collecting the written rows
      and the warnings, and stop at the first row that raises. */
  method CleanAllRows(header: seq<string>, data: seq<seq<string>>) returns (progress: Progress)
    requires HasExpectedColumns(header)
    ensures progress == Fold(CleanRows(Locate(header), AllowLists, data))
  {
    ghost var results := CleanRows(Locate(header), AllowLists, data);
    var rows: seq<seq<Cell>> := [];
    var warnings: seq<Warning> := [];
    for r := 0 to |data|
      invariant Fold(results[..r]) == Running(rows, warnings)
      invariant |rows| == r
    {
      var result := CleanOneRow(header, data[r], FundingSources, Conditions, Designations);
      assert results[..r + 1][..r] == results[..r];
      match result
      case Failed(field, kind) =>
        var fault := Fault(r, field, kind);
        StopAt(results, r, rows, warnings, fault);
        return Halted(rows, warnings, fault);
      case Cleaned(cells, rowWarnings) =>
        warnings := warnings + rowWarnings;
        rows := rows + [cells];
    }
    assert results[..|data|] == results;
    return Running(rows, warnings);
  }

  /** The schema loop: the first column of `columns` that `header` lacks. */
  method FindMissing(columns: seq<string>, header: seq<string>) returns (missing: Option<string>)
    ensures missing == FirstMissing(columns, header)
  {
    for i := 0 to |columns|
      invariant forall j :: 0 <= j < i ==> columns[j] in header
    {
      if columns[i] !in header {
        FirstMissingAt(columns, header, i);
        return Some(columns[i]);
      }
    }
    return None;
  }

  /** The body of the row loop for one row: map the sentinels, lower-case the
      three controlled cells in place (raising on a short row or an absent
      cell), then warn about each value outside its allow-list. */
  method CleanOneRow(
    header: seq<string>, row: seq<string>,
    allowedFundingSources: set<string>, allowedConditions: set<string>, allowedDesignations: set<string>
  ) returns (result: RowResult)
    requires HasExpectedColumns(header)
    ensures result == CleanRow(Locate(header), [allowedFundingSources, allowedConditions, allowedDesignations], row)
  {
    var cleaned := MapSentinels(row);

    ControlledPresent(header);
    var fundingIndex := IndexOf(header, "funding_source").value;
    var conditionIndex := IndexOf(header, "condition").value;
    var designationIndex := IndexOf(header, "designation").value;
    ghost var loc := Locate(header);
    assert loc == [fundingIndex, conditionIndex, designationIndex];

    if fundingIndex >= |cleaned| {
      return Failed("funding_source", RowTooShort);
    } else if cleaned[fundingIndex].None? {
      return Failed("funding_source", AbsentValue);
    }
    ghost var c0 := cleaned;
    cleaned := cleaned[fundingIndex := Some(Lower(cleaned[fundingIndex].value))];
    if conditionIndex >= |cleaned| {
      return Failed("condition", RowTooShort);
    } else if cleaned[conditionIndex].None? {
      return Failed("condition", AbsentValue);
    }
    ghost var c1 := cleaned;
    cleaned := cleaned[conditionIndex := Some(Lower(cleaned[conditionIndex].value))];
    if designationIndex >= |cleaned| {
      return Failed("designation", RowTooShort);
    } else if cleaned[designationIndex].None? {
      return Failed("designation", AbsentValue);
    }
    ghost var c2 := cleaned;
    cleaned := cleaned[designationIndex := Some(Lower(cleaned[designationIndex].value))];
    assert LowerCell(c0, fundingIndex) == Ok(c1);
    assert LowerCell(c1, conditionIndex) == Ok(c2);
    assert LowerCell(c2, designationIndex) == Ok(cleaned);

    var warnings: seq<Warning> := [];
    if cleaned[fundingIndex].value !in allowedFundingSources {
      warnings := warnings + [Warning("funding_source", cleaned[fundingIndex].value, row)];
    }
    if cleaned[conditionIndex].value !in allowedConditions {
      warnings := warnings + [Warning("condition", cleaned[conditionIndex].value, row)];
    }
    if cleaned[designationIndex].value !in allowedDesignations {
      warnings := warnings + [Warning("designation", cleaned[designationIndex].value, row)];
    }
    return Cleaned(cleaned, warnings);
  }

  /** A failure of the row at `r` after a clean prefix decides the whole loop. */
  lemma StopAt(results: seq<RowResult>, r: nat, rows: seq<seq<Cell>>, warnings: seq<Warning>, fault: Fault)
    requires r < |results| && Fold(results[..r]) == Running(rows, warnings)
    requires fault.row == r && results[r] == Failed(fault.field, fault.kind)
    ensures Fold(results) == Halted(rows, warnings, fault)
  {
    assert results[..r + 1][..r] == results[..r];
    HaltedStaysHalted(results, r + 1);
  }
}
