/**
 The cleaning and validation pass over the conservation-site CSV, as pure
 functions: the header normalisation, the expected-column check, the mapping
 of null sentinels to an absence marker, the lower-casing of the three
 controlled fields, the allow-list warnings, and the whole pass `Clean`,
 which the imperative driver in module Driver is proved to compute.
 Rows arrive already split into cells; the file system is a boolean input.
 */
module Cleaning {
  import opened PyStr

  datatype Option<+T> = None | Some(value: T)

  datatype Result<+T, +E> = Ok(value: T) | Err(error: E)

  /** A cleaned cell: `None` is the absence marker that replaces a null sentinel. */
  type Cell = Option<string>

  /** A vocabulary warning: the field, its lower-cased value and the raw row it came from. */
  datatype Warning = Warning(field: string, value: string, rawRow: seq<string>)

  /** Why a data row stops the run: the row is too short for a controlled
      field's index (`IndexError`), or that cell is absent and `.lower()` is
      called on `None` (`AttributeError`). */
  datatype FaultKind = RowTooShort | AbsentValue

  /** The fault that stopped the run: which data row (0-based), which field, which kind. */
  datatype Fault = Fault(row: nat, field: string, kind: FaultKind)

  /** What one call of the cleaner does.
      - Skipped: the output file already existed; nothing is read, written or warned.
      - NoHeader: the input has no header row (`next(reader)` raises); nothing is written.
      - MissingColumn: the first expected column the header lacks; nothing is written.
      - Done: the header written and every cleaned row, with the warnings in order.
      - Crashed: a row raised; the header and the rows before it were already
        written, with their warnings. */
  datatype Outcome =
    | Skipped
    | NoHeader
    | MissingColumn(column: string)
    | Done(header: seq<string>, rows: seq<seq<Cell>>, warnings: seq<Warning>)
    | Crashed(header: seq<string>, rows: seq<seq<Cell>>, warnings: seq<Warning>, fault: Fault)

  const FundingSources: set<string> :=
    {"international organization", "governmental", "non-profit", "private donors"}
  const Conditions: set<string> := {"good", "fair", "poor"}
  const Designations: set<string> := {"conserved", "under consideration", "endangered"}

  /** The schema every input header must contain, in the order it is checked. */
  const ExpectedColumns: seq<string> :=
    ["site_id", "site_name", "site_age_years", "geographical_location", "funding_source",
     "conservation_technique", "condition", "designation"]

  /** The controlled fields, in the order they are lower-cased and checked,
      with their allow-lists at the same positions. */
  const ControlledFields: seq<string> := ["funding_source", "condition", "designation"]
  const AllowLists: seq<set<string>> := [FundingSources, Conditions, Designations]

  // ---------------------------------------------------------------------------
  // Header

  /** One header name, whitespace stripped and lower-cased. */
  function NormalizeName(name: string): (r: string)
    ensures NoUpper(r) && NoOuterSpace(r)
  {
    LowerKeepsNoOuterSpace(Strip(name));
    Lower(Strip(name))
  }

  /** The header as it is matched and written: same length, every name normalised. */
  function NormalizeHeader(header: seq<string>): (r: seq<string>)
    ensures |r| == |header|
    ensures forall i :: 0 <= i < |r| ==> r[i] == Lower(Strip(header[i]))
    ensures forall i :: 0 <= i < |r| ==> NoUpper(r[i]) && NoOuterSpace(r[i])
  {
    seq(|header|, i requires 0 <= i < |header| => NormalizeName(header[i]))
  }

  /** A normalised name normalises to itself. */
  lemma NormalizeNameIdempotent(name: string)
    ensures NormalizeName(NormalizeName(name)) == NormalizeName(name)
  {
    var r := NormalizeName(name);
    StripNoOuterSpace(r);
    LowerFixedPoints(r);
  }

  /** Normalising a normalised header changes nothing, so the written header
      passes through the cleaner again unchanged. */
  lemma NormalizeHeaderIdempotent(header: seq<string>)
    ensures NormalizeHeader(NormalizeHeader(header)) == NormalizeHeader(header)
  {
    forall i | 0 <= i < |header|
      ensures NormalizeHeader(NormalizeHeader(header))[i] == NormalizeHeader(header)[i]
    {
      NormalizeNameIdempotent(header[i]);
    }
  }

  // ---------------------------------------------------------------------------
  // Schema check

  /** The first of `columns`, in order, that `header` lacks; `None` when it has them all. */
  function FirstMissing(columns: seq<string>, header: seq<string>): (r: Option<string>)
    ensures r.None? <==> forall j :: 0 <= j < |columns| ==> columns[j] in header
    ensures r.Some? ==> r.value in columns && r.value !in header
  {
    if columns == [] then None
    else if columns[0] !in header then Some(columns[0])
    else FirstMissing(columns[1..], header)
  }

  /** The column reported is the first absent one: every column before it is present. */
  lemma {:induction false} FirstMissingIsFirst(columns: seq<string>, header: seq<string>)
    requires FirstMissing(columns, header).Some?
    ensures exists i :: (0 <= i < |columns| && FirstMissing(columns, header) == Some(columns[i])
      && columns[i] !in header && forall j :: 0 <= j < i ==> columns[j] in header)
  {
    if columns[0] in header {
      FirstMissingIsFirst(columns[1..], header);
      var i :| 0 <= i < |columns| - 1 && FirstMissing(columns[1..], header) == Some(columns[1..][i])
        && columns[1..][i] !in header && forall j :: 0 <= j < i ==> columns[1..][j] in header;
      assert columns[i + 1] == columns[1..][i];
      assert forall j :: 1 <= j < i + 1 ==> columns[j] == columns[1..][j - 1];
    } else {
      assert FirstMissing(columns, header) == Some(columns[0]);
    }
  }

  /** The scan finds the column at `i` when it is absent and all before it are present. */
  lemma {:induction false} FirstMissingAt(columns: seq<string>, header: seq<string>, i: nat)
    requires i < |columns| && columns[i] !in header
    requires forall j :: 0 <= j < i ==> columns[j] in header
    ensures FirstMissing(columns, header) == Some(columns[i])
  {
    if i > 0 {
      FirstMissingAt(columns[1..], header, i - 1);
    }
  }

  // ---------------------------------------------------------------------------
  // Locating the controlled fields

  /** `header.index(name)`: the first position holding `name`, or `None` where
      Python raises `ValueError`. */
  function IndexOf(header: seq<string>, name: string): (r: Option<nat>)
    ensures r.None? <==> name !in header
    ensures r.Some? ==> r.value < |header| && header[r.value] == name && name !in header[..r.value]
  {
    if header == [] then None
    else if header[0] == name then Some(0)
    else match IndexOf(header[1..], name)
      case None => None
      case Some(i) =>
        assert header[1..][..i] == header[1..i + 1];
        Some(i + 1)
  }

  /** Three distinct positions, one per controlled field. */
  predicate ValidLocation(loc: seq<nat>) {
    |loc| == 3 && loc[0] != loc[1] && loc[0] != loc[2] && loc[1] != loc[2]
  }

  /** The header holds every expected column. */
  predicate HasExpectedColumns(header: seq<string>) {
    forall j :: 0 <= j < |ExpectedColumns| ==> ExpectedColumns[j] in header
  }

  /** The controlled fields are among the expected columns, so a header that
      passed the schema check holds all three. */
  lemma ControlledPresent(header: seq<string>)
    requires HasExpectedColumns(header)
    ensures forall k :: 0 <= k < 3 ==> ControlledFields[k] in header
    ensures "funding_source" in header && "condition" in header && "designation" in header
  {
    assert ExpectedColumns[4] in header && ExpectedColumns[6] in header && ExpectedColumns[7] in header;
  }

  /** The positions of the controlled fields in a header that passed the schema
      check: the first occurrence of each name, as `header.index` finds it. */
  function Locate(header: seq<string>): (loc: seq<nat>)
    requires HasExpectedColumns(header)
    ensures ValidLocation(loc)
    ensures forall k :: 0 <= k < 3 ==>
      loc[k] < |header| && header[loc[k]] == ControlledFields[k] && ControlledFields[k] !in header[..loc[k]]
  {
    ControlledPresent(header);
    [IndexOf(header, ControlledFields[0]).value,
     IndexOf(header, ControlledFields[1]).value,
     IndexOf(header, ControlledFields[2]).value]
  }

  // ---------------------------------------------------------------------------
  // Null sentinels

  /** The empty string or any case variant of "null". */
  predicate IsNullSentinel(v: string) {
    v == "" || Lower(v) == "null"
  }

  /** The sentinels are exactly the empty string and the sixteen spellings of
      "null" with each letter in either case. */
  lemma NullSentinelSpellings(v: string)
    ensures IsNullSentinel(v) <==>
      v == "" || (|v| == 4 && v[0] in "nN" && v[1] in "uU" && v[2] in "lL" && v[3] in "lL")
  {
    if |v| == 4 && v[0] in "nN" && v[1] in "uU" && v[2] in "lL" && v[3] in "lL" {
      assert Lower(v) == "null" by {
        assert forall i :: 0 <= i < 4 ==> Lower(v)[i] == "null"[i];
      }
    }
    if Lower(v) == "null" {
      assert LowerChar(v[0]) == 'n' && LowerChar(v[1]) == 'u';
      assert LowerChar(v[2]) == 'l' && LowerChar(v[3]) == 'l';
    }
  }

  /** One cell after sentinel mapping. */
  function CleanCell(v: string): (c: Cell)
    ensures c.None? <==> IsNullSentinel(v)
    ensures c.Some? ==> c.value == v
  {
    if IsNullSentinel(v) then None else Some(v)
  }

  /** The row after sentinel mapping: same length; each sentinel becomes
      `None`, every other cell keeps its value and position. */
  function MapSentinels(row: seq<string>): (r: seq<Cell>)
    ensures |r| == |row|
    ensures forall i :: 0 <= i < |row| ==> (r[i].None? <==> IsNullSentinel(row[i]))
    ensures forall i :: 0 <= i < |row| && r[i].Some? ==> r[i].value == row[i]
  {
    seq(|row|, i requires 0 <= i < |row| => CleanCell(row[i]))
  }

  /** How the csv writer renders a cell: the absence marker as an empty field. */
  function Render(c: Cell): (v: string)
    ensures c.Some? ==> v == c.value
    ensures c.None? ==> v == ""
  {
    match c
    case None => ""
    case Some(v) => v
  }

  function RenderRow(cells: seq<Cell>): (r: seq<string>)
    ensures |r| == |cells|
    ensures forall i :: 0 <= i < |cells| ==> r[i] == Render(cells[i])
  {
    seq(|cells|, i requires 0 <= i < |cells| => Render(cells[i]))
  }

  /** Rendering a sentinel-mapped row and mapping it again gives the same cells:
      an absence marker is written as an empty field and read back as one. */
  lemma SentinelsRoundTrip(row: seq<string>)
    ensures MapSentinels(RenderRow(MapSentinels(row))) == MapSentinels(row)
  {
    var m := MapSentinels(row);
    forall i | 0 <= i < |row| ensures MapSentinels(RenderRow(m))[i] == m[i] {
      assert !IsNullSentinel(row[i]) ==> RenderRow(m)[i] == row[i];
    }
  }

  // ---------------------------------------------------------------------------
  // One data row

  /** `cells[i] = cells[i].lower()`: the cell at `i` lower-cased in place and the
      others untouched; an index past the end raises `IndexError`, an absent
      cell raises `AttributeError`. */
  function LowerCell(cells: seq<Cell>, i: nat): (r: Result<seq<Cell>, FaultKind>)
    ensures r.Err? <==> i >= |cells| || cells[i].None?
    ensures r.Err? ==> (r.error == RowTooShort <==> i >= |cells|)
    ensures r.Ok? ==> |r.value| == |cells| && r.value[i] == Some(Lower(cells[i].value))
    ensures r.Ok? ==> forall j :: 0 <= j < |cells| && j != i ==> r.value[j] == cells[j]
  {
    if i >= |cells| then Err(RowTooShort)
    else if cells[i].None? then Err(AbsentValue)
    else Ok(cells[i := Some(Lower(cells[i].value))])
  }

  /** The warning for controlled field `k` of a cleaned row, if its value is not allowed. */
  function FieldWarning(cells: seq<Cell>, loc: seq<nat>, vocab: seq<set<string>>, raw: seq<string>, k: nat): (w: seq<Warning>)
    requires |loc| == 3 && |vocab| == 3 && k < 3 && loc[k] < |cells| && cells[loc[k]].Some?
    ensures |w| <= 1
    ensures w != [] <==> cells[loc[k]].value !in vocab[k]
    ensures w != [] ==> w[0] == Warning(ControlledFields[k], cells[loc[k]].value, raw)
  {
    var v := cells[loc[k]].value;
    if v in vocab[k] then [] else [Warning(ControlledFields[k], v, raw)]
  }

  /** What cleaning one data row gives: its cleaned cells and its warnings, or
      the field that raised. */
  datatype RowResult =
    | Cleaned(cells: seq<Cell>, warnings: seq<Warning>)
    | Failed(field: string, kind: FaultKind)

  /** One data row, as the loop body does it: map the sentinels, lower-case
      the three controlled cells in order (stopping at the first that raises),
      then check the three values against their allow-lists. */
  function CleanRow(loc: seq<nat>, vocab: seq<set<string>>, raw: seq<string>): (r: RowResult)
    requires |loc| == 3 && |vocab| == 3
  {
    var c0 := MapSentinels(raw);
    match LowerCell(c0, loc[0])
    case Err(kind) => Failed(ControlledFields[0], kind)
    case Ok(c1) =>
      match LowerCell(c1, loc[1])
      case Err(kind) => Failed(ControlledFields[1], kind)
      case Ok(c2) =>
        match LowerCell(c2, loc[2])
        case Err(kind) => Failed(ControlledFields[2], kind)
        case Ok(c3) =>
          Cleaned(c3, FieldWarning(c3, loc, vocab, raw, 0) + FieldWarning(c3, loc, vocab, raw, 1)
                      + FieldWarning(c3, loc, vocab, raw, 2))
  }

  /** Controlled field `k` of `raw` cannot be lower-cased. */
  predicate Faulty(loc: seq<nat>, raw: seq<string>, k: nat)
    requires |loc| == 3 && k < 3
  {
    loc[k] >= |raw| || IsNullSentinel(raw[loc[k]])
  }

  /** A row fails exactly when one of its controlled cells is missing or a
      sentinel; the fault names the first such field in the order funding
      source, condition, designation, and its kind tells which of the two. */
  lemma CleanRowFails(loc: seq<nat>, vocab: seq<set<string>>, raw: seq<string>)
    requires ValidLocation(loc) && |vocab| == 3
    ensures CleanRow(loc, vocab, raw).Failed? <==> exists k :: 0 <= k < 3 && Faulty(loc, raw, k)
    ensures CleanRow(loc, vocab, raw).Failed? ==>
      exists k :: 0 <= k < 3 && Faulty(loc, raw, k) && (forall j :: 0 <= j < k ==> !Faulty(loc, raw, j))
        && CleanRow(loc, vocab, raw).field == ControlledFields[k]
        && (CleanRow(loc, vocab, raw).kind == RowTooShort <==> loc[k] >= |raw|)
  {
    var r := CleanRow(loc, vocab, raw);
    var c0 := MapSentinels(raw);
    var e0 := LowerCell(c0, loc[0]);
    if Faulty(loc, raw, 0) {
      assert r == Failed(ControlledFields[0], e0.error);
      assert r.kind == RowTooShort <==> loc[0] >= |raw|;
    } else {
      var c1 := e0.value;
      var e1 := LowerCell(c1, loc[1]);
      assert loc[1] < |raw| ==> c1[loc[1]] == c0[loc[1]];
      if Faulty(loc, raw, 1) {
        assert r == Failed(ControlledFields[1], e1.error);
        assert r.kind == RowTooShort <==> loc[1] >= |raw|;
      } else {
        var c2 := e1.value;
        var e2 := LowerCell(c2, loc[2]);
        assert loc[2] < |raw| ==> c2[loc[2]] == c1[loc[2]] == c0[loc[2]];
        if Faulty(loc, raw, 2) {
          assert r == Failed(ControlledFields[2], e2.error);
          assert r.kind == RowTooShort <==> loc[2] >= |raw|;
        } else {
          assert r.Cleaned?;
        }
      }
    }
  }

  /** A cleaned row has the raw row's length; each controlled cell holds the raw
      value lower-cased, and every other cell is the raw cell after sentinel
      mapping alone. The allow-lists play no part: a warning never alters a row. */
  lemma CleanRowCells(loc: seq<nat>, vocab: seq<set<string>>, raw: seq<string>)
    requires ValidLocation(loc) && |vocab| == 3 && CleanRow(loc, vocab, raw).Cleaned?
    ensures |CleanRow(loc, vocab, raw).cells| == |raw|
    ensures forall k :: 0 <= k < 3 ==>
      loc[k] < |raw| && CleanRow(loc, vocab, raw).cells[loc[k]] == Some(Lower(raw[loc[k]]))
    ensures forall j :: 0 <= j < |raw| && j !in loc ==> CleanRow(loc, vocab, raw).cells[j] == CleanCell(raw[j])
  {
    var c0 := MapSentinels(raw);
    var c1 := LowerCell(c0, loc[0]).value;
    var c2 := LowerCell(c1, loc[1]).value;
    var c3 := LowerCell(c2, loc[2]).value;
    assert c3[loc[0]] == c2[loc[0]] == c1[loc[0]];
    assert c3[loc[1]] == c2[loc[1]];
    assert c1[loc[1]] == c0[loc[1]] && c2[loc[2]] == c1[loc[2]] == c0[loc[2]];
  }

  /** Field `k` appears among the warnings. */
  predicate Warned(w: seq<Warning>, k: nat)
    requires k < 3
  {
    exists j :: 0 <= j < |w| && w[j].field == ControlledFields[k]
  }

  /** The position of a controlled field in the checking order. */
  function Rank(field: string): (n: nat) {
    if field == ControlledFields[0] then 0 else if field == ControlledFields[1] then 1 else 2
  }

  /** A cleaned row's warnings: one for each controlled field whose lower-cased
      value is not in its allow-list and none for the others, at most three, in
      the order funding source, condition, designation, each carrying the
      lower-cased value and the raw row. */
  lemma CleanRowWarnings(loc: seq<nat>, vocab: seq<set<string>>, raw: seq<string>)
    requires ValidLocation(loc) && |vocab| == 3 && CleanRow(loc, vocab, raw).Cleaned?
    ensures forall k :: 0 <= k < 3 ==> loc[k] < |raw|
    ensures forall k :: 0 <= k < 3 ==>
      (Warned(CleanRow(loc, vocab, raw).warnings, k) <==> Lower(raw[loc[k]]) !in vocab[k])
    ensures |CleanRow(loc, vocab, raw).warnings| <= 3
    ensures forall j :: 0 <= j < |CleanRow(loc, vocab, raw).warnings| ==>
      var w := CleanRow(loc, vocab, raw).warnings[j];
      exists k :: 0 <= k < 3 && w == Warning(ControlledFields[k], Lower(raw[loc[k]]), raw)
    ensures forall i, j :: 0 <= i < j < |CleanRow(loc, vocab, raw).warnings| ==>
      Rank(CleanRow(loc, vocab, raw).warnings[i].field) < Rank(CleanRow(loc, vocab, raw).warnings[j].field)
  {
    CleanRowCells(loc, vocab, raw);
    var c3 := CleanRow(loc, vocab, raw).cells;
    var w0, w1, w2 := FieldWarning(c3, loc, vocab, raw, 0), FieldWarning(c3, loc, vocab, raw, 1), FieldWarning(c3, loc, vocab, raw, 2);
    var w := CleanRow(loc, vocab, raw).warnings;
    assert w == w0 + w1 + w2;
    assert forall j :: 0 <= j < |w| ==>
      (j < |w0| && w[j] == w0[0]) || (|w0| <= j < |w0| + |w1| && w[j] == w1[0])
      || (|w0| + |w1| <= j && w[j] == w2[0]);
    assert Rank(ControlledFields[0]) == 0 && Rank(ControlledFields[1]) == 1 && Rank(ControlledFields[2]) == 2;
    forall k | 0 <= k < 3
      ensures Warned(w, k) <==> Lower(raw[loc[k]]) !in vocab[k]
    {
      var wk := FieldWarning(c3, loc, vocab, raw, k);
      if wk != [] {
        var j := if k == 0 then 0 else if k == 1 then |w0| else |w0| + |w1|;
        assert w[j] == wk[0];
      }
    }
  }

  /** Cleaning the written form of a cleaned row gives back the same cells:
      the pass is stable when rerun on its own output. */
  lemma CleanRowIdempotent(loc: seq<nat>, vocab: seq<set<string>>, raw: seq<string>)
    requires ValidLocation(loc) && |vocab| == 3 && CleanRow(loc, vocab, raw).Cleaned?
    ensures CleanRow(loc, vocab, RenderRow(CleanRow(loc, vocab, raw).cells)).Cleaned?
    ensures CleanRow(loc, vocab, RenderRow(CleanRow(loc, vocab, raw).cells)).cells == CleanRow(loc, vocab, raw).cells
  {
    var cells := CleanRow(loc, vocab, raw).cells;
    var again := RenderRow(cells);
    CleanRowCells(loc, vocab, raw);
    CleanRowFails(loc, vocab, raw);
    forall k | 0 <= k < 3 ensures !Faulty(loc, again, k) && Lower(again[loc[k]]) == Lower(raw[loc[k]]) {
      assert !Faulty(loc, raw, k);
      LowerIdempotent(raw[loc[k]]);
      assert again[loc[k]] == Lower(raw[loc[k]]);
    }
    CleanRowFails(loc, vocab, again);
    CleanRowCells(loc, vocab, again);
    forall j | 0 <= j < |raw| && j !in loc ensures CleanCell(again[j]) == cells[j] {
      if cells[j].Some? {
        assert again[j] == raw[j];
      }
    }
  }

  /** Rerunning on the written row warns about the same fields and values in the
      same order; only the raw row each warning carries is the written one. */
  lemma CleanRowIdempotentWarnings(loc: seq<nat>, vocab: seq<set<string>>, raw: seq<string>)
    requires ValidLocation(loc) && |vocab| == 3 && CleanRow(loc, vocab, raw).Cleaned?
    ensures var again := RenderRow(CleanRow(loc, vocab, raw).cells);
      var w, w' := CleanRow(loc, vocab, raw).warnings, CleanRow(loc, vocab, again).warnings;
      && CleanRow(loc, vocab, again).Cleaned?
      && |w'| == |w|
      && forall j :: 0 <= j < |w| ==> w'[j] == Warning(w[j].field, w[j].value, again)
  {
    CleanRowIdempotent(loc, vocab, raw);
    var c3 := CleanRow(loc, vocab, raw).cells;
    var again := RenderRow(c3);
    assert CleanRow(loc, vocab, again).cells == c3;
    var w := CleanRow(loc, vocab, raw).warnings;
    var w' := CleanRow(loc, vocab, again).warnings;
    assert w == FieldWarning(c3, loc, vocab, raw, 0) + FieldWarning(c3, loc, vocab, raw, 1) + FieldWarning(c3, loc, vocab, raw, 2);
    assert w' == FieldWarning(c3, loc, vocab, again, 0) + FieldWarning(c3, loc, vocab, again, 1) + FieldWarning(c3, loc, vocab, again, 2);
  }

  // ---------------------------------------------------------------------------
  // The data rows, one after another

  /** The state of the row loop: still running with what it emitted so far, or
      halted by a fault after emitting the rows before it. */
  datatype Progress =
    | Running(rows: seq<seq<Cell>>, warnings: seq<Warning>)
    | Halted(rows: seq<seq<Cell>>, warnings: seq<Warning>, fault: Fault)

  /** The row loop's state after the rows whose results are `results`, taken
      in order: the first failure halts it, and nothing after it is looked at. */
  function Fold(results: seq<RowResult>): (p: Progress)
    decreases |results|
  {
    if results == [] then Running([], [])
    else
      var n := |results| - 1;
      match Fold(results[..n])
      case Halted(rows, ws, f) => Halted(rows, ws, f)
      case Running(rows, ws) =>
        match results[n]
        case Failed(field, kind) => Halted(rows, ws, Fault(n, field, kind))
        case Cleaned(cells, w) => Running(rows + [cells], ws + w)
  }

  /** The warnings of a run of rows, concatenated in row order (a failed row has none). */
  function AllWarnings(results: seq<RowResult>): (w: seq<Warning>)
    decreases |results|
  {
    if results == [] then []
    else
      var last := results[|results| - 1];
      AllWarnings(results[..|results| - 1]) + (if last.Cleaned? then last.warnings else [])
  }

  /** The loop runs to the end exactly when every row cleans; then it holds one
      cleaned row per data row, in input order, and the rows' warnings in order. */
  lemma {:induction false} FoldRunning(results: seq<RowResult>)
    ensures Fold(results).Running? <==> forall i :: 0 <= i < |results| ==> results[i].Cleaned?
    ensures Fold(results).Running? ==>
      && |Fold(results).rows| == |results|
      && (forall i :: 0 <= i < |results| ==> Fold(results).rows[i] == results[i].cells)
      && Fold(results).warnings == AllWarnings(results)
    decreases |results|
  {
    if results != [] {
      var n := |results| - 1;
      var prefix := results[..n];
      FoldRunning(prefix);
      assert forall i :: 0 <= i < n ==> prefix[i] == results[i];
      if Fold(prefix).Running? && results[n].Cleaned? {
        assert forall i :: 0 <= i < |results| ==> results[i].Cleaned? by {
          forall i | 0 <= i < |results| ensures results[i].Cleaned? {
            if i < n { assert prefix[i].Cleaned?; }
          }
        }
      } else if Fold(prefix).Halted? {
        var i :| 0 <= i < n && !prefix[i].Cleaned?;
        assert !results[i].Cleaned?;
      }
    }
  }

  /** When the loop halts, the fault is at the first row that fails; the rows
      before it were all cleaned and emitted, in order, and nothing after it. */
  lemma {:induction false} FoldHalted(results: seq<RowResult>)
    requires Fold(results).Halted?
    ensures var p := Fold(results);
      && p.fault.row < |results|
      && results[p.fault.row] == Failed(p.fault.field, p.fault.kind)
      && (forall i :: 0 <= i < p.fault.row ==> results[i].Cleaned?)
      && |p.rows| == p.fault.row
      && (forall i :: 0 <= i < p.fault.row ==> p.rows[i] == results[i].cells)
      && p.warnings == AllWarnings(results[..p.fault.row])
    decreases |results|
  {
    var n := |results| - 1;
    var prefix := results[..n];
    assert forall i :: 0 <= i < n ==> prefix[i] == results[i];
    if Fold(prefix).Halted? {
      FoldHalted(prefix);
      assert prefix[..Fold(prefix).fault.row] == results[..Fold(prefix).fault.row];
    } else {
      FoldRunning(prefix);
    }
  }

  /** A failure among the first `r` results settles the outcome of the whole
      loop: the rows after it are never read. */
  lemma {:induction false} HaltedStaysHalted(results: seq<RowResult>, r: nat)
    requires r <= |results| && Fold(results[..r]).Halted?
    ensures Fold(results) == Fold(results[..r])
    decreases |results| - r
  {
    if r < |results| {
      assert results[..r + 1][..r] == results[..r];
      HaltedStaysHalted(results, r + 1);
    } else {
      assert results[..r] == results;
    }
  }

  /** The result of every data row on its own. */
  function CleanRows(loc: seq<nat>, vocab: seq<set<string>>, data: seq<seq<string>>): (rs: seq<RowResult>)
    requires |loc| == 3 && |vocab| == 3
    ensures |rs| == |data|
    ensures forall i :: 0 <= i < |data| ==> rs[i] == CleanRow(loc, vocab, data[i])
  {
    seq(|data|, i requires 0 <= i < |data| => CleanRow(loc, vocab, data[i]))
  }

  // ---------------------------------------------------------------------------
  // The whole pass

  /** What `clean_data` does, given whether the output file exists and the
      input as split rows, the first being the header. */
  function Clean(outputExists: bool, input: seq<seq<string>>): (out: Outcome)
    ensures out.Skipped? <==> outputExists
    ensures out.NoHeader? <==> !outputExists && input == []
  {
    if outputExists then Skipped
    else if input == [] then NoHeader
    else
      var header := NormalizeHeader(input[0]);
      match FirstMissing(ExpectedColumns, header)
      case Some(column) => MissingColumn(column)
      case None =>
        match Fold(CleanRows(Locate(header), AllowLists, input[1..]))
        case Running(rows, ws) => Done(header, rows, ws)
        case Halted(rows, ws, f) => Crashed(header, rows, ws, f)
  }

  /** The run reports a missing column exactly when the normalised header lacks
      an expected column, and the one reported is the first in schema order. */
  lemma CleanMissingColumn(input: seq<seq<string>>)
    requires input != []
    ensures Clean(false, input).MissingColumn? <==>
      exists i :: 0 <= i < |ExpectedColumns| && ExpectedColumns[i] !in NormalizeHeader(input[0])
    ensures Clean(false, input).MissingColumn? ==>
      exists i :: 0 <= i < |ExpectedColumns| && Clean(false, input).column == ExpectedColumns[i]
        && ExpectedColumns[i] !in NormalizeHeader(input[0])
        && forall j :: 0 <= j < i ==> ExpectedColumns[j] in NormalizeHeader(input[0])
  {
    var header := NormalizeHeader(input[0]);
    if FirstMissing(ExpectedColumns, header).Some? {
      FirstMissingIsFirst(ExpectedColumns, header);
    }
  }

  /** The written form of the cleaned rows. */
  function RenderRows(rows: seq<seq<Cell>>): (r: seq<seq<string>>)
    ensures |r| == |rows|
    ensures forall i :: 0 <= i < |rows| ==> r[i] == RenderRow(rows[i])
  {
    seq(|rows|, i requires 0 <= i < |rows| => RenderRow(rows[i]))
  }

  /** Once the schema check passes, the run completes exactly when every data
      row cleans; it then writes the normalised header and one cleaned row per
      data row, in input order, with the rows' warnings in row order. */
  lemma CleanDone(input: seq<seq<string>>)
    requires input != [] && HasExpectedColumns(NormalizeHeader(input[0]))
    ensures var header := NormalizeHeader(input[0]);
      var loc, data := Locate(header), input[1..];
      var out := Clean(false, input);
      && (out.Done? <==> forall i :: 0 <= i < |data| ==> CleanRow(loc, AllowLists, data[i]).Cleaned?)
      && (out.Done? ==>
           && out.header == header
           && |out.rows| == |data|
           && (forall i :: 0 <= i < |data| ==> out.rows[i] == CleanRow(loc, AllowLists, data[i]).cells)
           && out.warnings == AllWarnings(CleanRows(loc, AllowLists, data)))
      && (out.Done? || out.Crashed?)
  {
    var header := NormalizeHeader(input[0]);
    var results := CleanRows(Locate(header), AllowLists, input[1..]);
    var p := Fold(results);
    assert Clean(false, input) == if p.Running? then Done(header, p.rows, p.warnings)
                                  else Crashed(header, p.rows, p.warnings, p.fault);
    FoldRunning(results);
  }

  /** A run that crashes stops at the first data row that fails to clean. The
      header and every row before that one have been written; no later row is read. */
  lemma CleanCrashed(input: seq<seq<string>>)
    requires input != [] && HasExpectedColumns(NormalizeHeader(input[0]))
    requires Clean(false, input).Crashed?
    ensures var header := NormalizeHeader(input[0]);
      var loc, data := Locate(header), input[1..];
      var out := Clean(false, input);
      && out.header == header
      && out.fault.row < |data|
      && CleanRow(loc, AllowLists, data[out.fault.row]) == Failed(out.fault.field, out.fault.kind)
      && (forall i :: 0 <= i < out.fault.row ==> CleanRow(loc, AllowLists, data[i]).Cleaned?)
      && |out.rows| == out.fault.row
      && (forall i :: 0 <= i < out.fault.row ==> out.rows[i] == CleanRow(loc, AllowLists, data[i]).cells)
  {
    var header := NormalizeHeader(input[0]);
    var results := CleanRows(Locate(header), AllowLists, input[1..]);
    FoldHalted(results);
  }

  /** The warnings of a crashed run are those of the rows before the failing
      one, in row order: each of them was printed before the row was written. */
  lemma CleanCrashedWarnings(input: seq<seq<string>>)
    requires input != [] && HasExpectedColumns(NormalizeHeader(input[0]))
    requires Clean(false, input).Crashed?
    ensures var loc, data := Locate(NormalizeHeader(input[0])), input[1..];
      var out := Clean(false, input);
      && out.fault.row < |data|
      && out.warnings == AllWarnings(CleanRows(loc, AllowLists, data[..out.fault.row]))
  {
    var header := NormalizeHeader(input[0]);
    var loc, data := Locate(header), input[1..];
    var results := CleanRows(loc, AllowLists, data);
    var p := Fold(results);
    assert Clean(false, input) == Crashed(header, p.rows, p.warnings, p.fault);
    FoldHalted(results);
    assert CleanRows(loc, AllowLists, data[..p.fault.row]) == results[..p.fault.row];
  }

  /** How each way of ending shows in the outcome: the skip and the empty input
      are decided before anything else, a reported column is expected and absent,
      and a run that gets to the rows writes the normalised header and at most
      one row per data row (exactly one per data row when it completes). */
  lemma CleanShape(outputExists: bool, input: seq<seq<string>>)
    ensures var out := Clean(outputExists, input);
      && (out.Skipped? <==> outputExists)
      && (out.NoHeader? <==> !outputExists && input == [])
      && (out.MissingColumn? ==>
           input != [] && out.column in ExpectedColumns && out.column !in NormalizeHeader(input[0]))
      && (out.Done? || out.Crashed? ==>
           input != [] && out.header == NormalizeHeader(input[0]) && |out.rows| <= |input| - 1)
      && (out.Done? ==> |out.rows| == |input| - 1)
  {
    if !outputExists && input != [] {
      var header := NormalizeHeader(input[0]);
      if FirstMissing(ExpectedColumns, header).None? {
        var results := CleanRows(Locate(header), AllowLists, input[1..]);
        if Fold(results).Running? {
          FoldRunning(results);
        } else {
          FoldHalted(results);
        }
      }
    }
  }

  /** Running the cleaner on its own output (the written header followed by the
      written rows) completes again and writes the same header and rows. */
  lemma CleanIdempotent(input: seq<seq<string>>)
    requires Clean(false, input).Done?
    ensures var out := Clean(false, input);
      var again := Clean(false, [out.header] + RenderRows(out.rows));
      again.Done? && again.header == out.header && again.rows == out.rows
  {
    var header := NormalizeHeader(input[0]);
    assert HasExpectedColumns(header);
    var loc, data := Locate(header), input[1..];
    var out := Clean(false, input);
    CleanDone(input);
    var input' := [out.header] + RenderRows(out.rows);
    NormalizeHeaderIdempotent(input[0]);
    assert input'[0] == header;
    var data' := input'[1..];
    assert |data'| == |data|;
    forall i | 0 <= i < |data'|
      ensures CleanRow(loc, AllowLists, data'[i]).Cleaned?
      ensures CleanRow(loc, AllowLists, data'[i]).cells == out.rows[i]
    {
      CleanRowIdempotent(loc, AllowLists, data[i]);
    }
    CleanDone(input');
    var again := Clean(false, input');
    assert again.rows == out.rows;
  }
}
