# Conservation-site CSV cleaner, modelled in Dafny

`clean_data` in `main.py` reads a CSV of conservation sites and writes a cleaned copy.
It does nothing when the output file already exists. It normalises the header
(strip, then lower-case) and checks the header against eight expected columns,
returning at the first one that is missing. For each data row it then:

- turns the null sentinels (`""` and any case variant of `"null"`) into `None`;
- lower-cases the `funding_source`, `condition` and `designation` cells in place;
- prints a warning for each of those values that is outside its allow-list;
- writes the row.

The model has three modules:

- `PyStr` (`pystr.dfy`): ASCII models of `str.lower()` and `str.strip()`. Their
  meaning is stated as properties, for example `IsStripOf`, and `Strip` is proved
  to be the only string with that meaning.
- `Cleaning` (`cleaning.dfy`): the data model, as a set of pure functions.
  - `Cell = Option<string>`, where `None` is the absence marker.
  - `Warning(field, value, rawRow)` is one printed warning.
  - `Outcome` is one of `Skipped`, `NoHeader`, `MissingColumn`, `Done` and
    `Crashed`. A crash carries whatever was already written before the raising
    row.
  - Each step of the pass is a function, and `Clean` is the whole pass. The
    lemmas state the properties of the pass.
- `Driver` (`driver.dfy`): the function as the program runs it.
  - The schema loop with its early return.
  - The row loop that appends rows and warnings one row at a time. Its loop
    invariant ties the processed prefix to `Cleaning.Fold` over the per-row
    function `Cleaning.CleanRow`.
  - The in-place lower-casing of the three controlled cells.

  `CleanData` is proved to compute `Cleaning.Clean`.

The model follows the code wherever a written description of the program
disagrees with it:

- A controlled cell that is a null sentinel becomes `None`, and line 40, 41 or 42
  then calls `.lower()` on `None`. So an absent controlled value stops the run
  with an `AttributeError` (outcome `Crashed`, fault kind `AbsentValue`). It is
  not exempt from lower-casing, and it never reaches the vocabulary check: the
  row raises first, so it yields neither a warning nor a written row.
- The schema loop returns at the first missing column, so only that column is
  reported. The other missing columns are not listed.
- A data row too short for a controlled index raises `IndexError`
  (fault kind `RowTooShort`).
- Rows are not checked against the header's length. A data row of any length
  passes as long as the three controlled indices fall inside it, and its cleaned
  row keeps the raw row's length (`Cleaning.CleanRowCells`), so a written row
  need not have the header's column count. A length mismatch is fatal only when
  it leaves a controlled index outside the row.
- An input with no row at all makes `next(reader)` raise (outcome `NoHeader`).
  Nothing is written in that case, because the output is opened only after the
  schema check.

The three allow-lists are local constants of `clean_data`. The per-row function
takes them as a parameter `vocab`, and `Clean` binds it to `AllowLists`.

## Model

| member | source | states |
|---|---|---|
| PyStr.LowerChar | main.py:17 | lower-casing a character leaves no upper-case letter, changes only 'A'..'Z' (by +32), and keeps whitespace whitespace |
| PyStr.Lower | main.py:34 | `str.lower()` keeps the length, lower-cases each character in place, and leaves no upper-case letter |
| PyStr.LowerIdempotent | main.py:40-42 | lower-casing an already lower-cased value changes nothing |
| PyStr.LowerFixedPoints | main.py:17 | a string is unchanged by lower-casing exactly when it has no upper-case letter |
| PyStr.LowerKeepsNoOuterSpace | main.py:17 | lower-casing a stripped name leaves it stripped |
| PyStr.Strip | main.py:17 | `str.strip()` returns a substring whose prefix and suffix in the input are all whitespace, and which neither starts nor ends with whitespace |
| PyStr.StripUnique | main.py:17 | at most one string meets that description, so the property defines the result of `strip` |
| PyStr.StripNoOuterSpace | main.py:17 | stripping a string without outer whitespace returns it unchanged |
| PyStr.StripIdempotent | main.py:17 | stripping twice is stripping once |
| Cleaning.NormalizeName | main.py:17 | a normalised header name has no upper-case letter and no outer whitespace |
| Cleaning.NormalizeHeader | main.py:17 | the normalised header has the input header's length, and entry i is entry i stripped and then lower-cased |
| Cleaning.NormalizeNameIdempotent | main.py:17 | normalising a normalised name gives the same name |
| Cleaning.NormalizeHeaderIdempotent | main.py:17-30 | the written header normalises to itself |
| Cleaning.FirstMissing | main.py:22-25 | it returns None exactly when every expected column is in the header; otherwise it returns an expected column that is absent |
| Cleaning.FirstMissingIsFirst | main.py:22-25 | the reported column is absent and every column before it in the expected order is present |
| Cleaning.FirstMissingAt | main.py:22-25 | when column i is the first absent one, column i is the one reported |
| Cleaning.IndexOf | main.py:37-39 | `header.index(name)` is None exactly when the name is absent; otherwise it is a position holding the name with no earlier occurrence |
| Cleaning.ControlledPresent | main.py:20-39 | a header that passed the schema check contains all three controlled field names |
| Cleaning.Locate | main.py:37-39 | after the schema check, the three controlled indices are distinct, each within the header, and each is the first occurrence of its field's name |
| Cleaning.NullSentinelSpellings | main.py:34 | a value is a null sentinel exactly when it is "" or one of the 16 case spellings of "null" |
| Cleaning.CleanCell | main.py:34 | a cell becomes None exactly when its value is a sentinel (`IsNullSentinel`: empty, or "null" once lower-cased, the test of line 34), and otherwise keeps its value |
| Cleaning.MapSentinels | main.py:34 | the mapped row keeps the row's length; sentinels become None, and every other cell keeps its value and position |
| Cleaning.Render | main.py:54 | the csv writer writes None as an empty field and a value as itself |
| Cleaning.RenderRow | main.py:54 | a written row has one field per cell, in order |
| Cleaning.SentinelsRoundTrip | main.py:34-54 | writing a sentinel-mapped row and mapping it again gives the same cells |
| Cleaning.LowerCell | main.py:40-42 | the in-place lower-casing raises exactly when the index is past the end (IndexError) or the cell is None (AttributeError); otherwise that cell is lower-cased and every other cell is unchanged |
| Cleaning.FieldWarning | main.py:45-51 | a controlled field yields at most one warning, exactly when its value is not in its allow-list; the warning carries the field, the lower-cased value and the raw row |
| Cleaning.CleanRow | main.py:33-51 | the loop body on one row: map the sentinels, lower-case the three controlled cells in order, stopping at the first that raises, then warn about each value outside its allow-list. It has no contract of its own; `CleanRowFails`, `CleanRowCells` and `CleanRowWarnings` state what it means |
| Cleaning.CleanRowFails | main.py:34-42 | a row fails exactly when a controlled cell is past the row's end or is a sentinel; the fault names the first such field in the order funding source, condition, designation, with RowTooShort exactly when the row is too short |
| Cleaning.CleanRowCells | main.py:34-42 | a cleaned row has the raw row's length; each controlled cell is the raw value lower-cased; every other cell is the raw cell after sentinel mapping only, whatever the warnings |
| Cleaning.CleanRowWarnings | main.py:45-51 | field k is warned about exactly when its lower-cased value is not in its allow-list; a row has at most 3 warnings, in field order, each carrying the lower-cased value and the raw row |
| Cleaning.CleanRowIdempotent | main.py:34-54 | cleaning the written form of a cleaned row succeeds and gives the same cells |
| Cleaning.CleanRowIdempotentWarnings | main.py:45-51 | cleaning the written row again warns about the same fields and values, in the same order |
| Cleaning.Fold | main.py:32-54 | the row loop over the per-row results, halting at the first failure. It has no contract of its own; `FoldRunning`, `FoldHalted` and `HaltedStaysHalted` state what it means, with `AllWarnings` the warnings in row order |
| Cleaning.FoldRunning | main.py:32-54 | the row loop runs to the end exactly when every row cleans; it then holds one cleaned row per data row, in order, and the rows' warnings in order |
| Cleaning.FoldHalted | main.py:32-54 | a halted loop stops at the first row that fails; it holds exactly the cleaned rows before that row, in order, and those rows' warnings in row order |
| Cleaning.HaltedStaysHalted | main.py:32-54 | once a row has raised, the rows after it do not change the outcome |
| Cleaning.CleanRows | main.py:32-54 | the per-row results are the data rows cleaned one by one, in order |
| Cleaning.Clean | main.py:7-54 | the whole of `clean_data`; its own contract says the call is skipped exactly when the output exists and has no header exactly when the input is empty. `CleanShape`, `CleanMissingColumn`, `CleanDone`, `CleanCrashed` and `CleanCrashedWarnings` state the rest |
| Cleaning.CleanMissingColumn | main.py:20-25 | the run reports a missing column exactly when some expected column is absent from the normalised header, and the one reported is the first absent one in the expected order |
| Cleaning.RenderRows | main.py:54 | the written rows are the cleaned rows rendered one by one, in order |
| Cleaning.CleanDone | main.py:28-54 | after the schema check the run either completes or crashes; it completes exactly when every data row cleans, and then writes the normalised header, one cleaned row per data row in input order, and every row's warnings in row order |
| Cleaning.CleanCrashed | main.py:28-54 | a crash is at the first row that fails, with that row's field and fault kind; the header and the cleaned rows before that row were written |
| Cleaning.CleanCrashedWarnings | main.py:32-54 | the warnings of a crashed run are exactly those of the data rows before the failing row, in row order |
| Cleaning.CleanShape | main.py:12-54 | the call is skipped exactly when the output exists; it stops with no header exactly when the input is empty; a reported column is expected and absent; a run that reaches the rows writes the normalised header and at most one row per data row, exactly one per row when it completes |
| Cleaning.CleanIdempotent | main.py:17-54 | running the cleaner on its own completed output completes again with the same header and rows |
| Driver.CleanData | main.py:7-54 | the method's outcome is `Cleaning.Clean` of its inputs |
| Driver.FindMissing | main.py:22-25 | the schema loop returns the first expected column missing from the header, or None |
| Driver.CleanAllRows | main.py:32-54 | the row loop yields `Cleaning.Fold` of the per-row results of the data rows |
| Driver.CleanOneRow | main.py:33-51 | the loop body with its in-place lower-casing gives `Cleaning.CleanRow` of the row |
| Driver.StopAt | main.py:32-54 | a failure at row r after a clean prefix decides the whole loop's result |

## Left out

- File I/O. `os.path.exists` is the boolean `outputExists`, and the reader is the given sequence of rows. Opening, closing and flushing files and the `__main__` call are not modelled.
- CSV tokenising and quoting by the `csv` reader and writer. Rows arrive already split into cells. A written row is modelled as its cells, with None rendered as the empty field.
- The text of the printed messages and the Python repr of the raw row. Warnings are structured values. The missing-column message is the `MissingColumn` outcome.
- Full Unicode `str.lower()` and `str.strip()`. Only ASCII case and ASCII whitespace are modelled.
- The encoding, statistics and chart steps. main.py:5 is only a comment, and no such code exists in `main.py`.
- The exceptions themselves. A raised `IndexError` or `AttributeError` is the `Crashed` outcome, and a `StopIteration` from `next(reader)` is `NoHeader`. The interpreter's traceback and unwinding are not modelled.
