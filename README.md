# filtro — a Dafny model of the attendance-log hourly pivot

`filtro.py` picks the most recently modified CSV export in its input folder, folds the
accented, mis-decoded column headers to ASCII, checks that the four columns it needs are
there, and writes a spreadsheet with one row per (station, user id, user name) identity and
24 hour-of-day columns counting that identity's log events, zero counts left blank. The
file is named after the day of the run, `Filtrada_DD-MM-YYYY.xlsx`.

This project models that pipeline from a given directory listing and an already parsed
table to the sheet the spreadsheet writer receives, and proves what each step promises.

- `wrappers.dfy`, `errors.dfy`: `Option`, `Result` and the two errors the script raises
  (`FileNotFoundError` as `NoCsvFile`, `KeyError` as `MissingColumn`).
- `headers.dfy` (module `Headers`): `normalize_column_names` as a method with the source's
  append loop. The NFKD decomposition of one code point is a parameter `decompose`; the
  only assumption made of it (`FixesAscii`) is that an ASCII character decomposes to
  itself. Applying it code point by code point and then filtering to ASCII gives the same
  result as full NFKD, because canonical reordering only moves combining marks, and no
  combining mark is ASCII.
- `locator.dfy` (module `Locator`): `get_latest_csv` as functions over a listing of
  `(name, mtime)` entries in directory order.
- `aggregation.dfy` (module `Aggregation`): the name fallback, `drop_duplicates` on the
  identity triples, the per-hour group counts, and the two hour loops. Those loops are one
  method that fills an `array2` cell by cell and then blanks the zeros in place.
- `writer.dfy` (module `Writer`): the numeric coercion of a column, the 27 output column
  names and the output file name.
- `process.dfy` (module `Process`): the `column_map` check loop, `process_csv_file` as a
  method proved equal to the specification function `Summary`, and `main` as `Run`.

Where one might expect otherwise, the model follows the code:

- The station column is looked up as the folded header `ESTAAAO` (filtro.py:38). This is
  what folding gives for the UTF-8 header "ESTAÇÃO" read as Latin-1; a correctly decoded
  "ESTAÇÃO" folds to `ESTACAO` and stops the run with `MissingColumn("ESTAAAO")`
  (`StationLookupIsMisreadFold`, `StationLookupIsNotDecodedFold`, `StationHeaderDecides`).
- Only names ending exactly in `.CSV` or `.csv` are candidates, not every case variant
  (a `.Csv` file is ignored). Names starting with `.` are never candidates, because `glob`
  skips hidden names.
- Among equally new candidates, the first in `.CSV`-then-`.csv` order, then listing order,
  is chosen (Python's `max` keeps the first maximum).

## Model

| member | source | states |
|---|---|---|
| `Headers.Decompose` | filtro.py:15 | decomposing an all-ASCII string changes nothing, given that ASCII characters decompose to themselves |
| `Headers.AsciiOnly` | filtro.py:15 | the result is all ASCII, no longer than the input, holds exactly the input's ASCII characters, and is the input itself when that is already ASCII |
| `Headers.Fold` | filtro.py:15 | a folded header is ASCII; an ASCII header folds to itself |
| `Headers.FoldIdempotent` | filtro.py:12-17 | folding a folded header changes nothing |
| `Headers.FoldedHeaders` | filtro.py:12-17 | one folded header per raw header, each ASCII; an all-ASCII header list comes back unchanged |
| `Headers.NormalizeColumnNames` | filtro.py:12-17 | the append loop returns `FoldedHeaders` of the input: one folded name per input header, in the same order; every name is ASCII; an all-ASCII header list comes back unchanged, so normalizing twice equals normalizing once |
| `Headers.FoldsDecodedStationHeader` | filtro.py:15 | "ESTAÇÃO" folds to "ESTACAO" under the NFKD decompositions of Ç and Ã |
| `Headers.FoldsMisreadStationHeader` | filtro.py:15 | the UTF-8 bytes of "ESTAÇÃO" read as Latin-1 fold to "ESTAAAO" |
| `Locator.Matching` | filtro.py:20 | holds exactly the listed entries that the pattern matches: the name ends in the extension and is not hidden |
| `Locator.MatchingAppend` | filtro.py:20 | the matches of a listing split in two are the matches of the first part followed by those of the second, so matches keep listing order |
| `Locator.MatchingOne` | filtro.py:20 | a single entry is kept exactly when it matches; with `MatchingAppend`, the matches are the matching entries in listing order |
| `Locator.Candidates` | filtro.py:20 | holds exactly the listed entries ending in `.CSV` or `.csv`, every `.CSV` match before every `.csv` match; within each group the matches keep listing order (`MatchingAppend`, `FirstListedHeadsCandidates`) |
| `Locator.FirstListedHeadsCandidates` | filtro.py:20 | a first-listed `.CSV` match, or a first-listed `.csv` match with no `.CSV` match after it, is the first candidate |
| `Locator.FirstLatest` | filtro.py:23 | an index whose mtime is at least every candidate's mtime, with every earlier candidate strictly older |
| `Locator.LatestCsv` | filtro.py:19-23 | fails with `NoCsvFile` exactly when there is no candidate; otherwise returns the name of the first candidate with the latest mtime |
| `Locator.FirstLatestUnique` | filtro.py:23 | the first-latest index is unique, so the choice is deterministic |
| `Locator.FirstListedWinsTie` | filtro.py:20-23 | among equally new candidates the first-listed one wins: such an entry listed first, as new as every candidate, is returned whatever follows it |
| `Locator.NewestIsChosen` | filtro.py:19-23 | a candidate strictly newer than every other candidate is returned, whatever the order of the names |
| `Aggregation.WithNameFallback` | filtro.py:44 | same number of rows; a null name becomes that row's user id, a present name is kept, and the other fields are untouched |
| `Aggregation.Distinct` | filtro.py:52 | holds exactly the values of the input, each once, ordered by first occurrence |
| `Aggregation.DistinctSize` | filtro.py:52 | the identity table is as long as the number of distinct triples |
| `Aggregation.ParsedCount` | filtro.py:58 | the rows of an identity whose date parsed are never more than its rows |
| `Aggregation.HourCount` | filtro.py:60-65 | the count of an (identity, hour) cell is at most the identity's rows with a parsed date |
| `Aggregation.HoursConserveRows` | filtro.py:58-66 | the 24 counts of an identity add up to its rows with a parsed date, so to at most its rows |
| `Aggregation.Blanked` | filtro.py:71 | a cell is blank exactly when the count is 0, and reads back as the count |
| `Aggregation.HourRow` | filtro.py:60-71 | 24 cells, each reading back as the identity's count for that hour |
| `Aggregation.HourRowConservesRows` | filtro.py:60-71 | the cells of an identity, with blanks read as 0, add up to its rows with a parsed date, so to at most its rows |
| `Aggregation.CountByHour` | filtro.py:60-71 | after the fill loop and the replace loop, the cell for identity i and hour h is blank exactly when the count is 0, and otherwise holds the count |
| `Writer.ToNumericOrKeep` | filtro.py:73-81 | the column becomes numeric exactly when every value converts, stays text if any one does not, and keeps its values |
| `Writer.TwoDigits` | filtro.py:50 | two decimal digits that spell the number, zero-padded |
| `Writer.Decimal` | filtro.py:83 | decimal digits without a leading zero that spell the number |
| `Writer.HourLabel` | filtro.py:50 | `HH:00-HH:59`, with HH the same two digits that spell the hour |
| `Writer.OutputHeader` | filtro.py:50 | ESTACAO, USUARIO, NOME USUARIO, then the label of each hour 0..23 in order |
| `Writer.HourLabelInjective` | filtro.py:50 | different hours have different labels |
| `Writer.OutputHeaderDistinct` | filtro.py:50 | the 27 column names are pairwise distinct, and column i from the fourth on is hour i - 3 |
| `Writer.OutputFileName` | filtro.py:83-84 | `Filtrada_` + day (two digits) + `-` + month (two digits) + `-` + year + `.xlsx`, each field reading back as its number |
| `Writer.OutputFileNameInjective` | filtro.py:83-84 | equal names mean the same date, so only a rerun on the same day overwrites |
| `Process.CheckColumns` | filtro.py:34-43 | no result exactly when all four looked-up headers are present; otherwise the first missing one in `column_map` order |
| `Process.ProcessCsvFile` | filtro.py:25-84 | fails with `MissingColumn` of the first missing looked-up header exactly when one is missing; otherwise returns exactly `Summary` of the rows |
| `Process.SummaryRowsAreIdentities` | filtro.py:52-56 | one output row per distinct identity after the fallback: none missing, none extra, none twice, in first-occurrence order, as many rows as distinct triples |
| `Process.SummaryCountsRows` | filtro.py:58-71 | each hour cell is blank exactly when its count is 0 and reads back as the count; each row's cells add up to that identity's rows with a parsed date, at most its rows |
| `Process.StationLookupIsMisreadFold` | filtro.py:38 | the station lookup is the folded form of UTF-8 "ESTAÇÃO" read as Latin-1 |
| `Process.StationLookupIsNotDecodedFold` | filtro.py:38 | the station lookup is not the folded form of a correctly decoded "ESTAÇÃO" |
| `Process.StationHeaderDecides` | filtro.py:38-43 | for any folded header list holding the other three looked-up headers, in any order and beside any other columns, the check passes exactly when "ESTAAAO" is among them, and otherwise the first missing entry is the station |
| `Process.ScenarioTwoEventsOneUnparsed` | filtro.py:44-71 | two nameless rows of user 7 at station A in hour 8 and one with an unparseable date give one identity named "7", 2 in hour 8, every other hour blank; this holds for text-valued columns, while with pandas' inferred types the name would read "7.0" (see `Aggregation.WithNameFallback` under Left out) |
| `Process.Run` | filtro.py:92-94 | no candidate file gives `NoCsvFile`; otherwise the result is the processing of the parsed latest file |

## Left out

- Reading the CSV (`pd.read_csv` with `;` and Latin-1, line 28) is a foreign parser. The
  model takes the raw header list and the rows as input, and `Run` takes the parser as
  a parameter.
- Run: the parser parameter always returns a table, so the errors `read_csv` can raise
  (an empty file, a malformed line) are not modelled.
- Row-level encoding: each row is a record holding the user id, the name (absent when
  the cell is empty), the station from the `ESTAAAO` column, and the parsed hour. The
  not-looked-up columns and a duplicated folded header are not modelled.
- `pd.to_datetime(errors='coerce')` (line 58) is a foreign date parser. Its result is taken
  as the hour 0..23 of the date, or none when the date does not parse.
- The Unicode NFKD tables (line 15) are not modelled: the decomposition is a parameter,
  assumed only to fix ASCII characters.
- Aggregation.WithNameFallback: the fallback is modelled on text values, so the filled name
  is the user id exactly. In the program `fillna` (line 44) runs before `astype(str)`
  (lines 46-47): when pandas reads the name column as float64 (for instance, every name
  empty) and the user id as int64, a missing name becomes `7.0` and is written as "7.0"
  beside the user id "7". The identity triple then differs from the model's, so the
  model does not capture a name that differs from the user id after the fallback.
- `astype(str)` (lines 46-48) is not modelled: the values are already text, so the
  rendering of a float such as `42.0` and of a null as `nan` is not covered. The grammar
  `pd.to_numeric` accepts (lines 74, 79) is an abstract predicate `isNumeric`. A converted
  column keeps its text.
- `pd.to_numeric(errors='coerce')` on the hour columns (line 70) leaves integer counts
  unchanged, so it is not modelled separately.
- The file system is not modelled: the directory constants (lines 6-10), `glob` (line 20)
  and `os.path.getmtime` (line 23). The model takes a listing of names and modification
  times in directory order. Times are integers, because they are only compared. The
  case-insensitive matching `glob` does on Windows is not modelled.
- The clock is not modelled (`pd.Timestamp.now()`, line 83). Day, month and year are
  parameters, and the year is written in plain decimal, as `%Y` does.
- Excel serialisation is not modelled (`ExcelWriter`, `to_excel`, lines 85-88). Neither is
  the output path, or any failure to write the file. The model stops at the sheet handed
  to the writer: its name, column names and columns.
- The console messages (lines 26, 32, 90) and the text of the exception messages (lines
  22, 43) are not modelled; the errors carry their kind and the missing column.
