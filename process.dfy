/** `process_csv_file` from the parsed table to the sheet handed to the spreadsheet writer:
    header folding, the required-column check, aggregation and the writer-side transforms. */
module Process {
  import opened Wrappers
  import opened Errors
  import opened Headers
  import opened Aggregation
  import opened Writer
  import Locator

  /** `column_map`, in insertion order: each logical column and the folded header looked up
      for it. The station is looked up as "ESTAAAO", the folded form of the UTF-8 header
      "ESTAÇÃO" read as Latin-1, not as "ESTACAO". */
  const ColumnMap: seq<(string, string)> :=
    [("NOME USUARIO", "NOME USUARIO"), ("USUARIO", "USUARIO"), ("DATA", "DATA"), ("ESTACAO", "ESTAAAO")]

  /** Every looked-up header is present. */
  predicate HasRequiredColumns(columns: seq<string>) {
    forall k :: 0 <= k < |ColumnMap| ==> ColumnMap[k].1 in columns
  }

  /** Entry `k` of the column map is the first whose header is absent. */
  predicate IsFirstMissing(columns: seq<string>, k: nat) {
    k < |ColumnMap| && ColumnMap[k].1 !in columns &&
    forall j :: 0 <= j < k ==> ColumnMap[j].1 in columns
  }

  /** The loop over `column_map.items()`: it reports the first looked-up header that is
      not among `columns`, or nothing when all are there. */
  method CheckColumns(columns: seq<string>) returns (missing: Option<string>)
    ensures missing.None? <==> HasRequiredColumns(columns)
    ensures missing.Some? ==> exists k: nat :: IsFirstMissing(columns, k) && missing.value == ColumnMap[k].1
  {
    var k := 0;
    while k < |ColumnMap|
      invariant 0 <= k <= |ColumnMap|
      invariant forall j :: 0 <= j < k ==> ColumnMap[j].1 in columns
    {
      if ColumnMap[k].1 !in columns {
        assert IsFirstMissing(columns, k);
        return Some(ColumnMap[k].1);
      }
      k := k + 1;
    }
    return None;
  }

  function Stations(ids: seq<Identity>): seq<string> {
    seq(|ids|, i requires 0 <= i < |ids| => ids[i].estacao)
  }

  function Users(ids: seq<Identity>): seq<string> {
    seq(|ids|, i requires 0 <= i < |ids| => ids[i].usuario)
  }

  function Names(ids: seq<Identity>): seq<string> {
    seq(|ids|, i requires 0 <= i < |ids| => ids[i].nome)
  }

  /** The identities of the rows after the name fallback, in first-occurrence order. */
  function IdentityTable(rows: seq<InputRow>): seq<Identity> {
    Distinct(Keys(WithNameFallback(rows)))
  }

  /** The sheet a successful run writes for `rows` on the given date. */
  function Summary(rows: seq<InputRow>, isNumeric: string -> bool, day: nat, month: nat, year: nat): Workbook
    requires 1 <= day <= 31 && 1 <= month <= 12
  {
    var table := WithNameFallback(rows);
    var ids := IdentityTable(rows);
    Workbook(
      OutputFileName(day, month, year), "Filtrada", OutputHeader(),
      ToNumericOrKeep(Stations(ids), isNumeric), ToNumericOrKeep(Users(ids), isNumeric), Names(ids),
      seq(|ids|, i requires 0 <= i < |ids| => HourRow(table, ids[i])))
  }

  /** The identity of output row `i`, read from its three identity columns. */
  function RowIdentity(w: Workbook, i: nat): Identity
    requires i < |w.nome| && i < |w.usuario.cells| && i < |w.estacao.cells|
  {
    Identity(w.usuario.cells[i], w.nome[i], w.estacao.cells[i])
  }

  /** `process_csv_file` after the file is parsed: fold the headers, fail with the first
      missing looked-up header, otherwise aggregate and build the sheet. */
  method ProcessCsvFile(rawColumns: seq<string>, decompose: char -> string, rows: seq<InputRow>,
                        isNumeric: string -> bool, day: nat, month: nat, year: nat)
    returns (r: Result<Workbook, Error>)
    requires 1 <= day <= 31 && 1 <= month <= 12
    ensures r.Success? <==> HasRequiredColumns(FoldedHeaders(decompose, rawColumns))
    ensures r.Failure? ==>
              exists k: nat :: IsFirstMissing(FoldedHeaders(decompose, rawColumns), k) &&
                               r.error == MissingColumn(ColumnMap[k].1)
    ensures r.Success? ==> r.value == Summary(rows, isNumeric, day, month, year)
  {
    var columns := NormalizeColumnNames(rawColumns, decompose);
    assert columns == FoldedHeaders(decompose, rawColumns);
    var missing := CheckColumns(columns);
    if missing.Some? {
      return Failure(MissingColumn(missing.value));
    }
    var table := WithNameFallback(rows);
    var ids := Distinct(Keys(table));
    var cells := CountByHour(table, ids);
    var hours := seq(|ids|, i requires 0 <= i < cells.Length0 reads cells =>
                   seq(24, h requires 0 <= h < cells.Length1 reads cells => cells[i, h]));
    assert forall i :: 0 <= i < |ids| ==> hours[i] == HourRow(table, ids[i]);
    var estacao := ToNumericOrKeep(Stations(ids), isNumeric);
    var usuario := ToNumericOrKeep(Users(ids), isNumeric);
    r := Success(Workbook(OutputFileName(day, month, year), "Filtrada", OutputHeader(),
                          estacao, usuario, Names(ids), hours));
  }

  /** One output row per distinct identity of the input (after the name fallback): every
      identity has a row, every row is an identity of the input, no two rows share one,
      and the rows follow the order in which the identities first occur. */
  lemma SummaryRowsAreIdentities(rows: seq<InputRow>, isNumeric: string -> bool, day: nat, month: nat, year: nat)
    requires 1 <= day <= 31 && 1 <= month <= 12
    ensures var w := Summary(rows, isNumeric, day, month, year);
            var keys := Keys(WithNameFallback(rows));
            |w.nome| == |w.usuario.cells| == |w.estacao.cells| == |w.hours| == |set t | t in keys| &&
            (forall t :: t in keys <==> exists i :: 0 <= i < |w.nome| && RowIdentity(w, i) == t) &&
            (forall i, j :: 0 <= i < j < |w.nome| ==> RowIdentity(w, i) != RowIdentity(w, j)) &&
            (forall i, j, k :: 0 <= i < j < |w.nome| && 0 <= k < |keys| && keys[k] == RowIdentity(w, j) ==>
                 RowIdentity(w, i) in keys[..k])
  {
    var w := Summary(rows, isNumeric, day, month, year);
    var keys := Keys(WithNameFallback(rows));
    var ids := IdentityTable(rows);
    DistinctSize(keys);
    assert forall i :: 0 <= i < |ids| ==> RowIdentity(w, i) == ids[i];
  }

  /** Every hour cell of output row `i` is blank exactly when that identity has no row in
      that hour, and otherwise holds the count; read back with blanks as zeros, the 24
      cells add up to the identity's rows whose date parsed, never more than its rows. */
  lemma SummaryCountsRows(rows: seq<InputRow>, isNumeric: string -> bool, day: nat, month: nat, year: nat)
    requires 1 <= day <= 31 && 1 <= month <= 12
    ensures var w := Summary(rows, isNumeric, day, month, year);
            var table := WithNameFallback(rows);
            forall i :: 0 <= i < |w.hours| ==>
              |w.hours[i]| == 24 &&
              (forall h :: 0 <= h < 24 ==>
                 (w.hours[i][h].None? <==> HourCount(table, RowIdentity(w, i), h) == 0) &&
                 Reread(w.hours[i][h]) == HourCount(table, RowIdentity(w, i), h)) &&
              SumCells(w.hours[i]) == ParsedCount(table, RowIdentity(w, i)) <= RowCount(table, RowIdentity(w, i))
  {
    var w := Summary(rows, isNumeric, day, month, year);
    var table := WithNameFallback(rows);
    var ids := IdentityTable(rows);
    forall i | 0 <= i < |w.hours|
      ensures SumCells(w.hours[i]) == ParsedCount(table, RowIdentity(w, i)) <= RowCount(table, RowIdentity(w, i))
    {
      assert RowIdentity(w, i) == ids[i];
      HourRowConservesRows(table, ids[i]);
    }
  }

  /** The station lookup "ESTAAAO" is what folding gives for the UTF-8 header "ESTAÇÃO"
      read as Latin-1. */
  lemma StationLookupIsMisreadFold(decompose: char -> string)
    requires FixesAscii(decompose)
    requires decompose('\U{00C3}') == "A\U{0303}"
    requires decompose('\U{0087}') == "\U{0087}"
    requires decompose('\U{0083}') == "\U{0083}"
    ensures ColumnMap[3].1 == Fold(decompose, MisreadStationHeader)
  {
    FoldsMisreadStationHeader(decompose);
  }

  /** The station lookup "ESTAAAO" is not what folding gives for "ESTAÇÃO" decoded
      correctly, which is "ESTACAO". */
  lemma StationLookupIsNotDecodedFold(decompose: char -> string)
    requires FixesAscii(decompose)
    requires decompose('\U{00C7}') == "C\U{0327}"
    requires decompose('\U{00C3}') == "A\U{0303}"
    ensures ColumnMap[3].1 != Fold(decompose, DecodedStationHeader)
  {
    assert ColumnMap[3].1 != "ESTACAO" by {
      assert ColumnMap[3].1[4] != "ESTACAO"[4];
    }
    FoldsDecodedStationHeader(decompose);
  }

  /** With the other three looked-up headers among the folded headers, in any order and
      beside any other columns, the run goes on exactly when "ESTAAAO" is among them too,
      and otherwise fails on it; so a correctly decoded "ESTAÇÃO" (folded "ESTACAO") in place
      of the misread one stops the run. */
  lemma StationHeaderDecides(cols: seq<string>)
    requires ColumnMap[0].1 in cols && ColumnMap[1].1 in cols && ColumnMap[2].1 in cols
    ensures HasRequiredColumns(cols) <==> ColumnMap[3].1 in cols
    ensures ColumnMap[3].1 !in cols ==> IsFirstMissing(cols, 3)
  {
  }

  /** Two rows of user 7 at station A in hour 8 and one whose date does not parse, none of
      them with a name: a single identity, named "7" by the fallback, whose row holds 2 in
      hour 8 and is blank in every other hour. */
  lemma ScenarioTwoEventsOneUnparsed()
    ensures var rows := [InputRow("7", None, "A", Some(8)), InputRow("7", None, "A", Some(8)),
                         InputRow("7", None, "A", None)];
            var t := Identity("7", "7", "A");
            IdentityTable(rows) == [t] &&
            HourRow(WithNameFallback(rows), t)[8] == Some(2) &&
            forall h :: 0 <= h < 24 && h != 8 ==> HourRow(WithNameFallback(rows), t)[h] == None
  {
    var rows := [InputRow("7", None, "A", Some(8)), InputRow("7", None, "A", Some(8)), InputRow("7", None, "A", None)];
    var t := Identity("7", "7", "A");
    var table := WithNameFallback(rows);
    var row8, rowNone := Row("7", "7", "A", Some(8)), Row("7", "7", "A", None);
    assert table == [row8, row8, rowNone];
    assert Keys(table) == [t, t, t];
    assert Distinct(Keys(table)) == [t] by {
      var keys := Keys(table);
      assert [t][..0] == [] && Distinct([t]) == [t];
      assert [t, t][..1] == [t] && Distinct([t, t]) == [t];
      assert keys[..2] == [t, t];
    }
    assert table[1..] == [row8, rowNone] && table[2..] == [rowNone] && table[3..] == [];
    forall h: Hour
      ensures HourCount(table, t, h) == if h == 8 then 2 else 0
    {
      assert HourCount(table[2..], t, h) == 0;
    }
  }

  /** `main`: pick the latest CSV of the listing, parse it with `parse` (the CSV reader,
      which is not modelled) and process it; a missing file stops the run before any
      parsing. */
  method Run(listing: seq<Locator.Entry>, parse: string -> (seq<string>, seq<InputRow>),
             decompose: char -> string, isNumeric: string -> bool, day: nat, month: nat, year: nat)
    returns (r: Result<Workbook, Error>)
    requires 1 <= day <= 31 && 1 <= month <= 12
    ensures Locator.LatestCsv(listing).Failure? ==> r == Failure(NoCsvFile)
    ensures Locator.LatestCsv(listing).Success? ==>
              var (raw, rows) := parse(Locator.LatestCsv(listing).value);
              (r.Success? <==> HasRequiredColumns(FoldedHeaders(decompose, raw))) &&
              (r.Success? ==> r.value == Summary(rows, isNumeric, day, month, year)) &&
              (r.Failure? ==> exists k: nat :: IsFirstMissing(FoldedHeaders(decompose, raw), k) &&
                                               r.error == MissingColumn(ColumnMap[k].1))
  {
    var latest := Locator.LatestCsv(listing);
    if latest.Failure? {
      return Failure(latest.error);
    }
    var (raw, rows) := parse(latest.value);
    r := ProcessCsvFile(raw, decompose, rows, isNumeric, day, month, year);
  }
}
