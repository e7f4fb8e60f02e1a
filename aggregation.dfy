/** The aggregation of `process_csv_file`: name fallback, the table of distinct identities
    in first-occurrence order, and the 24-hour count table filled cell by cell. */
module Aggregation {
  import opened Wrappers

  /** An hour of the day, as `.dt.hour` yields it. */
  type Hour = h: int | 0 <= h < 24

  /** A parsed input row: `USUARIO`, `NOME USUARIO` (None when the cell is empty),
      the station read from the `ESTAAAO` column, and the hour of `DATA` after
      `pd.to_datetime(errors='coerce')` (None when the date does not parse). */
  datatype InputRow = InputRow(usuario: string, nome: Option<string>, estacao: string, data: Option<Hour>)

  /** A row after the name fallback: every row has a name. */
  datatype Row = Row(usuario: string, nome: string, estacao: string, data: Option<Hour>)

  /** The deduplication and grouping key. */
  datatype Identity = Identity(usuario: string, nome: string, estacao: string)

  function FillName(row: InputRow): Row {
    match row.nome
    case Some(n) => Row(row.usuario, n, row.estacao, row.data)
    case None => Row(row.usuario, row.usuario, row.estacao, row.data)
  }

  /** `fillna(df['USUARIO'])` on the name column: an empty name becomes the row's own user
      id, a present name is kept, and nothing else in any row changes. */
  function WithNameFallback(rows: seq<InputRow>): (r: seq<Row>)
    ensures |r| == |rows|
    ensures forall i :: 0 <= i < |rows| ==>
              r[i].usuario == rows[i].usuario && r[i].estacao == rows[i].estacao && r[i].data == rows[i].data
    ensures forall i :: 0 <= i < |rows| && rows[i].nome.Some? ==> r[i].nome == rows[i].nome.value
    ensures forall i :: 0 <= i < |rows| && rows[i].nome.None? ==> r[i].nome == rows[i].usuario
  {
    seq(|rows|, i requires 0 <= i < |rows| => FillName(rows[i]))
  }

  function Key(row: Row): Identity {
    Identity(row.usuario, row.nome, row.estacao)
  }

  /** The identity column triple of every row, row by row. */
  function Keys(rows: seq<Row>): seq<Identity>
  {
    seq(|rows|, i requires 0 <= i < |rows| => Key(rows[i]))
  }

  predicate NoDuplicates<T(==)>(s: seq<T>) {
    forall i, j :: 0 <= i < j < |s| ==> s[i] != s[j]
  }

  /** `drop_duplicates()`: each value of `s` once, in the order of its first occurrence. */
  function Distinct<T(==,!new)>(s: seq<T>): (r: seq<T>)
    ensures forall x :: x in r <==> x in s
    ensures NoDuplicates(r)
    ensures forall i, j, k :: 0 <= i < j < |r| && 0 <= k < |s| && s[k] == r[j] ==> r[i] in s[..k]
  {
    if s == [] then []
    else
      var init, last := s[..|s| - 1], s[|s| - 1];
      var d := Distinct(init);
      assert forall k :: 0 <= k < |init| ==> init[k] == s[k] && init[..k] == s[..k];
      assert s == init + [last];
      if last in d then d else d + [last]
  }

  /** The table of distinct identities has one entry per distinct triple. */
  lemma {:induction false} DistinctSize<T(!new)>(s: seq<T>)
    ensures |Distinct(s)| == |set x | x in s|
  {
    if s != [] {
      var init, last := s[..|s| - 1], s[|s| - 1];
      DistinctSize(init);
      assert s == init + [last];
      assert (set x | x in s) == (set x | x in init) + {last};
      if last !in init {
        assert last !in (set x | x in init);
      }
    }
  }

  /** The number of rows with identity `t`. */
  function RowCount(rows: seq<Row>, t: Identity): nat {
    if rows == [] then 0 else (if Key(rows[0]) == t then 1 else 0) + RowCount(rows[1..], t)
  }

  /** The number of rows with identity `t` whose date parsed. */
  function ParsedCount(rows: seq<Row>, t: Identity): (n: nat)
    ensures n <= RowCount(rows, t)
  {
    if rows == [] then 0
    else (if Key(rows[0]) == t && rows[0].data.Some? then 1 else 0) + ParsedCount(rows[1..], t)
  }

  /** The size of group `t` in `df[df['DATA'].dt.hour == h].groupby(...)`: the rows with
      identity `t` whose parsed hour is `h`; an unparseable date is in no hour. */
  function HourCount(rows: seq<Row>, t: Identity, h: Hour): (n: nat)
    ensures n <= ParsedCount(rows, t)
  {
    if rows == [] then 0
    else (if Key(rows[0]) == t && rows[0].data == Some(h) then 1 else 0) + HourCount(rows[1..], t, h)
  }

  /** The counts of `t` for the hours before `n`, added up. */
  function HourTotal(rows: seq<Row>, t: Identity, n: nat): nat
    requires n <= 24
  {
    if n == 0 then 0 else HourTotal(rows, t, n - 1) + HourCount(rows, t, n - 1)
  }

  /** The rows with identity `t` whose parsed hour is before `n`. */
  function ParsedBefore(rows: seq<Row>, t: Identity, n: nat): nat {
    if rows == [] then 0
    else (if Key(rows[0]) == t && rows[0].data.Some? && rows[0].data.value < n then 1 else 0)
         + ParsedBefore(rows[1..], t, n)
  }

  lemma {:induction false} ParsedBeforeStep(rows: seq<Row>, t: Identity, n: nat)
    requires n < 24
    ensures ParsedBefore(rows, t, n + 1) == ParsedBefore(rows, t, n) + HourCount(rows, t, n)
  {
    if rows != [] {
      ParsedBeforeStep(rows[1..], t, n);
    }
  }

  lemma {:induction false} ParsedBeforeAll(rows: seq<Row>, t: Identity)
    ensures ParsedBefore(rows, t, 24) == ParsedCount(rows, t)
  {
    if rows != [] {
      ParsedBeforeAll(rows[1..], t);
    }
  }

  lemma {:induction false} HourTotalIsParsedBefore(rows: seq<Row>, t: Identity, n: nat)
    requires n <= 24
    ensures HourTotal(rows, t, n) == ParsedBefore(rows, t, n)
  {
    if n == 0 {
      ParsedBeforeNone(rows, t);
    } else {
      HourTotalIsParsedBefore(rows, t, n - 1);
      ParsedBeforeStep(rows, t, n - 1);
    }
  }

  lemma {:induction false} ParsedBeforeNone(rows: seq<Row>, t: Identity)
    ensures ParsedBefore(rows, t, 0) == 0
  {
    if rows != [] {
      ParsedBeforeNone(rows[1..], t);
    }
  }

  /** Count conservation: the 24 hourly counts of an identity add up to the number of its
      rows whose date parsed, and so to at most the number of its rows. */
  lemma HoursConserveRows(rows: seq<Row>, t: Identity)
    ensures HourTotal(rows, t, 24) == ParsedCount(rows, t)
    ensures HourTotal(rows, t, 24) <= RowCount(rows, t)
  {
    HourTotalIsParsedBefore(rows, t, 24);
    ParsedBeforeAll(rows, t);
  }

  /** `replace(0, pd.NA)`: a zero count becomes a blank cell; a blank cell reads back as zero. */
  function Blanked(n: nat): (c: Option<nat>)
    ensures c.None? <==> n == 0
    ensures Reread(c) == n
  {
    if n == 0 then None else Some(n)
  }

  /** The count a consumer reads from a cell: a blank cell means zero. */
  function Reread(c: Option<nat>): nat {
    match c
    case None => 0
    case Some(n) => n
  }

  /** The hour cells of the output row for identity `t`. */
  function HourRow(rows: seq<Row>, t: Identity): (r: seq<Option<nat>>)
    ensures |r| == 24
    ensures forall h :: 0 <= h < 24 ==> Reread(r[h]) == HourCount(rows, t, h)
  {
    seq(24, h requires 0 <= h < 24 => Blanked(HourCount(rows, t, h)))
  }

  /** The counts a consumer reads back from a row of cells, added up. */
  function SumCells(cells: seq<Option<nat>>): nat {
    if cells == [] then 0 else SumCells(cells[..|cells| - 1]) + Reread(cells[|cells| - 1])
  }

  lemma {:induction false} SumCellsHourRow(rows: seq<Row>, t: Identity, n: nat)
    requires n <= 24
    ensures SumCells(HourRow(rows, t)[..n]) == HourTotal(rows, t, n)
  {
    if n > 0 {
      SumCellsHourRow(rows, t, n - 1);
      assert HourRow(rows, t)[..n][..n - 1] == HourRow(rows, t)[..n - 1];
    }
  }

  /** The hour cells of an identity, read back with blanks as zeros, add up to the number
      of its rows whose date parsed. */
  lemma HourRowConservesRows(rows: seq<Row>, t: Identity)
    ensures SumCells(HourRow(rows, t)) == ParsedCount(rows, t)
    ensures SumCells(HourRow(rows, t)) <= RowCount(rows, t)
  {
    SumCellsHourRow(rows, t, 24);
    assert HourRow(rows, t)[..24] == HourRow(rows, t);
    HoursConserveRows(rows, t);
  }

  /** The two hour loops: the first writes the count of every (identity, hour) cell, hour by
      hour, into a table whose cells start out missing; the second replaces each zero by a
      blank. Afterwards a cell is blank exactly when its count is zero and otherwise holds it. */
  method CountByHour(rows: seq<Row>, ids: seq<Identity>) returns (cells: array2<Option<nat>>)
    ensures fresh(cells)
    ensures cells.Length0 == |ids| && cells.Length1 == 24
    ensures forall i, h :: 0 <= i < |ids| && 0 <= h < 24 ==> cells[i, h] == Blanked(HourCount(rows, ids[i], h))
  {
    cells := new Option<nat>[|ids|, 24]((i, h) => None);
    for hour := 0 to 24
      invariant forall i, h :: 0 <= i < |ids| && 0 <= h < hour ==> cells[i, h] == Some(HourCount(rows, ids[i], h))
    {
      for idx := 0 to |ids|
        invariant forall i, h :: 0 <= i < |ids| && 0 <= h < hour ==> cells[i, h] == Some(HourCount(rows, ids[i], h))
        invariant forall i :: 0 <= i < idx ==> cells[i, hour] == Some(HourCount(rows, ids[i], hour))
      {
        cells[idx, hour] := Some(HourCount(rows, ids[idx], hour));
      }
    }
    for hour := 0 to 24
      invariant forall i, h :: 0 <= i < |ids| && 0 <= h < hour ==> cells[i, h] == Blanked(HourCount(rows, ids[i], h))
      invariant forall i, h :: 0 <= i < |ids| && hour <= h < 24 ==> cells[i, h] == Some(HourCount(rows, ids[i], h))
    {
      for idx := 0 to |ids|
        invariant forall i, h :: 0 <= i < |ids| && 0 <= h < hour ==> cells[i, h] == Blanked(HourCount(rows, ids[i], h))
        invariant forall i, h :: 0 <= i < |ids| && hour < h < 24 ==> cells[i, h] == Some(HourCount(rows, ids[i], h))
        invariant forall i :: 0 <= i < idx ==> cells[i, hour] == Blanked(HourCount(rows, ids[i], hour))
        invariant forall i :: idx <= i < |ids| ==> cells[i, hour] == Some(HourCount(rows, ids[i], hour))
      {
        if cells[idx, hour] == Some(0) {
          cells[idx, hour] := None;
        }
      }
    }
  }
}
