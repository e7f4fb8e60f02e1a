/** The writer side of `process_csv_file`: the fixed output header, the all-or-nothing
    numeric coercion of the station and user columns, and the dated output file name. */
module Writer {
  import opened Wrappers

  /** A column after `pd.to_numeric` was tried on it: converted as a whole, or left as text.
      The cells keep their text; how a number is rendered is not modelled. */
  datatype Column = Text(cells: seq<string>) | Numeric(cells: seq<string>)

  /** The sheet as `to_excel` receives it, column by column. */
  datatype Workbook = Workbook(
    fileName: string,
    sheetName: string,
    header: seq<string>,
    estacao: Column,
    usuario: Column,
    nome: seq<string>,
    hours: seq<seq<Option<nat>>>)

  /** `try: col = pd.to_numeric(col) except ValueError: pass`: the column becomes numeric
      exactly when every one of its values converts (so an empty column does), and its
      values are kept either way. */
  function ToNumericOrKeep(cells: seq<string>, isNumeric: string -> bool): (c: Column)
    ensures c.cells == cells
    ensures c.Numeric? <==> forall i :: 0 <= i < |cells| ==> isNumeric(cells[i])
    ensures (exists i :: 0 <= i < |cells| && !isNumeric(cells[i])) ==> c == Text(cells)
  {
    if forall i :: 0 <= i < |cells| ==> isNumeric(cells[i]) then Numeric(cells) else Text(cells)
  }

  predicate IsDigit(c: char) {
    '0' <= c <= '9'
  }

  predicate AllDigits(s: string) {
    forall i :: 0 <= i < |s| ==> IsDigit(s[i])
  }

  /** The number a string of decimal digits spells. */
  function DecimalValue(s: string): int {
    if s == [] then 0 else 10 * DecimalValue(s[..|s| - 1]) + (s[|s| - 1] as int - '0' as int)
  }

  function DigitChar(d: nat): (c: char)
    requires d < 10
    ensures IsDigit(c) && c as int - '0' as int == d
  {
    ('0' as int + d) as char
  }

  /** `{n:02}` and `%d`, `%m`: two digits, zero-padded, that spell `n`. */
  function TwoDigits(n: nat): (s: string)
    requires n < 100
    ensures |s| == 2 && AllDigits(s) && DecimalValue(s) == n
  {
    var s := [DigitChar(n / 10), DigitChar(n % 10)];
    assert s[..1] == [DigitChar(n / 10)] && s[..1][..0] == [];
    assert DecimalValue(s[..1]) == n / 10;
    s
  }

  /** `%Y`: the decimal digits of `n`, without leading zeros. */
  function Decimal(n: nat): (s: string)
    ensures s != [] && AllDigits(s) && DecimalValue(s) == n
    ensures |s| > 1 ==> s[0] != '0'
  {
    if n < 10 then [DigitChar(n)]
    else
      var s := Decimal(n / 10) + [DigitChar(n % 10)];
      assert s[..|s| - 1] == Decimal(n / 10);
      s
  }

  /** The label `f"{hour:02}:00-{hour:02}:59"` of hour column `h`. */
  function HourLabel(h: nat): (s: string)
    requires h < 24
    ensures |s| == 11 && AllDigits(s[..2]) && DecimalValue(s[..2]) == h
    ensures s[2..6] == ":00-" && s[6..8] == s[..2] && s[8..] == ":59"
  {
    var hh := TwoDigits(h);
    var s := hh + ":00-" + hh + ":59";
    assert s[..2] == hh && s[6..8] == hh;
    s
  }

  const IdentityHeader: seq<string> := ["ESTACAO", "USUARIO", "NOME USUARIO"]

  /** The columns of `filtered_df`: the three identity columns, then one column per hour. */
  function OutputHeader(): (hdr: seq<string>)
    ensures |hdr| == 27 && hdr[..3] == IdentityHeader
    ensures forall h :: 0 <= h < 24 ==> hdr[3 + h] == HourLabel(h)
  {
    IdentityHeader + seq(24, h requires 0 <= h < 24 => HourLabel(h))
  }

  /** Hour labels name their hours: different hours get different labels. */
  lemma HourLabelInjective(h1: nat, h2: nat)
    requires h1 < 24 && h2 < 24 && HourLabel(h1) == HourLabel(h2)
    ensures h1 == h2
  {
    assert HourLabel(h1)[..2] == HourLabel(h2)[..2];
  }

  /** The 27 output column names are pairwise distinct, and column `i` from the fourth on
      is the column of hour `i - 3`, so the hour columns run from 00 to 23 in order. */
  lemma OutputHeaderDistinct()
    ensures forall i, j :: 0 <= i < j < |OutputHeader()| ==> OutputHeader()[i] != OutputHeader()[j]
    ensures forall i :: 3 <= i < 27 ==> DecimalValue(OutputHeader()[i][..2]) == i - 3
  {
    var hdr := OutputHeader();
    forall i, j | 0 <= i < j < |hdr|
      ensures hdr[i] != hdr[j]
    {
      if 3 <= i {
        if hdr[i] == hdr[j] {
          HourLabelInjective(i - 3, j - 3);
        }
      } else {
        assert hdr[i] == IdentityHeader[i];
        assert !IsDigit(hdr[i][0]);
        if 3 <= j {
          assert IsDigit(hdr[j][0]);
        }
      }
    }
  }

  /** `f'Filtrada_{date_str}.xlsx'` with `date_str = strftime('%d-%m-%Y')`. */
  function OutputFileName(day: nat, month: nat, year: nat): (name: string)
    requires 1 <= day <= 31 && 1 <= month <= 12
    ensures |name| >= 20
    ensures name[..9] == "Filtrada_" && name[|name| - 5..] == ".xlsx"
    ensures name[11] == '-' && name[14] == '-'
    ensures AllDigits(name[9..11]) && DecimalValue(name[9..11]) == day
    ensures AllDigits(name[12..14]) && DecimalValue(name[12..14]) == month
    ensures AllDigits(name[15..|name| - 5]) && DecimalValue(name[15..|name| - 5]) == year
  {
    var dd, mm, yyyy := TwoDigits(day), TwoDigits(month), Decimal(year);
    var name := "Filtrada_" + dd + "-" + mm + "-" + yyyy + ".xlsx";
    assert name[9..11] == dd && name[12..14] == mm && name[15..|name| - 5] == yyyy;
    name
  }

  /** Two runs on different calendar days write files of different names; two runs on the
      same day write the same name, so the second overwrites the first. */
  lemma OutputFileNameInjective(d1: nat, m1: nat, y1: nat, d2: nat, m2: nat, y2: nat)
    requires 1 <= d1 <= 31 && 1 <= m1 <= 12 && 1 <= d2 <= 31 && 1 <= m2 <= 12
    requires OutputFileName(d1, m1, y1) == OutputFileName(d2, m2, y2)
    ensures d1 == d2 && m1 == m2 && y1 == y2
  {
    var n := OutputFileName(d1, m1, y1);
    assert n[9..11] == OutputFileName(d2, m2, y2)[9..11];
  }
}
