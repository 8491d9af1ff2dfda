/** main(): the date-range guard, loading, the precipitation fill and running
    total, the display dates, and the summary total, as one pure function of
    the picked dates, the service's response text and the CSV reader. */
module App {
  import opened Wrappers
  import opened Faults
  import opened Text
  import opened Calendar
  import opened Tables
  import opened Payload
  import opened Rainfall

  const PrecipColumn: string := "PRECTOTCORR"
  const YearColumn: string := "YEAR"
  const MonthColumn: string := "MO"
  const DayColumn: string := "DY"
  const DateColumnName: string := "DATE"

  /** A cell of the DATE column shown in the table: a date rendered by the
      script, or a DATE cell the CSV already carried. */
  datatype DateLabel = Formatted(text: string) | Carried(cell: Cell)

  /** What the page shows: the DATE, PRECTOTCORR and Chuva_Acum columns and
      the total of the period. */
  datatype Report = Report(dates: seq<DateLabel>, precip: seq<real>, cumulative: seq<real>, total: real)

  datatype Outcome =
    | Rejected                 // start after end: an error message, nothing loaded
    | Crashed(fault: Fault)    // an exception stops the script
    | Shown(report: Report)

  /** The display date of one row: str() of each cell, zfill(2) on month
      and day, pd.to_datetime, strftime('%d/%m/%Y'). None where
      pd.to_datetime raises. */
  function RowDate(y: Cell, m: Cell, d: Cell): (r: Option<string>)
    ensures !(y.Int? && m.Int? && d.Int?) ==> r.None?
  {
    if y.Int? && m.Int? && d.Int? then
      match ParseIso(IsoText(y.i, m.i, d.i))
      case Some(dt) => Some(DisplayText(dt))
      case None => None
    else None
  }

  /** The cells of a row spell a date pd.to_datetime reads from the text
      line 54 builds: three integers forming a real calendar date with a
      four-digit year. */
  predicate IsDateRow(y: Cell, m: Cell, d: Cell) {
    y.Int? && m.Int? && d.Int? && 1000 <= y.i && Valid(Date(y.i, m.i, d.i))
  }

  /** A row gets a display date exactly when its cells are a real date with
      a four-digit year, and that display date is "DD/MM/YYYY" of it. */
  lemma RowDateSpec(y: Cell, m: Cell, d: Cell)
    ensures RowDate(y, m, d)
      == if IsDateRow(y, m, d) then Some(DisplayText(Date(y.i, m.i, d.i))) else None
  {
    if y.Int? && m.Int? && d.Int? {
      IsoRoundTrip(y.i, m.i, d.i);
    }
  }

  /** YEAR=2023, MO=4, DY=1 is shown as 01/04/2023. */
  lemma RowDateExample()
    ensures RowDate(Int(2023), Int(4), Int(1)) == Some("01/04/2023")
  {
    var dt := Date(2023, 4, 1);
    assert Valid(dt) && 1000 <= dt.year;
    RowDateSpec(Int(2023), Int(4), Int(1));
    DisplayExample();
    assert DisplayText(dt) == "01/04/2023";
  }

  /** pd.to_datetime over the whole column: it succeeds exactly when every
      row spells a real date with a four-digit year, and then row i is shown
      as that date in "DD/MM/YYYY" form. */
  function DeriveDates(ys: seq<Cell>, ms: seq<Cell>, ds: seq<Cell>): (r: Option<seq<string>>)
    requires |ys| == |ms| == |ds|
    ensures r.Some? <==> forall i :: 0 <= i < |ys| ==> IsDateRow(ys[i], ms[i], ds[i])
    ensures r.Some? ==> |r.value| == |ys|
    ensures r.Some? ==> forall i :: 0 <= i < |ys| ==>
      IsDateRow(ys[i], ms[i], ds[i]) && r.value[i] == DisplayText(Date(ys[i].i, ms[i].i, ds[i].i))
  {
    assert forall i :: 0 <= i < |ys| ==>
      RowDate(ys[i], ms[i], ds[i])
        == if IsDateRow(ys[i], ms[i], ds[i]) then Some(DisplayText(Date(ys[i].i, ms[i].i, ds[i].i))) else None
    by {
      forall i | 0 <= i < |ys|
        ensures RowDate(ys[i], ms[i], ds[i])
          == if IsDateRow(ys[i], ms[i], ds[i]) then Some(DisplayText(Date(ys[i].i, ms[i].i, ds[i].i))) else None
      {
        RowDateSpec(ys[i], ms[i], ds[i]);
      }
    }
    if forall i :: 0 <= i < |ys| ==> RowDate(ys[i], ms[i], ds[i]).Some? then
      Some(seq(|ys|, i requires 0 <= i < |ys| => RowDate(ys[i], ms[i], ds[i]).value))
    else None
  }

  /** The test at line 53: YEAR, MO and DY can all be selected from the table. */
  function HasDateParts(t: Table): (b: bool)
    ensures b <==> Column(t, YearColumn).Some? && Column(t, MonthColumn).Some? && Column(t, DayColumn).Some?
  {
    YearColumn in t.columns && MonthColumn in t.columns && DayColumn in t.columns
  }

  /** The DATE column the table at line 61 selects. With YEAR, MO and DY it
      is derived from them; without, line 57 reports an error and line 61
      then needs a DATE column the CSV itself supplied, shown as it is. */
  function DateColumn(t: Table): (r: Result<seq<DateLabel>, Fault>)
    ensures r.Ok? ==> |r.value| == |t.rows|
    ensures !HasDateParts(t) ==>
      && (r.Ok? <==> DateColumnName in t.columns)
      && (r.Err? ==> r.error == MissingColumn(DateColumnName))
      && forall k :: 0 <= k < |t.columns| && t.columns[k] == DateColumnName ==>
           r.Ok? && forall i :: 0 <= i < |t.rows| ==> r.value[i] == Carried(t.rows[i][k])
    ensures HasDateParts(t) ==>
      var ys, ms, ds := Column(t, YearColumn).value, Column(t, MonthColumn).value, Column(t, DayColumn).value;
      && (r.Ok? <==> forall i :: 0 <= i < |t.rows| ==> IsDateRow(ys[i], ms[i], ds[i]))
      && (r.Err? ==> r.error == BadDate)
      && (r.Ok? ==> forall i :: 0 <= i < |t.rows| ==>
            IsDateRow(ys[i], ms[i], ds[i])
            && r.value[i] == Formatted(DisplayText(Date(ys[i].i, ms[i].i, ds[i].i))))
  {
    if HasDateParts(t) then
      var ys, ms, ds := Column(t, YearColumn).value, Column(t, MonthColumn).value, Column(t, DayColumn).value;
      match DeriveDates(ys, ms, ds)
      case None => Err(BadDate)
      case Some(texts) => Ok(seq(|texts|, i requires 0 <= i < |texts| => Formatted(texts[i])))
    else
      match Column(t, DateColumnName)
      case None => Err(MissingColumn(DateColumnName))
      case Some(col) => Ok(seq(|col|, i requires 0 <= i < |col| => Carried(col[i])))
  }

  /** One run of main() for the picked dates, the response text the service
      returned and the CSV reader. */
  function Main(start: Date, end: Date, response: string, readCsv: string -> Option<Table>): (o: Outcome)
    ensures o.Rejected? <==> Before(end, start)
    ensures InRange(start, end) && !Contains(response, Marker) ==> o == Crashed(MissingMarker)
    ensures o.Shown? ==>
      var rep := o.report;
      && |rep.precip| > 0
      && |rep.cumulative| == |rep.precip| && |rep.dates| == |rep.precip|
      && (forall i :: 0 <= i < |rep.precip| ==> rep.cumulative[i] == Sum(rep.precip[..i + 1]))
      && rep.total == Sum(rep.precip)
  {
    if !InRange(start, end) then Rejected
    else match LoadData(response, readCsv)
      case Err(f) => Crashed(f)
      case Ok(t) =>
        match Column(t, PrecipColumn)
        case None => Crashed(MissingColumn(PrecipColumn))
        case Some(col) =>
          var p := Fill(col);
          var c := CumSum(p);
          match DateColumn(t)
          case Err(f) => Crashed(f)
          case Ok(dates) =>
            match Last(c)
            case None => Crashed(EmptyTable)
            case Some(total) =>
              TotalIsSum(p);
              Shown(Report(dates, p, c, total))
  }

  /** The outcome of main() for an accepted date range whose response has a
      header marker, in terms of the table t it loads: an unreadable body
      raises; otherwise, with PRECTOTCORR present, a DATE failure raises that
      failure, an empty table raises at iloc[-1], and a non-empty one is
      shown with t's DATE labels, the filled precipitation, its running
      total and its sum. */
  lemma MainOutcome(start: Date, end: Date, response: string, readCsv: string -> Option<Table>)
    requires InRange(start, end) && Contains(response, Marker)
    ensures var o := Main(start, end, response, readCsv);
      LoadData(response, readCsv).Err? ==> o == Crashed(UnreadableCsv)
    ensures var o := Main(start, end, response, readCsv);
      LoadData(response, readCsv).Ok? ==>
        var t := LoadData(response, readCsv).value;
        && (PrecipColumn !in t.columns ==> o == Crashed(MissingColumn(PrecipColumn)))
        && (PrecipColumn in t.columns ==>
              var p := Fill(Column(t, PrecipColumn).value);
              && (DateColumn(t).Err? ==> o == Crashed(DateColumn(t).error))
              && (DateColumn(t).Ok? && |t.rows| == 0 ==> o == Crashed(EmptyTable))
              && (DateColumn(t).Ok? && |t.rows| > 0 ==>
                    o == Shown(Report(DateColumn(t).value, p, CumSum(p), Sum(p)))))
  {
    if LoadData(response, readCsv).Ok? {
      var t := LoadData(response, readCsv).value;
      if PrecipColumn in t.columns {
        TotalIsSum(Fill(Column(t, PrecipColumn).value));
      }
    }
  }

  /** What main() does with the precipitation column of the table read from
      the response body: without the column it raises; otherwise every row
      keeps its amount, a sentinel or missing amount counts as 0, and the
      page is shown only for a non-empty table. */
  lemma MainPrecipitation(start: Date, end: Date, response: string, readCsv: string -> Option<Table>)
    requires InRange(start, end) && Contains(response, Marker)
    requires ExtractBody(response).value != "" && readCsv(ExtractBody(response).value).Some?
    ensures var t := readCsv(ExtractBody(response).value).value;
      var o := Main(start, end, response, readCsv);
      && (PrecipColumn !in t.columns ==> o == Crashed(MissingColumn(PrecipColumn)))
      && (o.Shown? ==> |t.rows| > 0)
      && (o.Shown? ==> forall k :: 0 <= k < |t.columns| && t.columns[k] == PrecipColumn ==>
            |o.report.precip| == |t.rows|
            && forall i :: 0 <= i < |t.rows| ==>
                 o.report.precip[i] == if IsSentinel(t.rows[i][k]) then 0.0 else FillCell(t.rows[i][k]))
  {
    var t := readCsv(ExtractBody(response).value).value;
    var st := Scrub(t);
    ColumnOfScrub(t, PrecipColumn);
    assert LoadData(response, readCsv) == Ok(st);
  }
}
