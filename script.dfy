/** The `__main__` block of `data/data_loader.py`: create the table, report
    the latest stored date, then refresh every listed instrument for the
    window yesterday..today. "Today" is a parameter; so are the instrument
    listing and the data provider. */
module Script {
  import opened Results
  import opened Text
  import opened Calendar
  import opened Store
  import opened Sync
  import opened Watermark

  /** Lines 81-82: the window actually used, yesterday..today as `YYYYMMDD`. */
  function RefreshWindow(today: Date): (r: Result<Window, Crash>)
    requires InDatetimeRange(today)
    ensures r.Err? <==> today == Date(1, 1, 1)
    ensures r.Ok? ==> ParseCompact(r.value.start) == Some(Pred(today))
                      && ParseCompact(r.value.end) == Some(today)
                      && Succ(Pred(today)) == today
                      && LexLess(r.value.start, r.value.end)
  {
    if today == Date(1, 1, 1) then Err(NoPreviousDay)
    else
      var y := Pred(today);
      ParseCompactOfCompactText(y);
      ParseCompactOfCompactText(today);
      SuccPredInverse(today);
      OrdinalOrder(y, today);
      CompactTextOrder(y, today);
      Ok(Window(CompactText(y), CompactText(today)))
  }

  /** Line 10's default start: the same day five years earlier, which
      `replace(year=...)` refuses when that day does not exist. */
  function DefaultStart(today: Date): (r: Result<string, Crash>)
    requires InDatetimeRange(today)
    ensures r.Err? <==> today.year <= 5 || (today.month == 2 && today.day == 29)
    ensures r.Ok? ==> ParseCompact(r.value) == Some(Date(today.year - 5, today.month, today.day))
  {
    var d := Date(today.year - 5, today.month, today.day);
    if !Valid(d) then Err(InvalidYear)
    else
      ParseCompactOfCompactText(d);
      Ok(CompactText(d))
  }

  /** What the latest-date report computes. */
  datatype Report = Report(ratio: real, lagging: seq<Latest>, latestDate: string)

  /** What a run that gets through the main block leaves behind. */
  datatype Summary = Summary(report: Report, window: Window, written: nat, failed: nat)

  /** Lines 60-72: the report, or the exception that stops the script. */
  function LatestReport(q: seq<Latest>): (r: Result<Report, Crash>)
    ensures r.Ok? <==> q != [] && NextStart(GlobalMax(q)).Ok?
    ensures r.Err? ==> (r.error == ZeroDivision <==> q == [])
    ensures r.Ok? ==> 0.0 < r.value.ratio <= 1.0
                      && r.value.lagging == Behind(q, GlobalMax(q))
                      && ParseCompact(r.value.latestDate) == Some(Succ(ParseIso(GlobalMax(q)).value))
  {
    match UpToDateRatio(q)
    case Err(e) => Err(e)
    case Ok(ratio) =>
      var g := GlobalMax(q);
      match NextStart(g)
      case Err(e) => Err(e)
      case Ok(next) => Ok(Report(ratio, Behind(q, g), next))
  }

  /** The module, then its main block. Defining `load_stock_data` evaluates
      the default of its `start_date` (line 10) before anything else, so a
      day whose five-years-earlier twin does not exist stops the script
      before the database is touched. Then the main block runs. `q` is the
      grouped query's result on the table as it stands after the creation
      statement. The report's next start date is computed and then dropped:
      the refresh always asks for yesterday..today, whatever the table
      holds. */
  method RunScript(db: Db, q: seq<Latest>, codes: seq<string>, names: seq<string>, fetch: Provider, today: Date)
    returns (db': Db, r: Result<Summary, Crash>)
    requires InDatetimeRange(today)
    requires IsGroupMax(CreateTable(db).stock.value, q)
    requires |codes| == |names|
    ensures DefaultStart(today).Err? ==> db' == db && r == Err(InvalidYear)
    ensures DefaultStart(today).Ok? && r.Err? ==> db' == CreateTable(db)
    ensures r == Err(ZeroDivision) <==> DefaultStart(today).Ok? && CreateTable(db).stock.value == map[]
    ensures r.Ok? <==> DefaultStart(today).Ok? && LatestReport(q).Ok?
    ensures r.Ok? ==>
              var run := Run(CreateTable(db).stock.value, Zip(codes, names), fetch, r.value.window);
              && r.value.report == LatestReport(q).value
              && r.value.window == RefreshWindow(today).value
              && db'.stock == Some(run.table)
              && r.value.written == CountWritten(run.log)
              && r.value.written + r.value.failed == |codes|
  {
    if DefaultStart(today).Err? {
      return db, Err(InvalidYear);
    }
    db' := CreateTable(db);
    var t := db'.stock.value;
    NoGroupsIffEmpty(t, q);
    assert q == [] <==> t == map[];
    var report := LatestReport(q);
    if report.Err? {
      return db', Err(report.error);
    }
    assert t != map[];
    // A day without a yesterday has a year below 6, so it already stopped
    // the script at line 10.
    var window := RefreshWindow(today);
    assert window.Ok?;
    var t', written, failed := LoadStockData(codes, names, window.value, fetch, t);
    db' := Db(Some(t'));
    r := Ok(Summary(report.value, window.value, written, failed));
  }
}
