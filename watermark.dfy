/** The "latest date" report of the script's main block.

    The query
      SELECT MAX(日期) AS 日期, 股票代码, MAX(日期) OVER () AS 最新日期
      FROM stock GROUP BY 股票代码
    yields one row per code holding that code's latest stored date, and beside
    it the latest date over all codes. Its rows are an input here, in whatever
    order SQLite returns them, tied to the table by `IsGroupMax`; the window
    column is computed by `GlobalMax`. From these rows the script takes the
    share of codes that are up to date, the codes that lag, and the day after
    the latest date as `YYYYMMDD` text. */
module Watermark {
  import opened Results
  import opened Text
  import opened Calendar
  import opened Store

  /** One row of the grouped query: a code and its latest stored date. */
  datatype Latest = Latest(date: string, code: string)

  /** The exceptions that stop the main block. */
  datatype Crash =
    | ZeroDivision       // `len(df_date)` is 0
    | DateUnparsable     // `pd.to_datetime` cannot read the text
    | DateOutOfBounds    // the date lies outside what a pandas Timestamp holds
    | DateOverflow       // adding one day leaves that range
    | NoPreviousDay      // `datetime.today() - timedelta(days=1)` below year 1
    | InvalidYear        // `replace(year=...)` names a day that does not exist

  /** `q` is what the grouped query returns on table `t`: one row per stored
      code, carrying a stored date of that code that no other stored date of
      that code exceeds. */
  ghost predicate IsGroupMax(t: Table, q: seq<Latest>)
  {
    && (forall i :: 0 <= i < |q| ==> Key(q[i].date, q[i].code) in t)
    && (forall i, k :: 0 <= i < |q| && k in t && k.code == q[i].code ==> LexLe(k.date, q[i].date))
    && (forall k :: k in t ==> exists i :: 0 <= i < |q| && q[i].code == k.code)
    && (forall i, j :: 0 <= i < j < |q| ==> q[i].code != q[j].code)
  }

  lemma RaiseBound(q: seq<Latest>, m: string, g: string)
    requires forall i :: 0 <= i < |q| ==> LexLe(q[i].date, m)
    requires LexLe(m, g)
    ensures forall i :: 0 <= i < |q| ==> LexLe(q[i].date, g)
  {
    forall i | 0 <= i < |q|
      ensures LexLe(q[i].date, g)
    {
      LexLeTransitive(q[i].date, m, g);
    }
  }

  /** `MAX(日期) OVER ()`: the greatest date among the rows, in SQLite's
      text order. */
  function GlobalMax(q: seq<Latest>): (g: string)
    requires q != []
    ensures exists i :: 0 <= i < |q| && q[i].date == g
    ensures forall i :: 0 <= i < |q| ==> LexLe(q[i].date, g)
    decreases |q|
  {
    if |q| == 1 then q[0].date
    else
      var m := GlobalMax(q[1..]);
      assert forall i :: 1 <= i < |q| ==> q[i] == q[1..][i - 1];
      LexTotal(q[0].date, m);
      if LexLess(q[0].date, m) then
        m
      else
        RaiseBound(q[1..], m, q[0].date);
        q[0].date
  }

  /** `df_date[df_date['日期'] != df_date['最新日期']]`: the rows that lag. */
  function Behind(q: seq<Latest>, g: string): (r: seq<Latest>)
    ensures |r| <= |q|
    ensures forall x :: x in r <==> x in q && x.date != g
  {
    if q == [] then []
    else (if q[0].date != g then [q[0]] else []) + Behind(q[1..], g)
  }

  /** `df_date[df_date['日期'] == df_date['最新日期']]`: the rows that are up
      to date. */
  function AtMark(q: seq<Latest>, g: string): (r: seq<Latest>)
    ensures |r| <= |q|
    ensures forall x :: x in r <==> x in q && x.date == g
  {
    if q == [] then []
    else (if q[0].date == g then [q[0]] else []) + AtMark(q[1..], g)
  }

  /** Every row is either behind or up to date, never both. */
  lemma {:induction false} SplitCounts(q: seq<Latest>, g: string)
    ensures |Behind(q, g)| + |AtMark(q, g)| == |q|
  {
    if q != [] {
      SplitCounts(q[1..], g);
    }
  }

  /** Line 68's ratio: the share of codes whose latest date is the global
      latest date. With no rows it divides by zero. */
  function UpToDateRatio(q: seq<Latest>): (r: Result<real, Crash>)
    ensures r.Err? <==> q == []
    ensures r.Err? ==> r.error == ZeroDivision
    ensures r.Ok? ==> 0.0 < r.value <= 1.0
    ensures r.Ok? ==> (r.value == 1.0 <==> Behind(q, GlobalMax(q)) == [])
  {
    if |q| == 0 then Err(ZeroDivision)
    else
      var g := GlobalMax(q);
      var i :| 0 <= i < |q| && q[i].date == g;
      assert q[i] in AtMark(q, g);
      SplitCounts(q, g);
      var up, all := |AtMark(q, g)|, |q|;
      assert up == all <==> Behind(q, g) == [];
      FractionBounds(up, all);
      Ok(up as real / all as real)
  }

  lemma FractionBounds(up: nat, all: nat)
    requires 0 < up <= all
    ensures 0.0 < up as real / all as real <= 1.0
    ensures up as real / all as real == 1.0 <==> up == all
  {
    var x := up as real / all as real;
    assert x * (all as real) == up as real;
  }

  /** Line 71: parse the latest date, add one day, write it as `YYYYMMDD`. */
  function NextStart(g: string): (r: Result<string, Crash>)
    ensures r.Ok? <==> ParseIso(g).Some? && InTimestampRange(ParseIso(g).value)
                       && Before(ParseIso(g).value, TimestampLast)
    ensures r.Ok? ==> ParseCompact(r.value) == Some(Succ(ParseIso(g).value))
  {
    match ParseIso(g)
    case None => Err(DateUnparsable)
    case Some(d) =>
      if !InTimestampRange(d) then Err(DateOutOfBounds)
      else
        var n := Succ(d);
        OrdinalOrder(n, TimestampLast);
        OrdinalOrder(d, TimestampLast);
        OrdinalOrder(TimestampFirst, d);
        OrdinalOrder(TimestampFirst, n);
        if !InTimestampRange(n) then Err(DateOverflow)
        else
          ParseCompactOfCompactText(n);
          Ok(CompactText(n))
  }

  // ---------------------------------------------------------------------
  // What the report says about the table.

  /** The grouped query has no rows exactly when the table is empty, so the
      ratio divides by zero exactly on an empty table. */
  lemma NoGroupsIffEmpty(t: Table, q: seq<Latest>)
    requires IsGroupMax(t, q)
    ensures q == [] <==> t == map[]
  {
    if t != map[] {
      var k :| k in t;
    }
    if q != [] {
      assert Key(q[0].date, q[0].code) in t;
    }
  }

  /** The window column holds the latest date stored for any code. */
  lemma GlobalMaxIsTableMax(t: Table, q: seq<Latest>)
    requires IsGroupMax(t, q) && q != []
    ensures exists c :: Key(GlobalMax(q), c) in t
    ensures forall k :: k in t ==> LexLe(k.date, GlobalMax(q))
  {
    var g := GlobalMax(q);
    var i :| 0 <= i < |q| && q[i].date == g;
    assert Key(g, q[i].code) in t;
    forall k | k in t
      ensures LexLe(k.date, g)
    {
      var j :| 0 <= j < |q| && q[j].code == k.code;
      LexLeTransitive(k.date, q[j].date, g);
    }
  }

  /** A code reported as lagging is stored, and none of its rows is dated at
      the global latest date. */
  lemma LaggingSound(t: Table, q: seq<Latest>, x: Latest)
    requires IsGroupMax(t, q) && q != []
    requires x in Behind(q, GlobalMax(q))
    ensures Key(x.date, x.code) in t
    ensures forall k :: k in t && k.code == x.code ==> LexLess(k.date, GlobalMax(q))
  {
    var g := GlobalMax(q);
    var i :| 0 <= i < |q| && q[i] == x;
    assert Key(x.date, x.code) in t;
    forall k | k in t && k.code == x.code
      ensures LexLess(k.date, g)
    {
      assert LexLe(k.date, q[i].date);
      if k.date != x.date {
        LexLessTransitive(k.date, x.date, g);
      }
    }
  }

  /** A stored code none of whose rows is dated at the global latest date is
      reported as lagging. */
  lemma LaggingComplete(t: Table, q: seq<Latest>, k: Key)
    requires IsGroupMax(t, q) && q != []
    requires k in t
    requires forall k' :: k' in t && k'.code == k.code ==> LexLess(k'.date, GlobalMax(q))
    ensures exists x :: x in Behind(q, GlobalMax(q)) && x.code == k.code
  {
    var g := GlobalMax(q);
    var i :| 0 <= i < |q| && q[i].code == k.code;
    var latest := Key(q[i].date, k.code);
    assert latest in t;
    assert LexLess(latest.date, g);
    LexLessIrreflexive(g);
    assert q[i].date != g;
    assert q[i] in Behind(q, g);
  }

  /** A code is reported as lagging exactly when it is stored and none of its
      rows is dated at the global latest date. */
  lemma LaggingExact(t: Table, q: seq<Latest>, c: string)
    requires IsGroupMax(t, q) && q != []
    ensures (exists x :: x in Behind(q, GlobalMax(q)) && x.code == c)
            <==> (exists k :: k in t && k.code == c)
                 && (forall k :: k in t && k.code == c ==> LexLess(k.date, GlobalMax(q)))
  {
    if x :| x in Behind(q, GlobalMax(q)) && x.code == c {
      LaggingSound(t, q, x);
    }
    if k :| k in t && k.code == c && (forall k' :: k' in t && k'.code == c ==> LexLess(k'.date, GlobalMax(q))) {
      LaggingComplete(t, q, k);
    }
  }

  /** A code reported as up to date has a row dated at the global latest
      date. */
  lemma UpToDateSound(t: Table, q: seq<Latest>, x: Latest)
    requires IsGroupMax(t, q) && q != []
    requires x in AtMark(q, GlobalMax(q))
    ensures Key(GlobalMax(q), x.code) in t
  {
    var i :| 0 <= i < |q| && q[i] == x;
    assert Key(q[i].date, q[i].code) in t;
  }

  /** A code with a row dated at the global latest date is reported as up to
      date. */
  lemma UpToDateComplete(t: Table, q: seq<Latest>, c: string)
    requires IsGroupMax(t, q) && q != []
    requires Key(GlobalMax(q), c) in t
    ensures exists x :: x in AtMark(q, GlobalMax(q)) && x.code == c
  {
    var g := GlobalMax(q);
    var i :| 0 <= i < |q| && q[i].code == c;
    assert LexLe(g, q[i].date);
    assert LexLe(q[i].date, g);
    LexLessAsymmetric(q[i].date, g);
    assert q[i] in AtMark(q, g);
  }

  /** A code is reported as up to date exactly when it has a row dated at the
      global latest date. */
  lemma UpToDateExact(t: Table, q: seq<Latest>, c: string)
    requires IsGroupMax(t, q) && q != []
    ensures (exists x :: x in AtMark(q, GlobalMax(q)) && x.code == c) <==> Key(GlobalMax(q), c) in t
  {
    if x :| x in AtMark(q, GlobalMax(q)) && x.code == c {
      UpToDateSound(t, q, x);
    }
    if Key(GlobalMax(q), c) in t {
      UpToDateComplete(t, q, c);
    }
  }

  /** When every stored date is `YYYY-MM-DD` text, the text maximum is the
      chronologically latest stored day. */
  lemma LatestIsChronologicalMax(t: Table, q: seq<Latest>)
    requires IsGroupMax(t, q) && q != []
    requires forall k :: k in t ==> ParseIso(k.date).Some?
    ensures ParseIso(GlobalMax(q)).Some?
    ensures forall k :: k in t ==> Ordinal(ParseIso(k.date).value) <= Ordinal(ParseIso(GlobalMax(q)).value)
  {
    var g := GlobalMax(q);
    GlobalMaxIsTableMax(t, q);
    var c :| Key(g, c) in t;
    var dg := ParseIso(g).value;
    IsoTextOfParseIso(g);
    forall k | k in t
      ensures Ordinal(ParseIso(k.date).value) <= Ordinal(dg)
    {
      var dk := ParseIso(k.date).value;
      IsoTextOfParseIso(k.date);
      IsoTextOrder(dk, dg);
    }
  }

  /** The next start date lies after every stored day. */
  lemma NextStartAfterAllStored(t: Table, q: seq<Latest>)
    requires IsGroupMax(t, q) && q != []
    requires forall k :: k in t ==> ParseIso(k.date).Some?
    requires NextStart(GlobalMax(q)).Ok?
    ensures forall k :: k in t ==>
              Ordinal(ParseIso(k.date).value) < Ordinal(ParseCompact(NextStart(GlobalMax(q)).value).value)
  {
    LatestIsChronologicalMax(t, q);
  }
}
