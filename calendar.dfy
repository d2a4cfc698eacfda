/** Proleptic Gregorian calendar dates, the day arithmetic the loader does with
    `timedelta(days=1)`, and the two text forms it uses: `YYYY-MM-DD` (how
    trade dates are stored in the `日期` column) and `YYYYMMDD` (how the data
    provider wants its request window). */
module Calendar {
  import opened Results
  import opened Text

  datatype Date = Date(year: int, month: int, day: int)

  predicate IsLeapYear(y: int)
  {
    y % 4 == 0 && (y % 100 != 0 || y % 400 == 0)
  }

  function DaysInMonth(y: int, m: int): int
  {
    if m == 2 then (if IsLeapYear(y) then 29 else 28)
    else if m == 4 || m == 6 || m == 9 || m == 11 then 30
    else 31
  }

  function DaysInYear(y: int): int
  {
    if IsLeapYear(y) then 366 else 365
  }

  /** A real calendar day from year 1 on. */
  predicate Valid(d: Date)
  {
    1 <= d.year && 1 <= d.month <= 12 && 1 <= d.day <= DaysInMonth(d.year, d.month)
  }

  /** The range of Python's `datetime`: years 1 to 9999. */
  predicate InDatetimeRange(d: Date)
  {
    Valid(d) && d.year <= 9999
  }

  /** Chronological order, field by field. */
  predicate Before(a: Date, b: Date)
  {
    a.year < b.year
    || (a.year == b.year && a.month < b.month)
    || (a.year == b.year && a.month == b.month && a.day < b.day)
  }

  // ---------------------------------------------------------------------
  // Day numbers: an independent count of days, 1 for 0001-01-01, as
  // Python's `date.toordinal()`.

  function DaysBeforeYear(y: int): (n: nat)
    decreases y
  {
    if y <= 1 then 0 else DaysBeforeYear(y - 1) + DaysInYear(y - 1)
  }

  function DaysBeforeMonth(y: int, m: int): int
  {
    var leap := if m > 2 && IsLeapYear(y) then 1 else 0;
    leap +
      (if m <= 1 then 0 else if m == 2 then 31 else if m == 3 then 59
       else if m == 4 then 90 else if m == 5 then 120 else if m == 6 then 151
       else if m == 7 then 181 else if m == 8 then 212 else if m == 9 then 243
       else if m == 10 then 273 else if m == 11 then 304 else 334)
  }

  function Ordinal(d: Date): int
  {
    DaysBeforeYear(d.year) + DaysBeforeMonth(d.year, d.month) + d.day
  }

  lemma MonthStep(y: int, m: int)
    requires 1 <= m < 12
    ensures DaysBeforeMonth(y, m + 1) == DaysBeforeMonth(y, m) + DaysInMonth(y, m)
  {
  }

  lemma YearEnd(y: int)
    requires 1 <= y
    ensures DaysBeforeYear(y + 1) == DaysBeforeYear(y) + DaysBeforeMonth(y, 12) + DaysInMonth(y, 12)
  {
  }

  lemma {:induction false} MonthsMonotone(y: int, m1: int, m2: int)
    requires 1 <= m1 < m2 <= 12
    ensures DaysBeforeMonth(y, m1) + DaysInMonth(y, m1) <= DaysBeforeMonth(y, m2)
    decreases m2 - m1
  {
    MonthStep(y, m1);
    if m1 + 1 < m2 {
      MonthsMonotone(y, m1 + 1, m2);
    }
  }

  lemma {:induction false} YearsMonotone(y1: int, y2: int)
    requires 1 <= y1 < y2
    ensures DaysBeforeYear(y1) + DaysInYear(y1) <= DaysBeforeYear(y2)
    decreases y2 - y1
  {
    if y1 + 1 < y2 {
      YearsMonotone(y1 + 1, y2);
    }
  }

  /** The last day of a date's year ends at most at the next year's start. */
  lemma WithinYear(d: Date)
    requires Valid(d)
    ensures Ordinal(d) <= DaysBeforeYear(d.year) + DaysInYear(d.year)
  {
    if d.month < 12 {
      MonthsMonotone(d.year, d.month, 12);
    }
  }

  /** Day numbers agree with chronological order. */
  lemma OrdinalMonotone(a: Date, b: Date)
    requires Valid(a) && Valid(b) && Before(a, b)
    ensures Ordinal(a) < Ordinal(b)
  {
    if a.year < b.year {
      WithinYear(a);
      YearsMonotone(a.year, b.year);
    } else if a.month < b.month {
      MonthsMonotone(a.year, a.month, b.month);
    }
  }

  /** Two valid dates compare chronologically exactly as their day numbers,
      and equal day numbers mean the same date. */
  lemma OrdinalOrder(a: Date, b: Date)
    requires Valid(a) && Valid(b)
    ensures Before(a, b) <==> Ordinal(a) < Ordinal(b)
    ensures a == b <==> Ordinal(a) == Ordinal(b)
  {
    if Before(a, b) {
      OrdinalMonotone(a, b);
    } else if Before(b, a) {
      OrdinalMonotone(b, a);
    }
  }

  // ---------------------------------------------------------------------
  // One day later and one day earlier (`+ timedelta(days=1)`,
  // `- timedelta(days=1)`).

  /** The calendar day after `d`, rolling over months, years and 29 February. */
  function Succ(d: Date): (r: Date)
    requires Valid(d)
    ensures Valid(r) && Ordinal(r) == Ordinal(d) + 1
  {
    if d.day < DaysInMonth(d.year, d.month) then
      Date(d.year, d.month, d.day + 1)
    else if d.month < 12 then
      MonthStep(d.year, d.month);
      Date(d.year, d.month + 1, 1)
    else
      YearEnd(d.year);
      Date(d.year + 1, 1, 1)
  }

  /** The calendar day before `d`; there is none before 0001-01-01. */
  function Pred(d: Date): (r: Date)
    requires Valid(d) && d != Date(1, 1, 1)
    ensures Valid(r) && Ordinal(r) + 1 == Ordinal(d)
  {
    if d.day > 1 then
      Date(d.year, d.month, d.day - 1)
    else if d.month > 1 then
      MonthStep(d.year, d.month - 1);
      Date(d.year, d.month - 1, DaysInMonth(d.year, d.month - 1))
    else
      YearEnd(d.year - 1);
      Date(d.year - 1, 12, 31)
  }

  /** `Succ` and `Pred` undo each other. */
  lemma SuccPredInverse(d: Date)
    requires Valid(d)
    ensures Pred(Succ(d)) == d
    ensures d != Date(1, 1, 1) ==> Succ(Pred(d)) == d
  {
    OrdinalOrder(Pred(Succ(d)), d);
    if d != Date(1, 1, 1) {
      OrdinalOrder(Succ(Pred(d)), d);
    }
  }

  /** Nothing lies strictly between a day and its successor. */
  lemma SuccIsNext(d: Date, e: Date)
    requires Valid(d) && Valid(e) && Before(d, e)
    ensures !Before(e, Succ(d))
  {
    OrdinalOrder(d, e);
    OrdinalOrder(e, Succ(d));
  }

  // ---------------------------------------------------------------------
  // pandas Timestamps (what `pd.to_datetime` returns) cover midnights from
  // 1677-09-22 to 2262-04-11 only.

  const TimestampFirst := Date(1677, 9, 22)
  const TimestampLast := Date(2262, 4, 11)

  predicate InTimestampRange(d: Date)
  {
    Valid(d) && !Before(d, TimestampFirst) && !Before(TimestampLast, d)
  }

  // ---------------------------------------------------------------------
  // Text forms.

  /** `YYYY-MM-DD`, as stored in the `日期` column. */
  function IsoText(d: Date): (s: string)
    requires InDatetimeRange(d)
    ensures |s| == 10 && s[4] == '-' && s[7] == '-'
  {
    Digits(d.year, 4) + "-" + Digits(d.month, 2) + "-" + Digits(d.day, 2)
  }

  /** `YYYYMMDD`, as `strftime('%Y%m%d')` writes it. */
  function CompactText(d: Date): (s: string)
    requires InDatetimeRange(d)
    ensures |s| == 8 && AllDigits(s)
  {
    Digits(d.year, 4) + Digits(d.month, 2) + Digits(d.day, 2)
  }

  /** Reads `YYYY-MM-DD`; anything else, or a day the calendar does not have,
      is rejected. */
  function ParseIso(s: string): (r: Option<Date>)
    ensures r.Some? ==> InDatetimeRange(r.value)
  {
    if |s| == 10 && s[4] == '-' && s[7] == '-'
       && AllDigits(s[..4]) && AllDigits(s[5..7]) && AllDigits(s[8..])
    then
      var d := Date(ParseDigits(s[..4]), ParseDigits(s[5..7]), ParseDigits(s[8..]));
      if Valid(d) then Some(d) else None
    else None
  }

  /** Reads `YYYYMMDD`. */
  function ParseCompact(s: string): (r: Option<Date>)
    ensures r.Some? ==> InDatetimeRange(r.value)
  {
    if |s| == 8 && AllDigits(s) then
      var d := Date(ParseDigits(s[..4]), ParseDigits(s[4..6]), ParseDigits(s[6..]));
      if Valid(d) then Some(d) else None
    else None
  }

  lemma IsoFields(d: Date)
    requires InDatetimeRange(d)
    ensures IsoText(d)[..4] == Digits(d.year, 4)
    ensures IsoText(d)[5..7] == Digits(d.month, 2)
    ensures IsoText(d)[8..] == Digits(d.day, 2)
  {
  }

  /** Reading back a rendered date gives the date. */
  lemma ParseIsoOfIsoText(d: Date)
    requires InDatetimeRange(d)
    ensures ParseIso(IsoText(d)) == Some(d)
  {
    IsoFields(d);
    ParseDigitsOfDigits(d.year, 4);
    ParseDigitsOfDigits(d.month, 2);
    ParseDigitsOfDigits(d.day, 2);
  }

  /** A text that reads as a date is that date's canonical rendering. */
  lemma IsoTextOfParseIso(s: string)
    requires ParseIso(s).Some?
    ensures IsoText(ParseIso(s).value) == s
  {
    DigitsOfParseDigits(s[..4]);
    DigitsOfParseDigits(s[5..7]);
    DigitsOfParseDigits(s[8..]);
    assert s == s[..4] + "-" + s[5..7] + "-" + s[8..];
  }

  lemma ParseCompactOfCompactText(d: Date)
    requires InDatetimeRange(d)
    ensures ParseCompact(CompactText(d)) == Some(d)
  {
    var s := CompactText(d);
    assert s[..4] == Digits(d.year, 4) && s[4..6] == Digits(d.month, 2) && s[6..] == Digits(d.day, 2);
    ParseDigitsOfDigits(d.year, 4);
    ParseDigitsOfDigits(d.month, 2);
    ParseDigitsOfDigits(d.day, 2);
  }

  /** Comparing three fixed-width fields as text compares them as numbers. */
  lemma FieldsOrder(a: Date, b: Date, sep: string)
    requires InDatetimeRange(a) && InDatetimeRange(b)
    ensures LexLess(Digits(a.year, 4) + (sep + (Digits(a.month, 2) + (sep + Digits(a.day, 2)))),
                    Digits(b.year, 4) + (sep + (Digits(b.month, 2) + (sep + Digits(b.day, 2)))))
            <==> Before(a, b)
  {
    var ya, yb := Digits(a.year, 4), Digits(b.year, 4);
    var ma, mb := Digits(a.month, 2), Digits(b.month, 2);
    var da, db := Digits(a.day, 2), Digits(b.day, 2);
    DigitsOrder(a.year, b.year, 4);
    DigitsOrder(a.month, b.month, 2);
    DigitsOrder(a.day, b.day, 2);
    DigitsInjective(a.year, b.year, 4);
    DigitsInjective(a.month, b.month, 2);
    LexLessIrreflexive(sep);
    LexConcat(ya, sep + (ma + (sep + da)), yb, sep + (mb + (sep + db)));
    LexConcat(sep, ma + (sep + da), sep, mb + (sep + db));
    LexConcat(ma, sep + da, mb, sep + db);
    LexConcat(sep, da, sep, db);
  }

  /** `MAX` over stored `YYYY-MM-DD` text picks the chronologically latest
      date: text order and calendar order coincide. */
  lemma IsoTextOrder(a: Date, b: Date)
    requires InDatetimeRange(a) && InDatetimeRange(b)
    ensures LexLess(IsoText(a), IsoText(b)) <==> Before(a, b)
    ensures LexLess(IsoText(a), IsoText(b)) <==> Ordinal(a) < Ordinal(b)
  {
    FieldsOrder(a, b, "-");
    assert IsoText(a) == Digits(a.year, 4) + ("-" + (Digits(a.month, 2) + ("-" + Digits(a.day, 2))));
    assert IsoText(b) == Digits(b.year, 4) + ("-" + (Digits(b.month, 2) + ("-" + Digits(b.day, 2))));
    OrdinalOrder(a, b);
  }

  /** The same holds for the `YYYYMMDD` request format. */
  lemma CompactTextOrder(a: Date, b: Date)
    requires InDatetimeRange(a) && InDatetimeRange(b)
    ensures LexLess(CompactText(a), CompactText(b)) <==> Before(a, b)
  {
    FieldsOrder(a, b, "");
    assert CompactText(a) == Digits(a.year, 4) + ("" + (Digits(a.month, 2) + ("" + Digits(a.day, 2))));
    assert CompactText(b) == Digits(b.year, 4) + ("" + (Digits(b.month, 2) + ("" + Digits(b.day, 2))));
  }
}
