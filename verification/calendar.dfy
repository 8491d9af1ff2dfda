/** Calendar dates as the script handles them: the comparison of the two
    picked dates (Python's datetime.date ordering), the "YYYY-MM-DD" text built
    from the YEAR, MO and DY columns, its reading by pd.to_datetime, and the
    strftime('%d/%m/%Y') rendering. */
module Calendar {
  import opened Wrappers
  import opened Text
  import opened Numerals

  datatype Date = Date(year: int, month: int, day: int)

  /** Gregorian leap-year rule. */
  predicate IsLeap(y: int) {
    y % 4 == 0 && (y % 100 != 0 || y % 400 == 0)
  }

  function YearLength(y: int): int {
    if IsLeap(y) then 366 else 365
  }

  function DaysInMonth(y: int, m: int): int
    requires 1 <= m <= 12
  {
    if m == 2 then (if IsLeap(y) then 29 else 28)
    else [31, 0, 31, 30, 31, 30, 31, 31, 30, 31, 30, 31][m - 1]
  }

  /** A date Python's datetime.date accepts (years 1 to 9999). */
  predicate Valid(d: Date) {
    && 1 <= d.year <= 9999
    && 1 <= d.month <= 12
    && 1 <= d.day <= DaysInMonth(d.year, d.month)
  }

  /** Python's a < b on dates: year, then month, then day. */
  predicate Before(a: Date, b: Date) {
    || a.year < b.year
    || (a.year == b.year && a.month < b.month)
    || (a.year == b.year && a.month == b.month && a.day < b.day)
  }


  // Day numbering (the proleptic Gregorian ordinal, day 1 = 0001-01-01),
  // an independent measure of the order of dates.

  /** Days in the years before year y, counting from year 1. */
  function DaysBeforeYear(y: int): int
    decreases y
  {
    if y <= 1 then 0 else DaysBeforeYear(y - 1) + YearLength(y - 1)
  }

  function DaysBeforeMonth(y: int, m: int): int
    requires 1 <= m <= 12
  {
    [0, 31, 59, 90, 120, 151, 181, 212, 243, 273, 304, 334][m - 1]
    + (if m > 2 && IsLeap(y) then 1 else 0)
  }

  function Ordinal(d: Date): int
    requires 1 <= d.month <= 12
  {
    DaysBeforeYear(d.year) + DaysBeforeMonth(d.year, d.month) + d.day
  }

  /** All of year y1 lies before the start of any later year y2. */
  lemma {:induction false} YearsInOrder(y1: int, y2: int)
    requires 1 <= y1 < y2
    ensures DaysBeforeYear(y1) + YearLength(y1) <= DaysBeforeYear(y2)
    decreases y2 - y1
  {
    if y1 + 1 < y2 {
      YearsInOrder(y1 + 1, y2);
    }
  }

  /** All of month m1 lies before the start of any later month m2 of the year. */
  lemma MonthsInOrder(y: int, m1: int, m2: int)
    requires 1 <= m1 < m2 <= 12
    ensures DaysBeforeMonth(y, m1) + DaysInMonth(y, m1) <= DaysBeforeMonth(y, m2)
  {
  }

  lemma DayWithinYear(d: Date)
    requires Valid(d)
    ensures 1 <= DaysBeforeMonth(d.year, d.month) + d.day <= YearLength(d.year)
  {
  }

  /** The lexicographic order the script uses is the order of day numbers. */
  lemma BeforeIsOrdinalOrder(a: Date, b: Date)
    requires Valid(a) && Valid(b)
    ensures Before(a, b) <==> Ordinal(a) < Ordinal(b)
  {
    if a.year < b.year {
      DayWithinYear(a);
      YearsInOrder(a.year, b.year);
    } else if b.year < a.year {
      DayWithinYear(b);
      YearsInOrder(b.year, a.year);
    } else if a.month < b.month {
      MonthsInOrder(a.year, a.month, b.month);
    } else if b.month < a.month {
      MonthsInOrder(a.year, b.month, a.month);
    }
  }

  /** The date-range guard: the chosen range goes on to loading unless the
      start date comes after the end date. For real dates that is exactly
      when the start day is not later than the end day: a one-day range
      passes, a start one day after the end is refused. */
  function InRange(start: Date, end: Date): (r: bool)
    ensures Valid(start) && Valid(end) ==> (r <==> Ordinal(start) <= Ordinal(end))
    ensures Valid(start) && Valid(end) && Ordinal(start) == Ordinal(end) + 1 ==> !r
  {
    if Valid(start) && Valid(end) then
      BeforeIsOrdinalOrder(end, start);
      !Before(end, start)
    else
      !Before(end, start)
  }

  // Date text

  /** The text line 54 builds for one row:
      YEAR + '-' + MO.zfill(2) + '-' + DY.zfill(2), each from str(int). */
  function IsoText(y: int, m: int, d: int): string {
    IntText(y) + "-" + ZFill(IntText(m), 2) + "-" + ZFill(IntText(d), 2)
  }

  /** Reading "YYYY-MM-DD" text as a date, as pd.to_datetime does for the
      texts line 54 produces; anything else is a parse error. */
  function ParseIso(s: string): (r: Option<Date>)
    ensures r.Some? ==> Valid(r.value)
  {
    var parts := Split(s, "-");
    if && |parts| == 3
       && |parts[0]| == 4 && |parts[1]| == 2 && |parts[2]| == 2
       && AllDigits(parts[0]) && AllDigits(parts[1]) && AllDigits(parts[2])
    then
      var dt := Date(ParseDigits(parts[0]), ParseDigits(parts[1]), ParseDigits(parts[2]));
      if Valid(dt) then Some(dt) else None
    else None
  }

  /** strftime('%d/%m/%Y'). */
  /** strftime('%d/%m/%Y'). */
  function DisplayText(dt: Date): string {
    ZFill(IntText(dt.day), 2) + "/" + ZFill(IntText(dt.month), 2) + "/" + IntText(dt.year)
  }

  lemma DigitsHaveNoDash(s: string)
    requires AllDigits(s)
    ensures forall j :: !OccursAt(s, j, "-")
  {
    forall j ensures !OccursAt(s, j, "-") {
      if 0 <= j < |s| {
        assert s[j..j + 1][0] == s[j];
      }
    }
  }

  lemma SplitAfterDigits(a: string, b: string)
    requires AllDigits(a)
    ensures Split(a + "-" + b, "-") == [a] + Split(b, "-")
  {
    var s := a + "-" + b;
    assert s[|a|..|a| + 1] == "-";
    forall j | 0 <= j < |a| ensures !OccursAt(s, j, "-") {
      assert s[j..j + 1][0] == a[j];
    }
    SplitAtFirst(s, "-", |a|);
    assert s[|a| + 1..] == b;
  }

  lemma SplitAfterDash(b: string)
    ensures Split("-" + b, "-") == [""] + Split(b, "-")
  {
    var s := "-" + b;
    assert s[0..1] == "-";
    SplitAtFirst(s, "-", 0);
    assert s[1..] == b;
  }

  lemma SplitDigits(a: string)
    requires AllDigits(a)
    ensures Split(a, "-") == [a]
  {
    DigitsHaveNoDash(a);
    SplitWithout(a, "-");
  }

  /** A two-character zero-padded field of a non-negative number. */
  lemma {:induction false} PaddedField(n: nat)
    ensures AllDigits(ZFill(Digits(n), 2))
    ensures ParseDigits(ZFill(Digits(n), 2)) == n
    ensures |ZFill(Digits(n), 2)| == 2 <==> n < 100
  {
    ZFillKeepsValue(Digits(n), 2);
    ParseDigitsOfDigits(n);
    DigitsLength(n, 2);
  }

  /** The text of a negative number starts with a dash and is already at
      least two characters wide. */
  lemma NegativeField(i: int)
    requires i < 0
    ensures ZFill(IntText(i), 2) == "-" + Digits(-i)
  {
  }

  /** A split into other than three fields of widths 4, 2 and 2 is not a date. */
  lemma {:induction false} NotThreeFields(s: string)
    requires var p := Split(s, "-"); |p| != 3 || |p[0]| != 4 || |p[1]| != 2 || |p[2]| != 2
    ensures ParseIso(s) == None
  {
  }

  /** Three digit fields of widths 4, 2 and 2 read as the date they spell,
      when that is a real date. */
  lemma {:induction false} ThreeFields(s: string, a: string, b: string, c: string)
    requires Split(s, "-") == [a, b, c]
    requires |a| == 4 && |b| == 2 && |c| == 2 && AllDigits(a) && AllDigits(b) && AllDigits(c)
    ensures var dt := Date(ParseDigits(a), ParseDigits(b), ParseDigits(c));
      ParseIso(s) == if Valid(dt) then Some(dt) else None
  {
  }

  lemma {:induction false} SplitThreeDigitFields(a: string, b: string, c: string)
    requires AllDigits(a) && AllDigits(b) && AllDigits(c)
    ensures Split(a + "-" + (b + "-" + c), "-") == [a, b, c]
  {
    SplitAfterDigits(a, b + "-" + c);
    SplitAfterDigits(b, c);
    SplitDigits(c);
  }

  /** Text starting with a dash has an empty first field. */
  lemma DashFirstField(rest: string)
    ensures ParseIso("-" + rest) == None
  {
    SplitAfterDash(rest);
    NotThreeFields("-" + rest);
  }

  /** Two dashes in a row after the first field leave the second empty. */
  lemma DashSecondField(a: string, rest: string)
    requires AllDigits(a)
    ensures ParseIso(a + "-" + ("-" + rest)) == None
  {
    SplitAfterDigits(a, "-" + rest);
    SplitAfterDash(rest);
    NotThreeFields(a + "-" + ("-" + rest));
  }

  /** A dash after the second field leaves the third empty. */
  lemma DashThirdField(a: string, b: string, rest: string)
    requires AllDigits(a) && AllDigits(b)
    ensures ParseIso(a + "-" + (b + "-" + ("-" + rest))) == None
  {
    SplitAfterDigits(a, b + "-" + ("-" + rest));
    SplitAfterDigits(b, "-" + rest);
    SplitAfterDash(rest);
    NotThreeFields(a + "-" + (b + "-" + ("-" + rest)));
  }

  lemma {:induction false} IsoNegativeYear(y: int, m: int, d: int)
    requires y < 0
    ensures ParseIso(IsoText(y, m, d)) == None
  {
    var mt, dt := ZFill(IntText(m), 2), ZFill(IntText(d), 2);
    var rest := Digits(-y) + "-" + (mt + "-" + dt);
    assert IsoText(y, m, d) == "-" + rest by {
      assert IntText(y) == "-" + Digits(-y);
    }
    DashFirstField(rest);
  }

  lemma {:induction false} IsoNegativeMonth(y: nat, m: int, d: int)
    requires m < 0
    ensures ParseIso(IsoText(y, m, d)) == None
  {
    var mt, dt := ZFill(IntText(m), 2), ZFill(IntText(d), 2);
    var rest := Digits(-m) + "-" + dt;
    var s := IsoText(y, m, d);
    assert s == Digits(y) + "-" + ("-" + rest) by {
      assert mt == "-" + Digits(-m) by { NegativeField(m); }
      assert IntText(y) == Digits(y);
      assert s == Digits(y) + "-" + mt + "-" + dt;
    }
    DashSecondField(Digits(y), rest);
  }

  lemma {:induction false} IsoNegativeDay(y: nat, m: nat, d: int)
    requires d < 0
    ensures ParseIso(IsoText(y, m, d)) == None
  {
    var mt := ZFill(Digits(m), 2);
    var s := IsoText(y, m, d);
    assert s == Digits(y) + "-" + (mt + "-" + ("-" + Digits(-d))) by {
      var dt := ZFill(IntText(d), 2);
      assert dt == "-" + Digits(-d) by { NegativeField(d); }
      assert IntText(y) == Digits(y) && ZFill(IntText(m), 2) == mt;
      assert s == Digits(y) + "-" + mt + "-" + dt;
    }
    assert AllDigits(mt) by { PaddedField(m); }
    DashThirdField(Digits(y), mt, Digits(-d));
  }

  /** Three digit fields read back as the numbers they spell, when their
      widths are right. */
  lemma {:induction false} DigitFieldsRead(yt: string, mt: string, dt: string, y: nat, m: nat, d: nat)
    requires AllDigits(yt) && AllDigits(mt) && AllDigits(dt)
    requires ParseDigits(yt) == y && ParseDigits(mt) == m && ParseDigits(dt) == d
    requires |yt| == 4 <==> 1000 <= y < 10000
    requires |mt| == 2 <==> m < 100
    requires |dt| == 2 <==> d < 100
    ensures ParseIso(yt + "-" + (mt + "-" + dt))
      == if 1000 <= y && Valid(Date(y, m, d)) then Some(Date(y, m, d)) else None
  {
    var s := yt + "-" + (mt + "-" + dt);
    SplitThreeDigitFields(yt, mt, dt);
    if |yt| == 4 && |mt| == 2 && |dt| == 2 {
      ThreeFields(s, yt, mt, dt);
      assert 1000 <= y;
    } else {
      NotThreeFields(s);
      assert Valid(Date(y, m, d)) ==> m < 100 && d < 100;
      assert !(1000 <= y && Valid(Date(y, m, d)));
    }
  }

  lemma {:induction false} IsoTextFields(y: nat, m: nat, d: nat)
    ensures IsoText(y, m, d) == Digits(y) + "-" + (ZFill(Digits(m), 2) + "-" + ZFill(Digits(d), 2))
  {
    var yt, mt, dt := IntText(y), ZFill(IntText(m), 2), ZFill(IntText(d), 2);
    assert yt == Digits(y) && IntText(m) == Digits(m) && IntText(d) == Digits(d);
    assert yt + "-" + mt + "-" + dt == yt + "-" + (mt + "-" + dt);
  }

  /** Reading the text of a date none of whose fields is negative. */
  lemma {:induction false} IsoNonNegative(y: nat, m: nat, d: nat)
    ensures ParseIso(IsoText(y, m, d))
      == if 1000 <= y && Valid(Date(y, m, d)) then Some(Date(y, m, d)) else None
  {
    var yt, mt, dt := Digits(y), ZFill(Digits(m), 2), ZFill(Digits(d), 2);
    assert IsoText(y, m, d) == yt + "-" + (mt + "-" + dt) by { IsoTextFields(y, m, d); }
    assert ParseIso(yt + "-" + (mt + "-" + dt))
      == if 1000 <= y && Valid(Date(y, m, d)) then Some(Date(y, m, d)) else None
    by {
      PaddedField(m);
      PaddedField(d);
      ParseDigitsOfDigits(y);
      DigitsLength(y, 3);
      DigitsLength(y, 4);
      DigitFieldsRead(yt, mt, dt, y, m, d);
    }
  }

  /** The date text line 54 builds reads back as the same date exactly when
      the year has four digits and the date is a real calendar date; in
      every other case the row cannot be read and pd.to_datetime fails. */
  lemma {:induction false} IsoRoundTrip(y: int, m: int, d: int)
    ensures ParseIso(IsoText(y, m, d))
      == if 1000 <= y && Valid(Date(y, m, d)) then Some(Date(y, m, d)) else None
  {
    if y < 0 {
      IsoNegativeYear(y, m, d);
    } else if m < 0 {
      IsoNegativeMonth(y, m, d);
    } else if d < 0 {
      IsoNegativeDay(y, m, d);
    } else {
      IsoNonNegative(y, m, d);
    }
  }

  /** The rendered date is "DD/MM/YYYY": two digits of day, a slash, two
      digits of month, a slash, then the four-digit year. */
  lemma {:induction false} DisplayLayout(dt: Date)
    requires Valid(dt) && 1000 <= dt.year
    ensures var t := DisplayText(dt);
      && |t| == 10 && t[2] == '/' && t[5] == '/'
      && AllDigits(t[..2]) && ParseDigits(t[..2]) == dt.day
      && AllDigits(t[3..5]) && ParseDigits(t[3..5]) == dt.month
      && AllDigits(t[6..]) && ParseDigits(t[6..]) == dt.year
  {
    var dd, mm, yy := ZFill(Digits(dt.day), 2), ZFill(Digits(dt.month), 2), Digits(dt.year);
    var t := DisplayText(dt);
    assert t == dd + "/" + mm + "/" + yy by {
      assert IntText(dt.day) == Digits(dt.day) && IntText(dt.month) == Digits(dt.month);
    }
    assert AllDigits(dd) && ParseDigits(dd) == dt.day && |dd| == 2 by { PaddedField(dt.day); }
    assert AllDigits(mm) && ParseDigits(mm) == dt.month && |mm| == 2 by { PaddedField(dt.month); }
    assert ParseDigits(yy) == dt.year && |yy| == 4 by {
      ParseDigitsOfDigits(dt.year);
      DigitsLength(dt.year, 4);
      DigitsLength(dt.year, 3);
    }
    assert t[..2] == dd && t[3..5] == mm && t[6..] == yy;
  }

  /** Distinct dates render to distinct texts. */
  lemma {:induction false} DisplayInjective(a: Date, b: Date)
    requires Valid(a) && 1000 <= a.year && Valid(b) && 1000 <= b.year
    requires DisplayText(a) == DisplayText(b)
    ensures a == b
  {
    DisplayLayout(a);
    DisplayLayout(b);
  }

  /** 2023-04-01 renders as 01/04/2023. */
  lemma DisplayExample()
    ensures DisplayText(Date(2023, 4, 1)) == "01/04/2023"
  {
    assert Digits(2023) == "2023" by {
      assert Digits(2) == "2";
      assert Digits(20) == "20";
      assert Digits(202) == "202";
    }
  }
}
