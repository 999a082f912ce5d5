/**
 Timestamps: the days-from-civil arithmetic of UnixFromIso in api.cpp against the Gregorian
 calendar counted out year by year and month by month.
 */
module Calendar {
  import opened Basics

  // ---- The calendar ----

  datatype Date = Date(year: int, month: int, day: int)

  predicate Leap(y: int) {
    y % 4 == 0 && (y % 100 != 0 || y % 400 == 0)
  }

  function YearLength(y: int): nat {
    if Leap(y) then 366 else 365
  }

  function MonthLength(y: int, m: int): nat {
    if m == 2 then (if Leap(y) then 29 else 28)
    else if m == 4 || m == 6 || m == 9 || m == 11 then 30
    else 31
  }

  predicate ValidDate(t: Date) {
    1 <= t.month <= 12 && 1 <= t.day <= MonthLength(t.year, t.month)
  }

  function NextDay(t: Date): (r: Date)
    requires ValidDate(t)
    ensures ValidDate(r)
  {
    if t.day < MonthLength(t.year, t.month) then t.(day := t.day + 1)
    else if t.month < 12 then Date(t.year, t.month + 1, 1)
    else Date(t.year + 1, 1, 1)
  }

  predicate Before(a: Date, b: Date) {
    a.year < b.year || (a.year == b.year && (a.month < b.month || (a.month == b.month && a.day < b.day)))
  }

  /** Days from 1 January 1970 to 1 January of a year, one year after another. */
  function YearStart(y: int): int
    decreases if y < 1970 then 1970 - y else y - 1970
  {
    if y == 1970 then 0
    else if y > 1970 then YearStart(y - 1) + YearLength(y - 1)
    else YearStart(y + 1) - YearLength(y)
  }

  /** Days from 1 January to the first of a month. */
  function MonthStart(y: int, m: int): nat
    decreases m
  {
    if m <= 1 then 0 else MonthStart(y, m - 1) + MonthLength(y, m - 1)
  }

  /** The day's number, counted out from the epoch. */
  function CountedDays(t: Date): int {
    YearStart(t.year) + MonthStart(t.year, t.month) + t.day - 1
  }

  // ---- The code's arithmetic ----

  /** An `unsigned int`. */
  function Unsigned(x: int): nat {
    x % 0x1_0000_0000
  }

  /** C's division, which rounds toward zero. */
  function Truncated(a: int, b: int): int
    requires b > 0
  {
    if a >= 0 then a / b else -((-a) / b)
  }

  /** The 400-year era of a year that starts in March. */
  function Era(y: int): int {
    Truncated(if y >= 0 then y else y - 399, 400)
  }

  function DayOfYear(m: nat, day: int): nat {
    var shifted := if m > 2 then Unsigned(m - 3) else m + 9;
    Unsigned(Unsigned(153 * shifted + 2) / 5 + Unsigned(day) - 1)
  }

  function DayOfEra(yoe: nat, doy: nat): nat {
    Unsigned(yoe * 365 + yoe / 4 - yoe / 100 + doy)
  }

  function DaysFromCivil(year: int, month: int, day: int): int {
    var m := Unsigned(month);
    var y := year - (if m <= 2 then 1 else 0);
    var yoe := Unsigned(y - Era(y) * 400);
    Era(y) * 146097 + DayOfEra(yoe, DayOfYear(m, day)) - 719468
  }

  /** The six numbers sscanf finds in the text. */
  datatype Fields = Fields(year: int, month: int, day: int, hour: int, minute: int, second: int)

  /** The timestamp; 0 when the text is too short or not six numbers were found in it. */
  function UnixFromIso(length: nat, fields: Option<Fields>): int {
    if length < 19 || fields.None? then 0
    else
      var f := fields.value;
      DaysFromCivil(f.year, f.month, f.day) * 86400 + f.hour * 3600 + f.minute * 60 + f.second
  }

  // ---- The arithmetic counts the calendar ----

  /** Days before the March of year 0's `y`th successor, all eras at once. */
  function MarchCount(y: int): int {
    365 * y + y / 4 - y / 100 + y / 400
  }

  lemma EraOf(y: int)
    ensures Era(y) == y / 400 && Unsigned(y - Era(y) * 400) == y % 400
  {
  }

  lemma EraSplits(y: int)
    ensures var e, r := y / 400, y % 400;
            MarchCount(y) == e * 146097 + r * 365 + r / 4 - r / 100
  {
    var e, r := y / 400, y % 400;
    assert y == 400 * e + r;
    assert y / 4 == 100 * e + r / 4;
    assert y / 100 == 4 * e + r / 100;
  }

  /** The day of the year that starts in March. */
  function MarchDay(month: int, day: int): int {
    (153 * (if month > 2 then month - 3 else month + 9) + 2) / 5 + day - 1
  }

  lemma MarchDayFits(month: int, day: int)
    requires 1 <= month <= 12 && 1 <= day <= 31
    ensures DayOfYear(month, day) == MarchDay(month, day) < 400
  {
    var shifted := if month > 2 then month - 3 else month + 9;
    SmallIsUnsigned(153 * shifted + 2);
    SmallIsUnsigned(day);
    SmallIsUnsigned((153 * shifted + 2) / 5 + day - 1);
  }

  lemma DayOfEraFits(r: nat, doy: nat)
    requires r < 400 && doy < 400
    ensures DayOfEra(r, doy) == r * 365 + r / 4 - r / 100 + doy
  {
  }

  lemma DaysAreMarchCount(t: Date)
    requires ValidDate(t)
    ensures DaysFromCivil(t.year, t.month, t.day) ==
            MarchCount(t.year - (if t.month <= 2 then 1 else 0)) + MarchDay(t.month, t.day) - 719468
  {
    SmallIsUnsigned(t.month);
    var y := t.year - (if t.month <= 2 then 1 else 0);
    var e, r, doy := y / 400, y % 400, DayOfYear(t.month, t.day);
    EraOf(y);
    assert DaysFromCivil(t.year, t.month, t.day) == e * 146097 + DayOfEra(r, doy) - 719468;
    MarchDayFits(t.month, t.day);
    DayOfEraFits(r, doy);
    EraSplits(y);
  }

  lemma SmallIsUnsigned(x: int)
    requires 0 <= x < 0x1_0000_0000
    ensures Unsigned(x) == x
  {
  }

  lemma FourStep(y: int)
    ensures y / 4 - (y - 1) / 4 == if y % 4 == 0 then 1 else 0
  {
  }

  lemma HundredStep(y: int)
    ensures y / 100 - (y - 1) / 100 == if y % 100 == 0 then 1 else 0
  {
  }

  lemma FourHundredStep(y: int)
    ensures y / 400 - (y - 1) / 400 == if y % 400 == 0 then 1 else 0
  {
  }

  lemma Multiples(y: int)
    ensures y % 400 == 0 ==> y % 100 == 0
    ensures y % 100 == 0 ==> y % 4 == 0
  {
  }

  lemma MarchCountStep(y: int)
    ensures MarchCount(y) - MarchCount(y - 1) == YearLength(y)
  {
    FourStep(y);
    HundredStep(y);
    FourHundredStep(y);
    Multiples(y);
  }

  lemma {:induction false} YearStartIsMarchCount(y: int)
    ensures YearStart(y) == MarchCount(y - 1) + 306 - 719468
    decreases if y < 1970 then 1970 - y else y - 1970
  {
    if y > 1970 {
      YearStartIsMarchCount(y - 1);
      MarchCountStep(y - 1);
    } else if y < 1970 {
      YearStartIsMarchCount(y + 1);
      MarchCountStep(y);
    }
  }

  lemma MonthStarts(y: int, m: int)
    requires 1 <= m <= 12
    ensures MonthStart(y, m) == if m <= 2 then MarchDay(m, 1) - 306 else MarchDay(m, 1) + YearLength(y) - 306
  {
    assert MonthStart(y, 2) == 31 && MonthStart(y, 3) == YearLength(y) - 306;
    assert MonthStart(y, 4) == MonthStart(y, 3) + 31 && MonthStart(y, 5) == MonthStart(y, 4) + 30;
    assert MonthStart(y, 6) == MonthStart(y, 5) + 31 && MonthStart(y, 7) == MonthStart(y, 6) + 30;
    assert MonthStart(y, 8) == MonthStart(y, 7) + 31 && MonthStart(y, 9) == MonthStart(y, 8) + 31;
    assert MonthStart(y, 10) == MonthStart(y, 9) + 30 && MonthStart(y, 11) == MonthStart(y, 10) + 31;
    assert MonthStart(y, 12) == MonthStart(y, 11) + 30;
  }

  /** For every Gregorian date, before the epoch and after it, the arithmetic is the true count. */
  lemma DaysAreCounted(t: Date)
    requires ValidDate(t)
    ensures DaysFromCivil(t.year, t.month, t.day) == CountedDays(t)
  {
    DaysAreMarchCount(t);
    YearStartIsMarchCount(t.year);
    MonthStarts(t.year, t.month);
    if t.month > 2 {
      MarchCountStep(t.year);
    }
  }

  lemma {:induction false} MonthsFillTheYear(y: int, m: int)
    requires 1 <= m <= 12
    ensures MonthStart(y, m) + MonthLength(y, m) <= YearLength(y)
    ensures m == 12 ==> MonthStart(y, m) + MonthLength(y, m) == YearLength(y)
  {
    MonthStarts(y, m);
  }

  lemma {:induction false} MonthsAscend(y: int, m: int, n: int)
    requires 1 <= m < n <= 12
    ensures MonthStart(y, m) + MonthLength(y, m) <= MonthStart(y, n)
    decreases n
  {
    if m < n - 1 {
      MonthsAscend(y, m, n - 1);
    }
  }

  lemma {:induction false} YearsAscend(y: int, z: int)
    requires y < z
    ensures YearStart(y) + YearLength(y) <= YearStart(z)
    decreases z - y
  {
    YearStartIsMarchCount(z);
    YearStartIsMarchCount(z - 1);
    MarchCountStep(z - 1);
    if y < z - 1 {
      YearsAscend(y, z - 1);
    }
  }

  /** 1970-01-01 is day 0, and each date's successor is exactly one day later. */
  lemma EachDayCountsOnce(t: Date)
    requires ValidDate(t)
    ensures DaysFromCivil(1970, 1, 1) == 0
    ensures var n := NextDay(t); DaysFromCivil(n.year, n.month, n.day) == DaysFromCivil(t.year, t.month, t.day) + 1
  {
    DaysAreCounted(Date(1970, 1, 1));
    DaysAreCounted(t);
    DaysAreCounted(NextDay(t));
    NextDayIsCounted(t);
  }

  lemma NextDayIsCounted(t: Date)
    requires ValidDate(t)
    ensures CountedDays(NextDay(t)) == CountedDays(t) + 1
  {
    if t.month == 12 {
      MonthsFillTheYear(t.year, 12);
      YearStartIsMarchCount(t.year + 1);
      YearStartIsMarchCount(t.year);
      MarchCountStep(t.year);
    }
  }

  predicate ValidTime(f: Fields) {
    ValidDate(Date(f.year, f.month, f.day)) && 0 <= f.hour < 24 && 0 <= f.minute < 60 && 0 <= f.second < 60
  }

  /** The second after. */
  function NextSecond(f: Fields): (r: Fields)
    requires ValidTime(f)
    ensures ValidTime(r)
  {
    if f.second < 59 then f.(second := f.second + 1)
    else if f.minute < 59 then f.(minute := f.minute + 1, second := 0)
    else if f.hour < 23 then f.(hour := f.hour + 1, minute := 0, second := 0)
    else
      var n := NextDay(Date(f.year, f.month, f.day));
      Fields(n.year, n.month, n.day, 0, 0, 0)
  }

  /**
   The first second of 1970 is 0, each second after any other is exactly one more, and a text that is too
   short or does not scan is 0.
   */
  lemma EachSecondCountsOnce(f: Fields, length: nat)
    requires ValidTime(f)
    ensures UnixFromIso(19, Some(Fields(1970, 1, 1, 0, 0, 0))) == 0
    ensures length >= 19 ==> UnixFromIso(length, Some(NextSecond(f))) == UnixFromIso(length, Some(f)) + 1
    ensures UnixFromIso(length, None) == 0 && (length < 19 ==> UnixFromIso(length, Some(f)) == 0)
  {
    EachDayCountsOnce(Date(f.year, f.month, f.day));
  }

  predicate Earlier(f: Fields, g: Fields) {
    Before(Date(f.year, f.month, f.day), Date(g.year, g.month, g.day)) ||
    (Date(f.year, f.month, f.day) == Date(g.year, g.month, g.day) &&
     (f.hour < g.hour || (f.hour == g.hour && (f.minute < g.minute || (f.minute == g.minute && f.second < g.second)))))
  }

  lemma DaysAscend(a: Date, b: Date)
    requires ValidDate(a) && ValidDate(b) && Before(a, b)
    ensures CountedDays(a) < CountedDays(b)
  {
    if a.year < b.year {
      YearsAscend(a.year, b.year);
      MonthsFillTheYear(a.year, a.month);
    } else if a.month < b.month {
      MonthsAscend(a.year, a.month, b.month);
    }
  }

  /** A later moment has a larger timestamp, so timestamps compare as the moments they name. */
  lemma TimestampsAscend(f: Fields, g: Fields, length: nat)
    requires ValidTime(f) && ValidTime(g) && Earlier(f, g) && length >= 19
    ensures UnixFromIso(length, Some(f)) < UnixFromIso(length, Some(g))
  {
    var a, b := Date(f.year, f.month, f.day), Date(g.year, g.month, g.day);
    DaysAreCounted(a);
    DaysAreCounted(b);
    if Before(a, b) {
      DaysAscend(a, b);
    }
  }
}
