/**
 * Conversions between Unix time and a UTC calendar date, and the ISO 8601
 * text form `YYYY-MM-DDThh:mm:ss[.SSS]Z`, after Howard Hinnant's
 * days-from-civil and civil-from-days algorithms.
 *
 * Unlike the C library's `tm`, the year here is the full year and the month
 * runs from 1 to 12.
 */
module ConvertChrono {
  import opened Wrappers
  import opened Numbers

  // ---------------------------------------------------------------------------
  // Calendar
  // ---------------------------------------------------------------------------

  /** The `tm` fields the conversions fill and read. */
  datatype Utc = Utc(year: int, month: int, day: int, hour: int, minute: int, second: int)

  /** `tm_ext`: a `tm` and a count of milliseconds. */
  datatype UtcExt = UtcExt(utc: Utc, ms: int)

  /** The upper bound the parser puts on each day of the month: February always allows 29. */
  const DaysInMonth: seq<int> := [31, 29, 31, 30, 31, 30, 31, 31, 30, 31, 30, 31]

  /** Gregorian leap years. */
  predicate IsLeapYear(y: int) {
    y % 4 == 0 && (y % 100 != 0 || y % 400 == 0)
  }

  /** The number of days in the month of the proleptic Gregorian calendar. */
  function MonthLength(year: int, month: int): (n: int)
    requires 1 <= month <= 12
    ensures 28 <= n <= DaysInMonth[month - 1]
    ensures n == DaysInMonth[month - 1] <==> month != 2 || IsLeapYear(year)
  {
    if month == 2 then (if IsLeapYear(year) then 29 else 28) else DaysInMonth[month - 1]
  }

  /** A real date and time of day. */
  predicate ValidUtc(u: Utc) {
    && 1 <= u.month <= 12 && 1 <= u.day <= MonthLength(u.year, u.month)
    && 0 <= u.hour <= 23 && 0 <= u.minute <= 59 && 0 <= u.second <= 59
  }

  /** A calendar date. */
  datatype Date = Date(year: int, month: int, day: int)

  /*
   * Hinnant's algorithms count in 400-year eras that start on 1 March, so
   * that the leap day falls at the end of each counted year. A year of the
   * era (yoe, 0..399) begins on 1 March of calendar year era*400 + yoe.
   */

  /** The number of days of the era before its year `yoe` starts. */
  function DaysBeforeYearOfEra(yoe: int): int {
    365 * yoe + yoe / 4 - yoe / 100
  }

  /** The year of the era that ends with a 29 February. */
  predicate LongYearOfEra(yoe: int) {
    yoe % 4 == 3 && (yoe % 100 != 99 || yoe == 399)
  }

  /** The last day of the year `yoe` of the era, counted from 0. */
  function LastDayOfYear(yoe: int): int {
    if LongYearOfEra(yoe) then 365 else 364
  }

  /** The year of the era holding the day `doe` of the era. */
  function YearOfEra(doe: int): int {
    (doe - doe / 1460 + doe / 36524 - doe / 146096) / 365
  }

  /** The months, counted from March: the day of the year on which month `mp` begins. */
  function DaysBeforeMonth(mp: int): int {
    (153 * mp + 2) / 5
  }

  /** A month 1..12 counted from March instead: March is 0 and February 11. */
  function MonthFromMarch(month: int): int {
    if month > 2 then month - 3 else month + 9
  }

  /** The calendar month 1..12 of a month counted from March. */
  function CalendarMonth(mp: int): int {
    if mp < 10 then mp + 3 else mp - 9
  }

  /** The day of the era of a date in the year `yoe` of the era. */
  function DayOfEra(yoe: int, month: int, day: int): int {
    var doy := DaysBeforeMonth(MonthFromMarch(month)) + day - 1;
    yoe * 365 + yoe / 4 - yoe / 100 + doy
  }

  /** The days since 1970-01-01 of a date: the `days` of `UtcToUnixTime`. */
  function DaysFromCivil(year: int, month: int, day: int): int {
    var y := year - (if month <= 2 then 1 else 0);
    var era := CDiv(if y >= 0 then y else y - 399, 400);
    EraIsFloor(y, 400);
    var yoe := y - era * 400;
    era * 146097 + DayOfEra(yoe, month, day) - 719468
  }

  /** The date of the day `doe` of the era `era`. */
  function DateOfEra(era: int, doe: int): Date {
    var yoe := YearOfEra(doe);
    var doy := doe - DaysBeforeYearOfEra(yoe);
    var mp := (5 * doy + 2) / 153;
    var d := doy - DaysBeforeMonth(mp) + 1;
    var m := CalendarMonth(mp);
    Date(yoe + era * 400 + (if m <= 2 then 1 else 0), m, d)
  }

  /** The date that lies `days` days after 1970-01-01: the date part of `UnixTimeToUtc`. */
  function CivilFromDays(days: int): Date {
    var z := days + 719468;
    var era := CDiv(if z >= 0 then z else z - 146096, 146097);
    DateOfEra(era, z - era * 146097)
  }

  /** Each day of an era has a real date. */
  lemma DateOfEraValid(era: int, doe: int)
    requires 0 <= doe <= 146096
    ensures var r := DateOfEra(era, doe); 1 <= r.month <= 12 && 1 <= r.day <= MonthLength(r.year, r.month)
  {
    var yoe := YearOfEra(doe);
    var doy := doe - DaysBeforeYearOfEra(yoe);
    DayOfEraSplits(doe);
    MonthOfYearSplits(doy, yoe);
    var y := era * 400 + yoe;
    LongYearIsLeap(y, era, yoe);
    DateOfEraOfSplit(era, doe, yoe, doy, (5 * doy + 2) / 153);
  }

  /** Every day count has a real date: the unsigned day of the era `UnixTimeToUtc` computes never wraps. */
  lemma CivilFromDaysValid(days: int)
    ensures var r := CivilFromDays(days); 1 <= r.month <= 12 && 1 <= r.day <= MonthLength(r.year, r.month)
  {
    var z := days + 719468;
    var era := CDiv(if z >= 0 then z else z - 146096, 146097);
    DayOfEraBounds(z);
    var doe := z - era * 146097;
    CivilFromDaysIsDateOfEra(days, era, doe);
    DateOfEraValid(era, doe);
  }

  /** The C++ expression `(z >= 0 ? z : z - (n - 1)) / n` is the floor of z / n. */
  lemma EraIsFloor(z: int, n: int)
    requires n > 0
    ensures CDiv(if z >= 0 then z else z - (n - 1), n) == z / n
  {
    if z < 0 {
      var q := z / n;
      var a := -(z - (n - 1));
      assert a == n * (-q) + (n - 1 - z % n);
      DivModUnique(a, n, -q, n - 1 - z % n);
    }
  }

  /** The year of the era of `doe` lies in 0..399, and `doe` falls within that year. */
  lemma DayOfEraSplits(doe: int)
    requires 0 <= doe <= 146096
    ensures 0 <= YearOfEra(doe) <= 399
    ensures 0 <= doe - DaysBeforeYearOfEra(YearOfEra(doe)) <= LastDayOfYear(YearOfEra(doe))
  {
    var yoe, doy := SplitDayOfEra(doe);
    YearOfEraInverse(yoe, doy);
  }

  /** Every day of the era lies in one of its years: centuries, then four-year cycles, then years, each capped at the era's last (long) one. */
  lemma SplitDayOfEra(doe: int) returns (yoe: int, doy: int)
    requires 0 <= doe <= 146096
    ensures 0 <= yoe <= 399 && 0 <= doy <= LastDayOfYear(yoe)
    ensures doe == DaysBeforeYearOfEra(yoe) + doy
  {
    var c := if doe / 36524 < 3 then doe / 36524 else 3;
    var r1 := doe - 36524 * c;
    var q := if r1 / 1461 < 24 then r1 / 1461 else 24;
    var r2 := r1 - 1461 * q;
    var t := if r2 / 365 < 3 then r2 / 365 else 3;
    doy := r2 - 365 * t;
    yoe := 100 * c + 4 * q + t;
    DivModUnique(yoe, 4, 25 * c + q, t);
    DivModUnique(yoe, 100, c, 4 * q + t);
    DivModUnique(yoe % 100, 4, q, t);
  }

  /** The year of the era is found again from any of its days. */
  lemma YearOfEraInverse(yoe: int, doy: int)
    requires 0 <= yoe <= 399 && 0 <= doy <= LastDayOfYear(yoe)
    ensures YearOfEra(DaysBeforeYearOfEra(yoe) + doy) == yoe
  {
    var c := yoe / 100;
    var r := yoe % 100;
    var q := r / 4;
    var t := r % 4;
    DivModUnique(yoe, 4, 25 * c + q, t);
    assert DaysBeforeYearOfEra(yoe) == 36524 * c + 1461 * q + 365 * t;
    YearOfEraOfParts(c, q, t, doy);
  }

  /** `YearOfEra` of a day given by its century, four-year cycle, year and day within the era. */
  lemma YearOfEraOfParts(c: int, q: int, t: int, doy: int)
    requires 0 <= c <= 3 && 0 <= q <= 24 && 0 <= t <= 3 && 0 <= doy <= 365
    requires doy == 365 ==> t == 3 && (q != 24 || c == 3)
    ensures YearOfEra(36524 * c + 1461 * q + 365 * t + doy) == 100 * c + 4 * q + t
  {
    var doe := 36524 * c + 1461 * q + 365 * t + doy;
    if doe == 146096 {
      assert YearOfEra(doe) == 145999 / 365;
    } else {
      var x := 24 * c + q + 365 * t + doy;
      var e := if x >= 1460 then 1 else 0;
      DivModUnique(doe, 146096, 0, doe);
      DivModUnique(doe, 36524, c, 1461 * q + 365 * t + doy);
      DivModUnique(doe, 1460, 25 * c + q + e, x - 1460 * e);
      var yoe := 100 * c + 4 * q + t;
      DivModUnique(365 * yoe + (doy - e), 365, yoe, doy - e);
    }
  }

  /** Within a year counted from March, the month of a day lies in 0..11 and the day of the month in 1..31. */
  lemma MonthOfYearSplits(doy: int, yoe: int)
    requires 0 <= doy <= LastDayOfYear(yoe)
    ensures var mp := (5 * doy + 2) / 153;
      var m := if mp < 10 then mp + 3 else mp - 9;
      var d := doy - DaysBeforeMonth(mp) + 1;
      && 0 <= mp <= 11 && 1 <= m <= 12
      && 1 <= d <= DaysInMonth[m - 1]
      && (m == 2 && d == 29 ==> LongYearOfEra(yoe))
  {
  }

  /** The long years of the era are the years whose following February has 29 days. */
  lemma LongYearIsLeap(y: int, era: int, yoe: int)
    requires y == era * 400 + yoe && 0 <= yoe <= 399
    ensures LongYearOfEra(yoe) <==> IsLeapYear(y + 1)
  {
    ModAddMultiple(yoe + 1, 4, 100 * era);
    ModAddMultiple(yoe + 1, 100, 4 * era);
    ModAddMultiple(yoe + 1, 400, era);
  }

  /** The date of a day of the era lies in the era's year `YearOfEra(doe)`, and gives back that day. */
  lemma DateOfEraInverse(era: int, doe: int)
    requires 0 <= doe <= 146096
    ensures var r := DateOfEra(era, doe);
      && r.year - (if r.month <= 2 then 1 else 0) == era * 400 + YearOfEra(doe)
      && DayOfEra(YearOfEra(doe), r.month, r.day) == doe
  {
    DayOfEraSplits(doe);
    var yoe := YearOfEra(doe);
    var doy := doe - DaysBeforeYearOfEra(yoe);
    MonthOfYearSplits(doy, yoe);
  }

  /** A real date in the year `yoe` of an era is found again from its day of the era. */
  lemma DayOfEraInverse(era: int, yoe: int, month: int, day: int, doe: int)
    requires 0 <= yoe <= 399 && 1 <= month <= 12
    requires 1 <= day <= DaysInMonth[month - 1] && (month == 2 && day == 29 ==> LongYearOfEra(yoe))
    requires doe == DayOfEra(yoe, month, day)
    ensures 0 <= doe <= 146096
    ensures DateOfEra(era, doe) == Date(era * 400 + yoe + (if month <= 2 then 1 else 0), month, day)
  {
    var mp := MonthFromMarch(month);
    var doy := DaysBeforeMonth(mp) + day - 1;
    MonthOfYearInverse(mp, day, yoe);
    assert CalendarMonth(mp) == month;
    assert doe == DaysBeforeYearOfEra(yoe) + doy;
    YearOfEraInverse(yoe, doy);
    DaysOfEraBound(yoe, doy);
    DateOfEraOfSplit(era, doe, yoe, doy, mp);
  }

  /** The days before a year of the era and a day within that year stay within the era. */
  lemma DaysOfEraBound(yoe: int, doy: int)
    requires 0 <= yoe <= 399 && 0 <= doy <= LastDayOfYear(yoe)
    ensures 0 <= DaysBeforeYearOfEra(yoe) + doy <= 146096
  {
    assert 0 <= yoe / 100 <= yoe / 4 <= 99;
    if yoe < 399 {
      assert 365 * yoe <= 365 * 398;
    }
  }

  /** `DateOfEra` once the year of the era, the day of the year and the month are known. */
  lemma DateOfEraOfSplit(era: int, doe: int, yoe: int, doy: int, mp: int)
    requires YearOfEra(doe) == yoe && doe - DaysBeforeYearOfEra(yoe) == doy && (5 * doy + 2) / 153 == mp
    ensures DateOfEra(era, doe) ==
      Date(yoe + era * 400 + (if CalendarMonth(mp) <= 2 then 1 else 0), CalendarMonth(mp), doy - DaysBeforeMonth(mp) + 1)
  {
  }

  /** The era a day count falls in, as `UnixTimeToUtc` computes it, leaves a day of the era in 0..146096. */
  lemma DayOfEraBounds(z: int)
    ensures var era := CDiv(if z >= 0 then z else z - 146096, 146097);
      0 <= z - era * 146097 <= 146096
  {
    EraIsFloor(z, 146097);
  }

  /** The era is determined by a split into eras and days of the era. */
  lemma EraOfSplit(z: int, n: int, era: int, rest: int)
    requires n > 0 && z == era * n + rest && 0 <= rest < n
    ensures CDiv(if z >= 0 then z else z - (n - 1), n) == era
  {
    EraIsFloor(z, n);
    DivModUnique(z, n, era, rest);
  }

  /** `CivilFromDays` is the date of the day of the era it computes. */
  lemma CivilFromDaysIsDateOfEra(days: int, era: int, doe: int)
    requires era == CDiv(if days + 719468 >= 0 then days + 719468 else days + 719468 - 146096, 146097)
    requires doe == days + 719468 - era * 146097 && 0 <= doe <= 146096
    ensures CivilFromDays(days) == DateOfEra(era, doe)
  {
  }

  /** `DaysFromCivil` finds the era and the day of the era of a date again. */
  lemma DaysFromCivilOfDateOfEra(era: int, doe: int, r: Date)
    requires 0 <= doe <= 146096 && r == DateOfEra(era, doe)
    ensures DaysFromCivil(r.year, r.month, r.day) == era * 146097 + doe - 719468
  {
    DateOfEraInverse(era, doe);
    DayOfEraSplits(doe);
    var y := r.year - (if r.month <= 2 then 1 else 0);
    EraOfSplit(y, 400, era, YearOfEra(doe));
  }

  /** Days and dates are found again from each other. */
  lemma CivilFromDaysInverse(days: int)
    ensures var r := CivilFromDays(days); DaysFromCivil(r.year, r.month, r.day) == days
  {
    var z := days + 719468;
    var era := CDiv(if z >= 0 then z else z - 146096, 146097);
    DayOfEraBounds(z);
    var doe := z - era * 146097;
    CivilFromDaysIsDateOfEra(days, era, doe);
    DaysFromCivilOfDateOfEra(era, doe, CivilFromDays(days));
  }

  /** `DaysFromCivil` splits the year, counted from March, into an era and a year of the era. */
  lemma DaysFromCivilSplit(year: int, month: int, day: int) returns (era: int, yoe: int, doe: int)
    ensures 0 <= yoe <= 399 && year - (if month <= 2 then 1 else 0) == era * 400 + yoe
    ensures doe == DayOfEra(yoe, month, day)
    ensures DaysFromCivil(year, month, day) == era * 146097 + doe - 719468
  {
    var y := year - (if month <= 2 then 1 else 0);
    era := CDiv(if y >= 0 then y else y - 399, 400);
    EraIsFloor(y, 400);
    yoe := y - era * 400;
    doe := DayOfEra(yoe, month, day);
  }

  /** The day count of a day of an era is converted back to that day's date. */
  lemma CivilFromDaysOfEra(era: int, doe: int, days: int)
    requires 0 <= doe <= 146096 && days == era * 146097 + doe - 719468
    ensures CivilFromDays(days) == DateOfEra(era, doe)
  {
    EraOfSplit(days + 719468, 146097, era, doe);
    CivilFromDaysIsDateOfEra(days, era, doe);
  }

  /** A real date survives the trip to a day count and back. */
  lemma DaysFromCivilInverse(year: int, month: int, day: int)
    requires 1 <= month <= 12 && 1 <= day <= MonthLength(year, month)
    ensures CivilFromDays(DaysFromCivil(year, month, day)) == Date(year, month, day)
  {
    var era, yoe, doe := DaysFromCivilSplit(year, month, day);
    LongYearIsLeap(year - (if month <= 2 then 1 else 0), era, yoe);
    DayOfEraInverse(era, yoe, month, day, doe);
    CivilFromDaysOfEra(era, doe, DaysFromCivil(year, month, day));
  }

  /** The month and the day of the month are found again from the day of a year counted from March. */
  lemma MonthOfYearInverse(mp: int, day: int, yoe: int)
    requires 0 <= mp <= 11
    requires var m := if mp < 10 then mp + 3 else mp - 9;
      1 <= day <= DaysInMonth[m - 1] && (m == 2 && day == 29 ==> LongYearOfEra(yoe))
    ensures var doy := DaysBeforeMonth(mp) + day - 1;
      && 0 <= doy <= LastDayOfYear(yoe)
      && (5 * doy + 2) / 153 == mp
      && CalendarMonth(mp) == if mp < 10 then mp + 3 else mp - 9
  {
  }

  // ---------------------------------------------------------------------------
  // Unix time
  // ---------------------------------------------------------------------------

  /**
   * The first step of `UnixTimeToUtc`: the whole days of `t` and the seconds
   * left over, both from C++ division, which truncates; the day is stepped
   * back once when the seconds are negative.
   */
  function DaysAndTime(t: int): (r: (int, int))
    ensures -86400 < r.1 < 86400
  {
    var days := CDiv(t, 86400);
    var time := t - days * 86400;
    (if time < 0 then days - 1 else days, time)
  }

  /** The hour, minute and second of `UnixTimeToUtc`, with its correction for a negative time of day before the epoch. */
  function ClockFields(time: int): (r: (int, int, int))
    requires -86400 < time < 86400
    ensures r == Hms(if time < 0 then time + 86400 else time)
  {
    var hour := CDiv(time, 3600);
    var minute := CDiv(CMod(time, 3600), 60);
    var second := CMod(time, 60);
    if time < 0 then
      ClockFieldsAdjust(time);
      var sec := if second < 0 then second + 60 else second;
      var min := minute + (if sec == 0 then 60 else 59);
      if min == 60 then (hour + 24, 0, sec) else (hour + 23, min, sec)
    else
      (hour, minute, second)
  }

  /** The hours, minutes and seconds of the second `tod` of a day. */
  function Hms(tod: int): (int, int, int) {
    (tod / 3600, tod % 3600 / 60, tod % 60)
  }

  /** The fields of `Hms` are a time of day, and they add up to the second they came from. */
  lemma HmsInverse(tod: int)
    requires 0 <= tod < 86400
    ensures var (h, m, s) := Hms(tod);
      && 0 <= h <= 23 && 0 <= m <= 59 && 0 <= s <= 59
      && h * 3600 + m * 60 + s == tod
  {
    var r := tod % 3600;
    DivModUnique(r, 60, r / 60, r % 60);
    DivModUnique(tod, 60, 60 * (tod / 3600) + r / 60, r % 60);
  }

  /** A time of day is found again from its second of the day. */
  lemma HmsOfFields(h: int, m: int, s: int)
    requires 0 <= h && 0 <= m <= 59 && 0 <= s <= 59
    ensures Hms(h * 3600 + m * 60 + s) == (h, m, s)
  {
    var tod := h * 3600 + m * 60 + s;
    DivModUnique(tod, 3600, h, m * 60 + s);
    DivModUnique(m * 60 + s, 60, m, s);
    DivModUnique(tod, 60, 60 * h + m, s);
  }

  /** The correction `UnixTimeToUtc` makes before the epoch turns the truncated fields of a negative time into those of the same second counted from the start of the day. */
  lemma ClockFieldsAdjust(time: int)
    requires -86400 < time < 0
    ensures var hour := CDiv(time, 3600);
      var minute := CDiv(CMod(time, 3600), 60);
      var second := CMod(time, 60);
      var sec := if second < 0 then second + 60 else second;
      var min := minute + (if sec == 0 then 60 else 59);
      (if min == 60 then (hour + 24, 0, sec) else (hour + 23, min, sec)) == Hms(time + 86400)
  {
    var n := -time;
    HmsInverse(n);
    var (h, m, s) := Hms(n);
    assert CDiv(time, 3600) == -h;
    assert CMod(time, 3600) == -(m * 60 + s);
    DivModUnique(m * 60 + s, 60, m, s);
    assert CDiv(CMod(time, 3600), 60) == -m;
    DivModUnique(n, 60, 60 * h + m, s);
    assert CMod(time, 60) == -s;
    if s > 0 {
      HmsOfFields(23 - h, 59 - m, 60 - s);
    } else if m > 0 {
      HmsOfFields(23 - h, 60 - m, 0);
    } else {
      HmsOfFields(24 - h, 0, 0);
    }
  }

  /** The split of `UnixTimeToUtc` is floor division, whatever the sign of `t`. */
  lemma DaysAndTimeIsFloor(t: int)
    ensures DaysAndTime(t).0 == t / 86400
    ensures t % 86400 == if DaysAndTime(t).1 < 0 then DaysAndTime(t).1 + 86400 else DaysAndTime(t).1
  {
    var (days, time) := DaysAndTime(t);
    if time < 0 {
      DivModUnique(t, 86400, days, time + 86400);
    } else {
      DivModUnique(t, 86400, days, time);
    }
  }

  /** `UnixTimeToUtc`: the UTC date and time of the Unix time `t`. */
  function UnixTimeToUtc(t: int): (r: Utc)
    ensures ValidUtc(r)
  {
    var (days, time) := DaysAndTime(t);
    var date := CivilFromDays(days);
    var (hour, minute, second) := ClockFields(time);
    CivilFromDaysValid(days);
    HmsInverse(if time < 0 then time + 86400 else time);
    Utc(date.year, date.month, date.day, hour, minute, second)
  }

  /**
   * `UtcToUnixTime`: the Unix time of a UTC date and time. For clock fields
   * within a day, the time lies on the day `DaysFromCivil` counts, at the
   * second of the day the fields name.
   */
  function UtcToUnixTime(u: Utc): (r: int)
    ensures 0 <= u.hour <= 23 && 0 <= u.minute <= 59 && 0 <= u.second <= 59 ==>
      r / 86400 == DaysFromCivil(u.year, u.month, u.day) && r % 86400 == u.hour * 3600 + u.minute * 60 + u.second
  {
    var days := DaysFromCivil(u.year, u.month, u.day);
    var tod := u.hour * 3600 + u.minute * 60 + u.second;
    assert 0 <= u.hour <= 23 && 0 <= u.minute <= 59 && 0 <= u.second <= 59 ==>
      (days * 86400 + tod) / 86400 == days && (days * 86400 + tod) % 86400 == tod
    by {
      if 0 <= u.hour <= 23 && 0 <= u.minute <= 59 && 0 <= u.second <= 59 {
        assert 0 <= tod < 86400 by {
          assert u.hour * 3600 <= 23 * 3600;
        }
        DivModUnique(days * 86400 + tod, 86400, days, tod);
      }
    }
    days * 86400 + tod
  }

  /** `UnixTimeToUtc` is the date of the floor of t / 86400 days and the time of day of the remaining seconds. */
  lemma UnixTimeToUtcParts(t: int, days: int, tod: int)
    requires days == t / 86400 && tod == t % 86400
    ensures var date := CivilFromDays(days);
      var (h, m, s) := Hms(tod);
      UnixTimeToUtc(t) == Utc(date.year, date.month, date.day, h, m, s)
  {
    DaysAndTimeIsFloor(t);
  }

  /** Converting Unix time to UTC and back gives the same time, before the epoch as well as after it. */
  lemma UnixTimeRoundTrip(t: int)
    ensures UtcToUnixTime(UnixTimeToUtc(t)) == t
  {
    UnixTimeToUtcParts(t, t / 86400, t % 86400);
    CivilFromDaysInverse(t / 86400);
    HmsInverse(t % 86400);
  }

  /**
   * `UtcToUnixTime` computes `era * 146097 + doe` and the day count in
   * `int`. Up to the year 5879609 both fit, so the unbounded arithmetic
   * here is the C++ arithmetic; past it they overflow.
   */
  lemma DayCountFitsInt(year: int, month: int, day: int)
    requires 0 <= year <= 5879609 && 1 <= month <= 12 && 1 <= day <= 31
    ensures var days := DaysFromCivil(year, month, day);
      -IntMax - 1 <= days && days + 719468 <= IntMax
  {
    var y := year - (if month <= 2 then 1 else 0);
    EraIsFloor(y, 400);
    var era := y / 400;
    var yoe := y - era * 400;
    assert -1 <= era <= 14699;
    var doy := DaysBeforeMonth(MonthFromMarch(month)) + day - 1;
    assert 0 <= doy <= 367;
    assert 0 <= yoe * 365 + yoe / 4 - yoe / 100 <= 145731;
    if era == 14699 {
      assert yoe <= 9;
    }
  }

  /** The last day of the year 5879611 is past that bound: its `era * 146097 + doe` exceeds `INT_MAX`. */
  lemma DayCountOverflowsInt()
    ensures DaysFromCivil(5879611, 12, 31) + 719468 > IntMax
  {
    EraIsFloor(5879611, 400);
  }

  /** Converting a real UTC date and time to Unix time and back gives the same fields. */
  lemma UtcRoundTrip(u: Utc)
    requires ValidUtc(u)
    ensures UnixTimeToUtc(UtcToUnixTime(u)) == u
  {
    var t := UtcToUnixTime(u);
    var days := DaysFromCivil(u.year, u.month, u.day);
    var tod := u.hour * 3600 + u.minute * 60 + u.second;
    assert 0 <= tod < 86400 by {
      assert u.hour * 3600 <= 23 * 3600;
    }
    assert t == 86400 * days + tod;
    DivModUnique(t, 86400, days, tod);
    UnixTimeToUtcParts(t, days, tod);
    HmsOfFields(u.hour, u.minute, u.second);
    DaysFromCivilInverse(u.year, u.month, u.day);
    assert CivilFromDays(days) == Date(u.year, u.month, u.day);
    assert Hms(tod) == (u.hour, u.minute, u.second);
  }

  // ---------------------------------------------------------------------------
  // ISO 8601 text
  // ---------------------------------------------------------------------------

  /** The `%04d-%02d-%02dT%02d:%02d:%02d` both formatters start with. */
  function FormatDateTime(u: Utc): string {
    DateText(u) + TimeText(u)
  }

  /** `%04d-%02d-%02dT`. */
  function DateText(u: Utc): string {
    ZeroPad(u.year, 4) + "-" + ZeroPad(u.month, 2) + "-" + ZeroPad(u.day, 2) + "T"
  }

  /** `%02d:%02d:%02d`. */
  function TimeText(u: Utc): string {
    ZeroPad(u.hour, 2) + ":" + ZeroPad(u.minute, 2) + ":" + ZeroPad(u.second, 2)
  }

  /** `To(tm)`: the text `%04d-%02d-%02dT%02d:%02d:%02dZ`. */
  function FormatUtc(u: Utc): (s: string)
    ensures |s| >= 20 && s[|s| - 1] == 'Z'
  {
    FormatDateTime(u) + "Z"
  }

  /** `To(tm_ext)`: the same text with `.%03d` milliseconds before the `Z`. */
  function FormatUtcExt(e: UtcExt): (s: string)
    ensures |s| >= 24 && s[|s| - 1] == 'Z'
  {
    FormatDateTime(e.utc) + "." + ZeroPad(e.ms, 3) + "Z"
  }

  /** The exceptions of the ISO conversions. */
  datatype ParseError =
    | /** `std::invalid_argument`: "Input string is not a valid ISO datetime: YYYY-MM-DDThh:mm:ss[.SSS]Z". */
      NotIsoDatetime
    | /** `std::invalid_argument`: "Input datetime contains out-of-bounds values". */
      OutOfBoundsValue
    | /** Not an exception: the parser as written reads `DaysInMonth[-1]`, which C++ leaves undefined. */
      DaysInMonthIndexedBelowZero
    | /** `std::out_of_range`: "Target timepoint range is not enough to store parsed datetime". */
      TimePointOutOfRange

  /** The largest `int`: `std::from_chars` fails on a number above it. */
  const IntMax := 2147483647

  /**
   * `std::from_chars` on the digits that start at `pos`: each digit read
   * multiplies what was read so far by ten and adds itself; reading stops at
   * the first character that is not a digit.
   */
  function ReadDigits(s: string, pos: nat, acc: nat): (r: Part)
    requires pos <= |s|
    ensures pos <= r.next <= |s| && r.value >= acc
    ensures pos < |s| && IsDigit(s[pos]) ==> r.next > pos
    decreases |s| - pos
  {
    if pos < |s| && IsDigit(s[pos]) then ReadDigits(s, pos + 1, 10 * acc + DigitValue(s[pos]))
    else Part(acc, pos)
  }

  /** A field read by `parseDatetimePart`: its value and the position after it and its delimiter. */
  datatype Part = Part(value: int, next: nat)

  /**
   * `parseDatetimePart`: the field must start with a digit; `std::from_chars`
   * then reads every digit that follows and fails when the number does not
   * fit an `int`. A non-zero `maxValue` bounds the value from above only. A
   * delimiter, when one is given, must come next and is skipped.
   */
  function ParsePart(s: string, pos: nat, maxValue: int, delimiter: Option<char>): (r: Result<Part, ParseError>)
    requires pos <= |s|
    ensures r.Success? ==> pos < r.value.next <= |s| && 0 <= r.value.value <= IntMax
    ensures r.Success? && maxValue != 0 ==> r.value.value <= maxValue
    ensures r.Success? && delimiter.Some? ==> s[r.value.next - 1] == delimiter.value
  {
    if pos == |s| || !IsDigit(s[pos]) then Failure(NotIsoDatetime)
    else
      var number := ReadDigits(s, pos, 0);
      var v, end := number.value, number.next;
      if v > IntMax then Failure(NotIsoDatetime)
      else if maxValue != 0 && v > maxValue then Failure(OutOfBoundsValue)
      else match delimiter
        case None => Success(Part(v, end))
        case Some(c) =>
          if end < |s| && s[end] == c then Success(Part(v, end + 1))
          else Failure(NotIsoDatetime)
  }

  /**
   * The parser `To(string_view, tm_ext&)`, with the lower bound 1 on the month
   * and the day that its upper-bound checks leave out: a month or a day 00
   * is out of bounds. A `.` after the seconds starts the milliseconds, which
   * end with `Z`; otherwise a `Z` must follow the seconds. Text after the `Z`
   * is not looked at.
   */
  function ParseIso(s: string): (r: Result<UtcExt, ParseError>)
    ensures r.Success? ==> var u := r.value.utc;
      && 0 <= u.year <= IntMax && 1 <= u.month <= 12 && 1 <= u.day <= DaysInMonth[u.month - 1]
      && 0 <= u.hour <= 23 && 0 <= u.minute <= 59 && 0 <= u.second <= 59
      && 0 <= r.value.ms <= 999
  {
    ParseFields(s, true)
  }

  /** The parser as written: nothing stops a month or a day 00, and the month 00 selects `DaysInMonth[-1]`. */
  function ParseIsoAsWritten(s: string): (r: Result<UtcExt, ParseError>)
    ensures r.Success? ==> var u := r.value.utc;
      && 0 <= u.year <= IntMax && 1 <= u.month <= 12 && 0 <= u.day <= DaysInMonth[u.month - 1]
      && 0 <= u.hour <= 23 && 0 <= u.minute <= 59 && 0 <= u.second <= 59
      && 0 <= r.value.ms <= 999
  {
    ParseFields(s, false)
  }

  /** The steps of the parser; `rejectZero` adds the lower bound on the month and the day. */
  function ParseFields(s: string, rejectZero: bool): (r: Result<UtcExt, ParseError>)
    ensures r.Success? ==> var u := r.value.utc;
      && 0 <= u.year <= IntMax && 1 <= u.month <= 12 && 0 <= u.day <= DaysInMonth[u.month - 1]
      && (rejectZero ==> u.day >= 1)
      && 0 <= u.hour <= 23 && 0 <= u.minute <= 59 && 0 <= u.second <= 59
      && 0 <= r.value.ms <= 999
  {
    var date :- ParseDate(s, rejectZero);
    var time :- ParseTime(s, date.next);
    var ms :- ParseMilliseconds(s, time.next);
    Success(UtcExt(Utc(date.year, date.month, date.day, time.hour, time.minute, time.second), ms))
  }

  /** The date fields and the position after the `T`. */
  datatype DatePart = DatePart(year: int, month: int, day: int, next: nat)

  /** The time fields and the position after the seconds. */
  datatype TimePart = TimePart(hour: int, minute: int, second: int, next: nat)

  /** `YYYY-MM-DDT`: the month is at most 12 and the day at most `DaysInMonth[month - 1]`. */
  function ParseDate(s: string, rejectZero: bool): (r: Result<DatePart, ParseError>)
    ensures r.Success? ==>
      && r.value.next <= |s|
      && 0 <= r.value.year <= IntMax && 1 <= r.value.month <= 12
      && 0 <= r.value.day <= DaysInMonth[r.value.month - 1] && (rejectZero ==> r.value.day >= 1)
  {
    var year :- ParsePart(s, 0, 0, Some('-'));
    var month :- ParsePart(s, year.next, 12, Some('-'));
    if month.value == 0 then
      (if rejectZero then Failure(OutOfBoundsValue) else Failure(DaysInMonthIndexedBelowZero))
    else
      var day :- ParsePart(s, month.next, DaysInMonth[month.value - 1], Some('T'));
      if rejectZero && day.value == 0 then Failure(OutOfBoundsValue)
      else Success(DatePart(year.value, month.value, day.value, day.next))
  }

  /** `hh:mm:ss`: at most 23, 59 and 59. */
  function ParseTime(s: string, pos: nat): (r: Result<TimePart, ParseError>)
    requires pos <= |s|
    ensures r.Success? ==>
      && r.value.next <= |s|
      && 0 <= r.value.hour <= 23 && 0 <= r.value.minute <= 59 && 0 <= r.value.second <= 59
  {
    var hour :- ParsePart(s, pos, 23, Some(':'));
    var minute :- ParsePart(s, hour.next, 59, Some(':'));
    var second :- ParsePart(s, minute.next, 59, None);
    Success(TimePart(hour.value, minute.value, second.value, second.next))
  }

  /** `.SSSZ` or `Z`: the milliseconds, 0 when there are none. */
  function ParseMilliseconds(s: string, pos: nat): (r: Result<int, ParseError>)
    requires pos <= |s|
    ensures r.Success? ==> 0 <= r.value <= 999
  {
    if pos < |s| && s[pos] == '.' then
      var ms :- ParsePart(s, pos + 1, 999, Some('Z'));
      Success(ms.value)
    else if pos < |s| && s[pos] == 'Z' then
      Success(0)
    else
      Failure(NotIsoDatetime)
  }

  /** The fields the parser accepts: a year it can read (no sign, at most `IntMax`) and the bounds it checks. */
  predicate InParserBounds(e: UtcExt) {
    var u := e.utc;
    && 0 <= u.year <= IntMax && 1 <= u.month <= 12 && 1 <= u.day <= DaysInMonth[u.month - 1]
    && 0 <= u.hour <= 23 && 0 <= u.minute <= 59 && 0 <= u.second <= 59
    && 0 <= e.ms <= 999
  }

  /** A digit in front of `k` more adds its value times `10^k`. */
  lemma {:induction false} DecimalValueCons(c: char, t: string)
    requires IsDigit(c) && forall i :: 0 <= i < |t| ==> IsDigit(t[i])
    ensures forall i :: 0 <= i < |[c] + t| ==> IsDigit(([c] + t)[i])
    ensures DecimalValue([c] + t) == DigitValue(c) * Pow10(|t|) + DecimalValue(t)
    decreases |t|
  {
    if t != [] {
      var init := t[..|t| - 1];
      var d, p := DigitValue(c), Pow10(|init|);
      DecimalValueCons(c, init);
      assert ([c] + t)[..|t|] == [c] + init;
      assert DecimalValue([c] + t) == 10 * DecimalValue([c] + init) + DigitValue(t[|t| - 1]);
      assert DecimalValue(t) == 10 * DecimalValue(init) + DigitValue(t[|t| - 1]);
      assert Pow10(|t|) == 10 * p;
      ScaleDigit(d, p, DecimalValue(init));
    }
  }

  /** `10 * (d * p + v) == d * (10 * p) + 10 * v`. */
  lemma ScaleDigit(d: int, p: int, v: int)
    ensures 10 * (d * p + v) == d * (10 * p) + 10 * v
  {
  }

  /** Reading a run of `k` digits that ends at a non-digit or at the end gives their value after `acc`. */
  lemma {:induction false} ReadDigitsOfRun(s: string, pos: nat, k: nat, acc: nat)
    requires pos + k <= |s| && forall i :: pos <= i < pos + k ==> IsDigit(s[i])
    requires pos + k == |s| || !IsDigit(s[pos + k])
    ensures ReadDigits(s, pos, acc) == Part(acc * Pow10(k) + DecimalValue(s[pos..pos + k]), pos + k)
    decreases k
  {
    if k == 0 {
      assert s[pos..pos + k] == [];
    } else {
      var d := DigitValue(s[pos]);
      var p := Pow10(k - 1);
      var rest := s[pos + 1..pos + k];
      ReadDigitsOfRun(s, pos + 1, k - 1, 10 * acc + d);
      assert ReadDigits(s, pos, acc) == ReadDigits(s, pos + 1, 10 * acc + d);
      DecimalValueCons(s[pos], rest);
      assert [s[pos]] + rest == s[pos..pos + k];
      AccumulateDigit(acc, d, p);
    }
  }

  /** `(10 * acc + d) * p == acc * (10 * p) + d * p`. */
  lemma AccumulateDigit(acc: int, d: int, p: int)
    ensures (10 * acc + d) * p == acc * (10 * p) + d * p
  {
  }

  /** `f` is a non-empty run of digits whose value is `n`. */
  predicate Spells(f: string, n: int) {
    |f| > 0 && (forall i :: 0 <= i < |f| ==> IsDigit(f[i])) && DecimalValue(f) == n
  }

  /** The formatter writes a non-negative field as digits that spell it. */
  lemma ZeroPadSpells(n: int, width: nat)
    requires n >= 0 && width >= 1
    ensures Spells(ZeroPad(n, width), n)
  {
    DecimalValueOfZeroPad(n, width);
  }

  /** `std::from_chars` at `pos` reads the number `n` and stops at `end`. */
  predicate NumberAt(s: string, pos: nat, n: int, end: nat) {
    pos < end <= |s| && IsDigit(s[pos]) && ReadDigits(s, pos, 0) == Part(n, end)
  }

  /** A field spelled by `f` at `pos`, and not followed by a digit, reads as its value. */
  lemma NumberOfField(s: string, pos: nat, f: string, n: int)
    requires pos + |f| <= |s| && s[pos..pos + |f|] == f && Spells(f, n)
    requires pos + |f| == |s| || !IsDigit(s[pos + |f|])
    ensures NumberAt(s, pos, n, pos + |f|)
  {
    assert forall i :: pos <= i < pos + |f| ==> s[i] == f[i - pos];
    ReadDigitsOfRun(s, pos, |f|, 0);
  }

  /** The two digits of `n` at `pos`, followed by a non-digit, read as `n`. */
  lemma NumberOfTwoDigits(s: string, pos: nat, n: int)
    requires 0 <= n < 100 && pos + 2 < |s| && !IsDigit(s[pos + 2])
    requires s[pos] == DigitChar(n / 10) && s[pos + 1] == DigitChar(n % 10)
    ensures NumberAt(s, pos, n, pos + 2)
  {
    assert ReadDigits(s, pos, 0) == ReadDigits(s, pos + 1, n / 10);
    assert ReadDigits(s, pos + 1, n / 10) == ReadDigits(s, pos + 2, n);
  }

  /** The three digits of `n` at `pos`, followed by a non-digit, read as `n`. */
  lemma NumberOfThreeDigits(s: string, pos: nat, n: int)
    requires 0 <= n < 1000 && pos + 3 < |s| && !IsDigit(s[pos + 3])
    requires s[pos] == DigitChar(n / 100) && s[pos + 1] == DigitChar(n / 10 % 10) && s[pos + 2] == DigitChar(n % 10)
    ensures NumberAt(s, pos, n, pos + 3)
  {
    assert DigitValue(s[pos]) == n / 100 && DigitValue(s[pos + 1]) == n / 10 % 10;
    assert 10 * (n / 100) + n / 10 % 10 == n / 10 && 10 * (n / 10) + n % 10 == n;
    assert ReadDigits(s, pos, 0) == ReadDigits(s, pos + 1, n / 100);
    assert ReadDigits(s, pos + 1, n / 100) == ReadDigits(s, pos + 2, n / 10);
    assert ReadDigits(s, pos + 2, n / 10) == ReadDigits(s, pos + 3, n);
  }

  /** `parseDatetimePart` accepts a number that fits `int` and `maxValue`, followed by its delimiter. */
  lemma ParsePartOfNumber(s: string, pos: nat, n: int, end: nat, maxValue: int, delimiter: Option<char>)
    requires NumberAt(s, pos, n, end) && n <= IntMax && (maxValue == 0 || n <= maxValue)
    requires delimiter.Some? ==> end < |s| && s[end] == delimiter.value
    ensures ParsePart(s, pos, maxValue, delimiter) == Success(Part(n, if delimiter.Some? then end + 1 else end))
  {
  }

  /**
   * The date and time numbers of `e`, with the parser's delimiters after
   * them, when the year takes the first `y` characters: every other field
   * has two digits.
   */
  predicate NumbersAt(s: string, e: UtcExt, y: nat) {
    var u := e.utc;
    && y + 15 < |s|
    && NumberAt(s, 0, u.year, y) && s[y] == '-'
    && NumberAt(s, y + 1, u.month, y + 3) && s[y + 3] == '-'
    && NumberAt(s, y + 4, u.day, y + 6) && s[y + 6] == 'T'
    && NumberAt(s, y + 7, u.hour, y + 9) && s[y + 9] == ':'
    && NumberAt(s, y + 10, u.minute, y + 12) && s[y + 12] == ':'
    && NumberAt(s, y + 13, u.second, y + 15)
  }

  /** At `pos`: `.`, the three digits of the milliseconds of `e` and `Z`; or `Z` alone when `e` has none. */
  predicate MillisecondsAt(s: string, e: UtcExt, pos: nat, withMs: bool) {
    && pos < |s|
    && (withMs ==> s[pos] == '.' && NumberAt(s, pos + 1, e.ms, pos + 4) && pos + 4 < |s| && s[pos + 4] == 'Z')
    && (!withMs ==> s[pos] == 'Z' && e.ms == 0)
  }

  /** The fields the parser as written lets through: the same, except that the day may be 00. */
  predicate InParserBoundsAsWritten(e: UtcExt) {
    var u := e.utc;
    && 0 <= u.year <= IntMax && 1 <= u.month <= 12 && 0 <= u.day <= DaysInMonth[u.month - 1]
    && 0 <= u.hour <= 23 && 0 <= u.minute <= 59 && 0 <= u.second <= 59
    && 0 <= e.ms <= 999
  }

  /** The fields the parser lets through, as written (`rejectZero` false) or corrected. */
  predicate Accepted(e: UtcExt, rejectZero: bool) {
    if rejectZero then InParserBounds(e) else InParserBoundsAsWritten(e)
  }

  /** The parser succeeds with `e` once each of its three stages does. */
  lemma ParseFieldsOfStages(s: string, e: UtcExt, pd: nat, pt: nat, rejectZero: bool)
    requires Accepted(e, rejectZero) && pd <= |s| && pt <= |s|
    requires ParseDate(s, rejectZero) == Success(DatePart(e.utc.year, e.utc.month, e.utc.day, pd))
    requires ParseTime(s, pd) == Success(TimePart(e.utc.hour, e.utc.minute, e.utc.second, pt))
    requires ParseMilliseconds(s, pt) == Success(e.ms)
    ensures ParseFields(s, rejectZero) == Success(e)
  {
  }

  /** `ParseDate` reads the date numbers back; the corrected parser then refuses the day 00. */
  lemma ParseDateOfNumbers(s: string, e: UtcExt, y: nat, rejectZero: bool)
    requires InParserBoundsAsWritten(e) && NumbersAt(s, e, y)
    ensures ParseDate(s, rejectZero) ==
      if rejectZero && e.utc.day == 0 then Failure(OutOfBoundsValue)
      else Success(DatePart(e.utc.year, e.utc.month, e.utc.day, y + 7))
  {
    var u := e.utc;
    ParsePartOfNumber(s, 0, u.year, y, 0, Some('-'));
    ParsePartOfNumber(s, y + 1, u.month, y + 3, 12, Some('-'));
    ParsePartOfNumber(s, y + 4, u.day, y + 6, DaysInMonth[u.month - 1], Some('T'));
  }

  /** `ParseDate` reads the month 00 and stops there. */
  lemma ParseDateOfMonthZero(s: string, e: UtcExt, y: nat, rejectZero: bool)
    requires 0 <= e.utc.year <= IntMax && e.utc.month == 0 && NumbersAt(s, e, y)
    ensures ParseDate(s, rejectZero) ==
      if rejectZero then Failure(OutOfBoundsValue) else Failure(DaysInMonthIndexedBelowZero)
  {
    ParsePartOfNumber(s, 0, e.utc.year, y, 0, Some('-'));
    ParsePartOfNumber(s, y + 1, 0, y + 3, 12, Some('-'));
  }

  /** `ParseTime` reads the time numbers back. */
  lemma ParseTimeOfNumbers(s: string, e: UtcExt, y: nat)
    requires 0 <= e.utc.hour <= 23 && 0 <= e.utc.minute <= 59 && 0 <= e.utc.second <= 59
    requires NumbersAt(s, e, y)
    ensures ParseTime(s, y + 7) == Success(TimePart(e.utc.hour, e.utc.minute, e.utc.second, y + 15))
  {
    var u := e.utc;
    ParsePartOfNumber(s, y + 7, u.hour, y + 9, 23, Some(':'));
    ParsePartOfNumber(s, y + 10, u.minute, y + 12, 59, Some(':'));
    ParsePartOfNumber(s, y + 13, u.second, y + 15, 59, None);
  }

  /** `ParseMilliseconds` reads `.SSSZ` back, and `Z` alone as no milliseconds. */
  lemma ParseMillisecondsOfNumber(s: string, e: UtcExt, pos: nat, withMs: bool)
    requires 0 <= e.ms <= 999 && MillisecondsAt(s, e, pos, withMs)
    ensures ParseMilliseconds(s, pos) == Success(e.ms)
  {
    if withMs {
      ParsePartOfNumber(s, pos + 1, e.ms, pos + 4, 999, Some('Z'));
    }
  }

  /** The parser reads back every number where it expects it. */
  lemma ParseFieldsOfNumbers(s: string, e: UtcExt, y: nat, withMs: bool, rejectZero: bool)
    requires Accepted(e, rejectZero) && NumbersAt(s, e, y) && MillisecondsAt(s, e, y + 15, withMs)
    ensures ParseFields(s, rejectZero) == Success(e)
  {
    ParseDateOfNumbers(s, e, y, rejectZero);
    ParseTimeOfNumbers(s, e, y);
    ParseMillisecondsOfNumber(s, e, y + 15, withMs);
    ParseFieldsOfStages(s, e, y + 7, y + 15, rejectZero);
  }

  /** No month has more than 31 days, so the fields the parser accepts are printed in their minimum width. */
  lemma AcceptedIsPrintable(e: UtcExt)
    requires InParserBoundsAsWritten(e)
    ensures Printable(e)
  {
    assert forall i :: 0 <= i < |DaysInMonth| ==> DaysInMonth[i] <= 31;
  }

  /**
   * The corrected parser reads back every number where it expects it. Stated
   * as an implication so that a caller holding a concrete text only has to
   * supply the facts, not unfold them.
   */
  lemma ParsedFromNumbers(s: string, e: UtcExt, y: nat, withMs: bool)
    ensures InParserBounds(e) && NumbersAt(s, e, y) && MillisecondsAt(s, e, y + 15, withMs) ==> ParseIso(s) == Success(e)
  {
    if InParserBounds(e) && NumbersAt(s, e, y) && MillisecondsAt(s, e, y + 15, withMs) {
      ParseFieldsOfNumbers(s, e, y, withMs, true);
    }
  }

  /** The parser as written reads back the day 00, which the corrected parser refuses. */
  lemma ParsedDayZero(s: string, e: UtcExt, y: nat, withMs: bool)
    ensures InParserBoundsAsWritten(e) && e.utc.day == 0 && NumbersAt(s, e, y) && MillisecondsAt(s, e, y + 15, withMs) ==>
      ParseIsoAsWritten(s) == Success(e) && ParseIso(s) == Failure(OutOfBoundsValue)
  {
    if InParserBoundsAsWritten(e) && e.utc.day == 0 && NumbersAt(s, e, y) && MillisecondsAt(s, e, y + 15, withMs) {
      ParseFieldsOfNumbers(s, e, y, withMs, false);
      ParseDateOfNumbers(s, e, y, true);
    }
  }

  /** Both parsers stop at the month 00, the corrected one before it reaches `DaysInMonth`. */
  lemma ParsedMonthZero(s: string, e: UtcExt, y: nat)
    ensures 0 <= e.utc.year <= IntMax && e.utc.month == 0 && NumbersAt(s, e, y) ==>
      && ParseIsoAsWritten(s) == Failure(DaysInMonthIndexedBelowZero)
      && ParseIso(s) == Failure(OutOfBoundsValue)
  {
    if 0 <= e.utc.year <= IntMax && e.utc.month == 0 && NumbersAt(s, e, y) {
      ParseDateOfMonthZero(s, e, y, false);
      ParseDateOfMonthZero(s, e, y, true);
    }
  }

  /** The parser reads the date and the time, and then refuses milliseconds above 999. */
  lemma ParsedWideMilliseconds(s: string, e: UtcExt, y: nat)
    ensures
      && InParserBounds(e.(ms := 0)) && 1000 <= e.ms <= IntMax && NumbersAt(s, e.(ms := 0), y)
      && y + 15 <= |s| && s[y + 15..] == ['.'] + ZeroPad(e.ms, 3) + ['Z']
      ==> ParseIso(s) == Failure(OutOfBoundsValue)
  {
    if && InParserBounds(e.(ms := 0)) && 1000 <= e.ms <= IntMax && NumbersAt(s, e.(ms := 0), y)
       && y + 15 <= |s| && s[y + 15..] == ['.'] + ZeroPad(e.ms, 3) + ['Z']
    {
      ZeroPadSpells(e.ms, 3);
      MillisecondsTooWide(s, y + 15, ZeroPad(e.ms, 3), e.ms);
      ParseDateOfNumbers(s, e.(ms := 0), y, true);
      ParseTimeOfNumbers(s, e.(ms := 0), y);
    }
  }

  /** Fields the formatter writes with exactly their minimum width: all but the year have two digits, the milliseconds three. */
  predicate Printable(e: UtcExt) {
    var u := e.utc;
    && 0 <= u.year && 0 <= u.month < 100 && 0 <= u.day < 100
    && 0 <= u.hour < 100 && 0 <= u.minute < 100 && 0 <= u.second < 100
    && 0 <= e.ms < 1000
  }

  /** What the formatter writes between the year and the end of the seconds. */
  function DateTimeAfterYear(u: Utc): (t: string)
    requires Printable(UtcExt(u, 0))
    ensures |t| == 15
  {
    ['-', DigitChar(u.month / 10), DigitChar(u.month % 10),
     '-', DigitChar(u.day / 10), DigitChar(u.day % 10),
     'T', DigitChar(u.hour / 10), DigitChar(u.hour % 10),
     ':', DigitChar(u.minute / 10), DigitChar(u.minute % 10),
     ':', DigitChar(u.second / 10), DigitChar(u.second % 10)]
  }

  /** What follows the seconds: `.SSSZ`, or `Z` alone. */
  function MillisecondsText(ms: int, withMs: bool): (t: string)
    requires 0 <= ms < 1000
    ensures |t| == if withMs then 5 else 1
  {
    if withMs then ['.', DigitChar(ms / 100), DigitChar(ms / 10 % 10), DigitChar(ms % 10), 'Z'] else ['Z']
  }

  /** `%02d` of a number below 100 is its two digits. */
  lemma ZeroPadTwo(n: int)
    requires 0 <= n < 100
    ensures ZeroPad(n, 2) == [DigitChar(n / 10), DigitChar(n % 10)]
  {
    if n >= 10 {
      assert NatToString(n / 10) == [DigitChar(n / 10)];
    }
  }

  /** `%03d` of a number below 1000 is its three digits. */
  lemma ZeroPadThree(n: int)
    requires 0 <= n < 1000
    ensures ZeroPad(n, 3) == [DigitChar(n / 100), DigitChar(n / 10 % 10), DigitChar(n % 10)]
  {
    if n >= 100 {
      assert NatToString(n / 100) == [DigitChar(n / 100)];
      assert NatToString(n / 10) == [DigitChar(n / 100), DigitChar(n / 10 % 10)];
    } else if n >= 10 {
      assert NatToString(n / 10) == [DigitChar(n / 10)];
    }
  }

  /** `%04d-%02d-%02dT` is the year followed by the first seven characters of `DateTimeAfterYear`. */
  lemma DateTextDigits(u: Utc)
    requires Printable(UtcExt(u, 0))
    ensures DateText(u) == ZeroPad(u.year, 4) + ['-', DigitChar(u.month / 10), DigitChar(u.month % 10),
      '-', DigitChar(u.day / 10), DigitChar(u.day % 10), 'T']
  {
    ZeroPadTwo(u.month); ZeroPadTwo(u.day);
  }

  /** `%02d:%02d:%02d` is the last eight characters of `DateTimeAfterYear`. */
  lemma TimeTextDigits(u: Utc)
    requires Printable(UtcExt(u, 0))
    ensures TimeText(u) == [DigitChar(u.hour / 10), DigitChar(u.hour % 10),
      ':', DigitChar(u.minute / 10), DigitChar(u.minute % 10),
      ':', DigitChar(u.second / 10), DigitChar(u.second % 10)]
  {
    ZeroPadTwo(u.hour); ZeroPadTwo(u.minute); ZeroPadTwo(u.second);
  }

  /** `%04d-%02d-%02dT%02d:%02d:%02d` is the year followed by `DateTimeAfterYear`. */
  lemma DateTimeText(u: Utc)
    requires Printable(UtcExt(u, 0))
    ensures FormatDateTime(u) == ZeroPad(u.year, 4) + DateTimeAfterYear(u)
  {
    var z := ZeroPad(u.year, 4);
    var d := ['-', DigitChar(u.month / 10), DigitChar(u.month % 10), '-', DigitChar(u.day / 10), DigitChar(u.day % 10), 'T'];
    var t := [DigitChar(u.hour / 10), DigitChar(u.hour % 10), ':', DigitChar(u.minute / 10), DigitChar(u.minute % 10),
      ':', DigitChar(u.second / 10), DigitChar(u.second % 10)];
    DateTextDigits(u);
    TimeTextDigits(u);
    assert FormatDateTime(u) == (z + d) + t;
    assert d + t == DateTimeAfterYear(u);
    assert (z + d) + t == z + (d + t);
  }

  /** The text of `To(tm_ext)`, and of `To(tm)`, is the year, `DateTimeAfterYear` and `MillisecondsText`. */
  lemma FormatText(e: UtcExt)
    requires Printable(e)
    ensures FormatUtcExt(e) == ZeroPad(e.utc.year, 4) + (DateTimeAfterYear(e.utc) + MillisecondsText(e.ms, true))
    ensures FormatUtc(e.utc) == ZeroPad(e.utc.year, 4) + (DateTimeAfterYear(e.utc) + MillisecondsText(e.ms, false))
  {
    DateTimeText(e.utc);
    ZeroPadThree(e.ms);
  }

  /** Two digits of `n` at `pos`, followed by a non-digit, read as `n`. */
  lemma NumberInText(s: string, y: nat, t: string, k: nat, n: int)
    requires y <= |s| && s[y..] == t
    requires 0 <= n < 100 && k + 2 < |t| && !IsDigit(t[k + 2])
    requires t[k] == DigitChar(n / 10) && t[k + 1] == DigitChar(n % 10)
    ensures NumberAt(s, y + k, n, y + k + 2) && s[y + k + 2] == t[k + 2]
  {
    assert s[y + k] == t[k] && s[y + k + 1] == t[k + 1] && s[y + k + 2] == t[k + 2];
    NumberOfTwoDigits(s, y + k, n);
  }

  /** The fields after the year read as the numbers of `e`, whatever non-digit text follows the seconds. */
  lemma NumbersAfterYear(s: string, e: UtcExt, y: nat, rest: string)
    requires Printable(e) && |rest| > 0 && !IsDigit(rest[0])
    requires NumberAt(s, 0, e.utc.year, y)
    requires y <= |s| && s[y..] == DateTimeAfterYear(e.utc) + rest
    ensures NumbersAt(s, e, y) && s[y + 15..] == rest
  {
    var u := e.utc;
    var t := DateTimeAfterYear(u) + rest;
    assert s[y] == t[0];
    NumberInText(s, y, t, 1, u.month);
    NumberInText(s, y, t, 4, u.day);
    NumberInText(s, y, t, 7, u.hour);
    NumberInText(s, y, t, 10, u.minute);
    NumberInText(s, y, t, 13, u.second);
    assert s[y + 15..] == t[15..] == rest;
  }

  /** The milliseconds after the seconds read back. */
  lemma MillisecondsInText(s: string, e: UtcExt, pos: nat, withMs: bool)
    requires 0 <= e.ms < 1000 && (!withMs ==> e.ms == 0)
    requires pos <= |s| && s[pos..] == MillisecondsText(e.ms, withMs)
    ensures MillisecondsAt(s, e, pos, withMs)
  {
    var t := MillisecondsText(e.ms, withMs);
    assert s[pos] == t[0];
    if withMs {
      assert s[pos + 1] == t[1] && s[pos + 2] == t[2] && s[pos + 3] == t[3] && s[pos + 4] == t[4];
      NumberOfThreeDigits(s, pos + 1, e.ms);
    }
  }

  /** A year spelled by `yearText`, then the text after it, reads as the numbers of `e`. */
  lemma NumbersOfYearAndRest(yearText: string, e: UtcExt, rest: string)
    requires Printable(e) && |rest| > 0 && !IsDigit(rest[0])
    requires Spells(yearText, e.utc.year)
    ensures var s := yearText + (DateTimeAfterYear(e.utc) + rest);
      NumbersAt(s, e, |yearText|) && s[|yearText| + 15..] == rest
  {
    var t := DateTimeAfterYear(e.utc) + rest;
    var s := yearText + t;
    var y := |yearText|;
    assert s[..y] == yearText && s[y..] == t && s[y] == t[0];
    NumberOfField(s, 0, yearText, e.utc.year);
    NumbersAfterYear(s, e, y, rest);
  }

  /** Each field of the formatted text reads as the number of `e` it was written from. */
  lemma NumbersOfText(e: UtcExt, withMs: bool)
    requires Printable(e)
    requires !withMs ==> e.ms == 0
    ensures var s := ZeroPad(e.utc.year, 4) + (DateTimeAfterYear(e.utc) + MillisecondsText(e.ms, withMs));
      var y := |ZeroPad(e.utc.year, 4)|;
      NumbersAt(s, e, y) && MillisecondsAt(s, e, y + 15, withMs)
  {
    var yearText := ZeroPad(e.utc.year, 4);
    var rest := MillisecondsText(e.ms, withMs);
    var s := yearText + (DateTimeAfterYear(e.utc) + rest);
    ZeroPadSpells(e.utc.year, 4);
    assert Spells(yearText, e.utc.year);
    assert |rest| > 0 && !IsDigit(rest[0]);
    NumbersOfYearAndRest(yearText, e, rest);
    assert s[|yearText| + 15..] == rest;
    MillisecondsInText(s, e, |yearText| + 15, withMs);
  }

  /** The numbers of the text of `To(tm_ext)` stand where the parser looks for them. */
  lemma FormatUtcExtNumbers(e: UtcExt)
    requires Printable(e)
    ensures var y := |ZeroPad(e.utc.year, 4)|;
      NumbersAt(FormatUtcExt(e), e, y) && MillisecondsAt(FormatUtcExt(e), e, y + 15, true)
  {
    FormatText(e);
    NumbersOfText(e, true);
  }

  /** The numbers of the text of `To(tm)` stand where the parser looks for them. */
  lemma FormatUtcNumbers(u: Utc)
    requires Printable(UtcExt(u, 0))
    ensures var y := |ZeroPad(u.year, 4)|;
      NumbersAt(FormatUtc(u), UtcExt(u, 0), y) && MillisecondsAt(FormatUtc(u), UtcExt(u, 0), y + 15, false)
  {
    FormatText(UtcExt(u, 0));
    NumbersOfText(UtcExt(u, 0), false);
  }

  /** Parsing the text of `To(tm_ext)` gives back the fields and the milliseconds. */
  lemma ParseFormatUtcExt(e: UtcExt)
    requires InParserBounds(e)
    ensures ParseIso(FormatUtcExt(e)) == Success(e)
  {
    var y := |ZeroPad(e.utc.year, 4)|;
    AcceptedIsPrintable(e);
    assert Printable(e);
    FormatUtcExtNumbers(e);
    assert NumbersAt(FormatUtcExt(e), e, y) && MillisecondsAt(FormatUtcExt(e), e, y + 15, true);
    ParsedFromNumbers(FormatUtcExt(e), e, y, true);
  }

  /** Parsing the text of `To(tm)` gives back the fields, with no milliseconds. */
  lemma ParseFormatUtc(u: Utc)
    requires InParserBounds(UtcExt(u, 0))
    ensures ParseIso(FormatUtc(u)) == Success(UtcExt(u, 0))
  {
    var y := |ZeroPad(u.year, 4)|;
    AcceptedIsPrintable(UtcExt(u, 0));
    assert Printable(UtcExt(u, 0));
    FormatUtcNumbers(u);
    assert NumbersAt(FormatUtc(u), UtcExt(u, 0), y) && MillisecondsAt(FormatUtc(u), UtcExt(u, 0), y + 15, false);
    ParsedFromNumbers(FormatUtc(u), UtcExt(u, 0), y, false);
  }

  /** The parser as written reads back the text of a `tm` whose day is 00; the corrected parser refuses it. */
  lemma DayZeroAcceptedAsWritten(u: Utc)
    requires InParserBoundsAsWritten(UtcExt(u, 0)) && u.day == 0
    ensures ParseIsoAsWritten(FormatUtc(u)) == Success(UtcExt(u, 0))
    ensures ParseIso(FormatUtc(u)) == Failure(OutOfBoundsValue)
  {
    var y := |ZeroPad(u.year, 4)|;
    AcceptedIsPrintable(UtcExt(u, 0));
    assert Printable(UtcExt(u, 0));
    FormatUtcNumbers(u);
    assert NumbersAt(FormatUtc(u), UtcExt(u, 0), y) && MillisecondsAt(FormatUtc(u), UtcExt(u, 0), y + 15, false);
    ParsedDayZero(FormatUtc(u), UtcExt(u, 0), y, false);
  }

  /** The day 00 of a month is the day before its first day: `UtcToUnixTime` reads it as the last day of the month before. */
  lemma DayZeroIsDayBefore(u: Utc)
    requires u.day == 0
    ensures UtcToUnixTime(u) == UtcToUnixTime(u.(day := 1)) - 86400
  {
  }

  /** The parser as written reads the month 00 and then selects `DaysInMonth[-1]`; the corrected parser refuses it as out of bounds. */
  lemma MonthZeroAsWritten(u: Utc)
    requires Printable(UtcExt(u, 0)) && u.year <= IntMax && u.month == 0
    ensures ParseIsoAsWritten(FormatUtc(u)) == Failure(DaysInMonthIndexedBelowZero)
    ensures ParseIso(FormatUtc(u)) == Failure(OutOfBoundsValue)
  {
    var y := |ZeroPad(u.year, 4)|;
    FormatUtcNumbers(u);
    assert NumbersAt(FormatUtc(u), UtcExt(u, 0), y);
    ParsedMonthZero(FormatUtc(u), UtcExt(u, 0), y);
  }

  /** The date and time of the text of `To(tm_ext)` stand where the parser looks for them, whatever the width of the milliseconds. */
  lemma FormatUtcExtWideNumbers(e: UtcExt)
    requires Printable(e.(ms := 0)) && e.ms >= 0
    ensures var y := |ZeroPad(e.utc.year, 4)|;
      && NumbersAt(FormatUtcExt(e), e.(ms := 0), y)
      && y + 15 <= |FormatUtcExt(e)|
      && FormatUtcExt(e)[y + 15..] == ['.'] + ZeroPad(e.ms, 3) + ['Z']
  {
    var u := e.utc;
    var yearText := ZeroPad(u.year, 4);
    var rest := ['.'] + ZeroPad(e.ms, 3) + ['Z'];
    FormatUtcExtText(e);
    assert FormatUtcExt(e) == yearText + (DateTimeAfterYear(u) + rest);
    ZeroPadSpells(u.year, 4);
    assert Spells(yearText, u.year);
    assert |rest| > 0 && !IsDigit(rest[0]);
    NumbersOfYearAndRest(yearText, e.(ms := 0), rest);
  }

  /** The text of `To(tm_ext)` is the year, `DateTimeAfterYear`, and the milliseconds between `.` and `Z`. */
  lemma FormatUtcExtText(e: UtcExt)
    requires Printable(e.(ms := 0)) && e.ms >= 0
    ensures FormatUtcExt(e) == ZeroPad(e.utc.year, 4) + (DateTimeAfterYear(e.utc) + (['.'] + ZeroPad(e.ms, 3) + ['Z']))
  {
    var z := ZeroPad(e.utc.year, 4);
    var m := ZeroPad(e.ms, 3);
    DateTimeText(e.utc);
    assert FormatUtcExt(e) == FormatDateTime(e.utc) + "." + m + "Z";
    assert (z + DateTimeAfterYear(e.utc)) + "." + m + "Z" == z + (DateTimeAfterYear(e.utc) + (['.'] + m + ['Z']));
  }

  /** Milliseconds of four digits or more are out of bounds for the parser. */
  lemma ParseRejectsWideMilliseconds(e: UtcExt)
    requires InParserBounds(e.(ms := 0)) && 1000 <= e.ms <= IntMax
    ensures ParseIso(FormatUtcExt(e)) == Failure(OutOfBoundsValue)
  {
    var y := |ZeroPad(e.utc.year, 4)|;
    AcceptedIsPrintable(e.(ms := 0));
    assert Printable(e.(ms := 0));
    FormatUtcExtWideNumbers(e);
    assert NumbersAt(FormatUtcExt(e), e.(ms := 0), y) && y + 15 <= |FormatUtcExt(e)|;
    assert FormatUtcExt(e)[y + 15..] == ['.'] + ZeroPad(e.ms, 3) + ['Z'];
    ParsedWideMilliseconds(FormatUtcExt(e), e, y);
  }

  /** `.` and a number above 999 make `ParseMilliseconds` fail as out of bounds. */
  lemma MillisecondsTooWide(s: string, pos: nat, msText: string, ms: int)
    requires 1000 <= ms <= IntMax && Spells(msText, ms)
    requires pos <= |s| && s[pos..] == ['.'] + msText + ['Z']
    ensures ParseMilliseconds(s, pos) == Failure(OutOfBoundsValue)
  {
    var t := ['.'] + msText + ['Z'];
    assert s[pos] == t[0];
    assert s[pos + 1..pos + 1 + |msText|] == msText;
    assert s[pos + 1 + |msText|] == t[1 + |msText|];
    NumberOfField(s, pos + 1, msText, ms);
  }

  /**
   * The corrected parser differs from the parser as written only on the
   * month and the day 00: it agrees wherever it succeeds or the parser as
   * written fails for another reason, and refuses as out of bounds what the
   * parser as written reads with a day 00 or stops on at the month 00.
   */
  lemma ParseIsoRefinesAsWritten(s: string)
    ensures ParseIso(s).Success? ==> ParseIsoAsWritten(s) == ParseIso(s)
    ensures ParseIsoAsWritten(s).Success? && ParseIsoAsWritten(s).value.utc.day != 0 ==> ParseIso(s) == ParseIsoAsWritten(s)
    ensures ParseIsoAsWritten(s).Success? && ParseIsoAsWritten(s).value.utc.day == 0 ==> ParseIso(s) == Failure(OutOfBoundsValue)
    ensures ParseIsoAsWritten(s) == Failure(DaysInMonthIndexedBelowZero) ==> ParseIso(s) == Failure(OutOfBoundsValue)
    ensures ParseIsoAsWritten(s).Failure? ==> ParseIso(s).Failure?
    ensures ParseIso(s).Failure? && ParseIso(s).error != OutOfBoundsValue ==> ParseIsoAsWritten(s) == ParseIso(s)
    ensures ParseIso(s) != Failure(DaysInMonthIndexedBelowZero)
  {
    ParseDateRefinesAsWritten(s);
  }

  /** `ParseDate` with and without the lower bounds. */
  lemma ParseDateRefinesAsWritten(s: string)
    ensures ParseDate(s, true).Success? ==> ParseDate(s, false) == ParseDate(s, true)
    ensures ParseDate(s, false).Success? && ParseDate(s, false).value.day != 0 ==> ParseDate(s, true) == ParseDate(s, false)
    ensures ParseDate(s, false).Success? && ParseDate(s, false).value.day == 0 ==> ParseDate(s, true) == Failure(OutOfBoundsValue)
    ensures ParseDate(s, false).Failure? && ParseDate(s, false).error != DaysInMonthIndexedBelowZero ==> ParseDate(s, true) == ParseDate(s, false)
    ensures ParseDate(s, false) == Failure(DaysInMonthIndexedBelowZero) ==> ParseDate(s, true) == Failure(OutOfBoundsValue)
    ensures ParseDate(s, true) != Failure(DaysInMonthIndexedBelowZero)
  {
  }

  // ---------------------------------------------------------------------------
  // `tm`, `CRawTime` and `std::chrono::time_point` through the ISO text
  // ---------------------------------------------------------------------------

  /**
   * `To(string_view, tm&)` over the corrected parser: the parsed fields,
   * with the milliseconds dropped. The fields are within the parser's
   * bounds, and the only failures are the parser's own.
   */
  function ParseUtc(s: string): (r: Result<Utc, ParseError>)
    ensures r.Success? ==> InParserBounds(UtcExt(r.value, 0))
    ensures r.Failure? ==> r.error == NotIsoDatetime || r.error == OutOfBoundsValue
  {
    ParseIsoNeverIndexesBelowZero(s);
    var e :- ParseIso(s);
    Success(e.utc)
  }

  /** `To(string_view, tm&)` as written, over the parser as written: a day 00 gets through. */
  function ParseUtcAsWritten(s: string): (r: Result<Utc, ParseError>)
    ensures r.Success? ==> InParserBoundsAsWritten(UtcExt(r.value, 0))
    ensures r.Failure? ==> r.error != TimePointOutOfRange
  {
    ParseIsoNeverIndexesBelowZero(s);
    var e :- ParseIsoAsWritten(s);
    Success(e.utc)
  }

  /** The errors the two parsers raise: never TimePointOutOfRange, and the corrected one never reads below `DaysInMonth`. */
  lemma ParseIsoNeverIndexesBelowZero(s: string)
    ensures ParseIso(s).Failure? ==> ParseIso(s).error == NotIsoDatetime || ParseIso(s).error == OutOfBoundsValue
    ensures ParseIsoAsWritten(s).Failure? ==> ParseIsoAsWritten(s).error != TimePointOutOfRange
  {
    ParseIsoRefinesAsWritten(s);
  }

  /** The parser as written reads the text, with a day 00. */
  predicate DayZeroText(s: string) {
    ParseIsoAsWritten(s).Success? && ParseIsoAsWritten(s).value.utc.day == 0
  }

  /**
   * The conversions over the corrected parser agree with those as written
   * wherever either reads the text with a day other than 00, and wherever
   * the corrected parser fails other than as out of bounds. A text that
   * the parser as written reads with a day 00 converts as written and is
   * refused as out of bounds by the corrected conversions. A text either
   * parser refuses is refused by both, possibly with different messages.
   */
  lemma ConversionsRefineAsWritten(s: string, perSecond: int, minTicks: int, maxTicks: int)
    requires perSecond >= 1000 && perSecond % 1000 == 0 && minTicks <= 0 <= maxTicks
    ensures (|| ParseIso(s).Success?
             || (ParseIsoAsWritten(s).Success? && !DayZeroText(s))
             || (ParseIso(s).Failure? && ParseIso(s).error != OutOfBoundsValue)) ==>
      && ParseUtc(s) == ParseUtcAsWritten(s)
      && ParseRawTime(s) == ParseRawTimeAsWritten(s)
      && ParseTimePoint(s, perSecond, minTicks, maxTicks) == ParseTimePointAsWritten(s, perSecond, minTicks, maxTicks)
    ensures DayZeroText(s) ==>
      && ParseUtcAsWritten(s).Success? && ParseRawTimeAsWritten(s).Success?
      && ParseUtc(s) == Failure(OutOfBoundsValue)
      && ParseRawTime(s) == Failure(OutOfBoundsValue)
      && ParseTimePoint(s, perSecond, minTicks, maxTicks) == Failure(OutOfBoundsValue)
    ensures ParseIsoAsWritten(s).Failure? ==>
      ParseUtc(s).Failure? && ParseRawTime(s).Failure? && ParseTimePoint(s, perSecond, minTicks, maxTicks).Failure?
  {
    ParseIsoRefinesAsWritten(s);
  }

  /**
   * The text of a `tm` with a day 00 converts as written to the Unix time
   * of the last day of the month before; the corrected conversion refuses
   * it. For `"2020-01-00T00:00:00Z"` that is 31 December 2019, 1577750400
   * (`NewYear2020`).
   */
  lemma DayZeroRawTime(u: Utc)
    requires InParserBoundsAsWritten(UtcExt(u, 0)) && u.day == 0
    ensures ParseRawTimeAsWritten(FormatUtc(u)) == Success(RawTime(UtcToUnixTime(u.(day := 1)) - 86400))
    ensures ParseRawTime(FormatUtc(u)) == Failure(OutOfBoundsValue)
  {
    var t := FormatUtc(u);
    DayZeroAcceptedAsWritten(u);
    assert ParseUtcAsWritten(t) == Success(u);
    var r := ParseRawTimeAsWritten(t);
    assert r.Success? && r.value.time == UtcToUnixTime(u.(day := 1)) - 86400;
    assert ParseUtc(t) == Failure(OutOfBoundsValue);
  }

  /** 1 January 2020 is 1577836800 seconds after the epoch. */
  lemma NewYear2020()
    ensures UtcToUnixTime(Utc(2020, 1, 1, 0, 0, 0)) == 1577836800
  {
    EraIsFloor(2019, 400);
    assert DaysFromCivil(2020, 1, 1) == 18262;
  }

  /** A real date and time whose year the parser can read is within the parser's bounds. */
  lemma ValidIsInParserBounds(u: Utc, ms: int)
    requires ValidUtc(u) && 0 <= u.year <= IntMax && 0 <= ms <= 999
    ensures InParserBounds(UtcExt(u, ms))
  {
  }

  /** Parsing the text of `To(tm)` into a `tm` gives back the `tm`; the text of `To(tm_ext)` gives back its `tm` without the milliseconds. */
  lemma ParseUtcOfFormat(e: UtcExt)
    requires InParserBounds(e)
    ensures ParseUtc(FormatUtc(e.utc)) == Success(e.utc)
    ensures ParseUtc(FormatUtcExt(e)) == Success(e.utc)
  {
    ParseFormatUtcExt(e);
    assert InParserBounds(UtcExt(e.utc, 0));
    ParseFormatUtc(e.utc);
  }

  /** `CRawTime`: a Unix time in seconds. */
  datatype RawTime = RawTime(time: int)

  /** `To(CRawTime)`: the UTC date and time of the Unix time, as the text of `To(tm)`. */
  function FormatRawTime(t: RawTime): (s: string)
    ensures |s| >= 20 && s[|s| - 1] == 'Z'
  {
    FormatUtc(UnixTimeToUtc(t.time))
  }

  /**
   * `To(string_view, CRawTime&)` over the corrected parser: the Unix time of
   * the parsed fields, the milliseconds dropped. It fails exactly when the
   * fields do not parse, and a real date converts back to its fields.
   */
  function ParseRawTime(s: string): (r: Result<RawTime, ParseError>)
    ensures r.Success? <==> ParseUtc(s).Success?
    ensures r.Success? && ValidUtc(ParseUtc(s).value) ==> UnixTimeToUtc(r.value.time) == ParseUtc(s).value
  {
    var u :- ParseUtc(s);
    UtcRoundTripWhenValid(u);
    Success(RawTime(UtcToUnixTime(u)))
  }

  /**
   * `To(string_view, CRawTime&)` as written, over the parser as written:
   * the same, except that a day 00 gets through and becomes the last day of
   * the month before.
   */
  function ParseRawTimeAsWritten(s: string): (r: Result<RawTime, ParseError>)
    ensures r.Success? <==> ParseUtcAsWritten(s).Success?
    ensures r.Success? && ValidUtc(ParseUtcAsWritten(s).value) ==>
      UnixTimeToUtc(r.value.time) == ParseUtcAsWritten(s).value
    ensures r.Success? && ParseUtcAsWritten(s).value.day == 0 ==>
      r.value.time == UtcToUnixTime(ParseUtcAsWritten(s).value.(day := 1)) - 86400
  {
    var u :- ParseUtcAsWritten(s);
    UtcRoundTripWhenValid(u);
    DayZeroIsDayBefore(u.(day := 0));
    Success(RawTime(UtcToUnixTime(u)))
  }

  /** `UtcRoundTrip` for the fields that name a real date and time. */
  lemma UtcRoundTripWhenValid(u: Utc)
    ensures ValidUtc(u) ==> UnixTimeToUtc(UtcToUnixTime(u)) == u
  {
    if ValidUtc(u) {
      UtcRoundTrip(u);
    }
  }

  /** Formatting a Unix time and parsing the text gives back the time, for every year from 0 to `IntMax`. */
  lemma RawTimeRoundTrip(t: RawTime)
    requires 0 <= UnixTimeToUtc(t.time).year <= IntMax
    ensures ParseRawTime(FormatRawTime(t)) == Success(t)
  {
    var u := UnixTimeToUtc(t.time);
    ValidIsInParserBounds(u, 0);
    ParseUtcOfFormat(UtcExt(u, 0));
    assert ParseUtc(FormatUtc(u)) == Success(u);
    UnixTimeRoundTrip(t.time);
  }

  /** A parsed Unix time formats back to the text of the parsed fields when they name a real date; the milliseconds are gone. */
  lemma FormatOfParseRawTime(s: string)
    requires ParseUtc(s).Success? && ValidUtc(ParseUtc(s).value)
    ensures ParseRawTime(s).Success?
    ensures FormatRawTime(ParseRawTime(s).value) == FormatUtc(ParseUtc(s).value)
  {
    UtcRoundTrip(ParseUtc(s).value);
  }

  /**
   * `To(time_point)` as written, for a clock whose duration ticks
   * `perSecond` times a second: the seconds are the floor of the ticks, and
   * what is left over is counted in ticks, cast to `int` and printed as the
   * milliseconds when it is not 0.
   */
  function FormatTimePointAsWritten(ticks: int, perSecond: int): (s: string)
    requires perSecond >= 1
    ensures |s| >= 20 && s[|s| - 1] == 'Z'
  {
    var time := ticks / perSecond;
    var ms := Wrap(ticks - time * perSecond, Int32);
    if ms != 0 then
      var ms' := if ms < 0 then ms + 1000 else ms;
      FormatUtcExt(UtcExt(UnixTimeToUtc(time), ms'))
    else
      FormatUtc(UnixTimeToUtc(time))
  }

  /** `To(time_point)` with what is left over after the seconds converted to whole milliseconds. */
  function FormatTimePoint(ticks: int, perSecond: int): (s: string)
    requires perSecond >= 1
    ensures |s| >= 20 && s[|s| - 1] == 'Z'
  {
    var time := ticks / perSecond;
    var ms := ticks % perSecond * 1000 / perSecond;
    if ms != 0 then FormatUtcExt(UtcExt(UnixTimeToUtc(time), ms)) else FormatUtc(UnixTimeToUtc(time))
  }

  /**
   * `To(string_view, time_point&)` for a clock whose ticks lie in
   * `minTicks..maxTicks`: the Unix time of the parsed fields must lie
   * between the seconds of `min()` and of `max()`, both truncated toward
   * zero; the result is that many seconds plus the milliseconds. Adding
   * milliseconds compiles only for a duration they convert into exactly.
   */
  function ParseTimePoint(s: string, perSecond: int, minTicks: int, maxTicks: int): (r: Result<int, ParseError>)
    requires perSecond >= 1000 && perSecond % 1000 == 0 && minTicks <= 0 <= maxTicks
    ensures r.Success? ==> ParseIso(s).Success? && minTicks <= r.value
    ensures r.Failure? && ParseIso(s).Success? ==> r.error == TimePointOutOfRange
  {
    var e :- ParseIso(s);
    TicksOfSecondsMeaning(UtcToUnixTime(e.utc), e.ms, perSecond, minTicks, maxTicks);
    TicksOfSeconds(UtcToUnixTime(e.utc), e.ms, perSecond, minTicks, maxTicks)
  }

  /** `To(string_view, time_point&)` as written, over the parser as written. */
  function ParseTimePointAsWritten(s: string, perSecond: int, minTicks: int, maxTicks: int): (r: Result<int, ParseError>)
    requires perSecond >= 1000 && perSecond % 1000 == 0 && minTicks <= 0 <= maxTicks
    ensures r.Success? ==> ParseIsoAsWritten(s).Success? && minTicks <= r.value
    ensures r.Failure? && ParseIsoAsWritten(s).Success? ==> r.error == TimePointOutOfRange
  {
    var e :- ParseIsoAsWritten(s);
    TicksOfSecondsMeaning(UtcToUnixTime(e.utc), e.ms, perSecond, minTicks, maxTicks);
    TicksOfSeconds(UtcToUnixTime(e.utc), e.ms, perSecond, minTicks, maxTicks)
  }

  /** The range check and the tick count of `To(string_view, time_point&)` once the text has given `time` seconds and `ms` milliseconds. */
  function TicksOfSeconds(time: int, ms: int, perSecond: int, minTicks: int, maxTicks: int): (r: Result<int, ParseError>)
    requires perSecond >= 1000 && perSecond % 1000 == 0 && minTicks <= 0 <= maxTicks
  {
    if time > CDiv(maxTicks, perSecond) || time < CDiv(minTicks, perSecond) then Failure(TimePointOutOfRange)
    else Success(time * perSecond + ms * (perSecond / 1000))
  }

  /** A parse error of the ISO text is the error of the time point. */
  lemma ParseTimePointFails(s: string, perSecond: int, minTicks: int, maxTicks: int)
    requires perSecond >= 1000 && perSecond % 1000 == 0 && minTicks <= 0 <= maxTicks
    ensures ParseIso(s).Failure? ==> ParseTimePoint(s, perSecond, minTicks, maxTicks) == Failure(ParseIso(s).error)
  {
  }

  /** Seconds no earlier than those of `min()` and whole milliseconds make a tick count no earlier than `min()`, which splits back into them. */
  lemma TicksOfFields(time: int, ms: int, perSecond: int, minTicks: int)
    requires perSecond >= 1000 && perSecond % 1000 == 0 && 0 <= ms <= 999
    requires minTicks <= 0 && time >= CDiv(minTicks, perSecond)
    ensures var t := time * perSecond + ms * (perSecond / 1000);
      t / perSecond == time && t % perSecond == ms * (perSecond / 1000) && minTicks <= t
  {
    var k := perSecond / 1000;
    assert perSecond == 1000 * k;
    MulMonotone(ms, 999, k);
    MulMonotone(0, ms, k);
    assert 0 <= ms * k < perSecond;
    DivModUnique(time * perSecond + ms * k, perSecond, time, ms * k);
    var q := CDiv(minTicks, perSecond);
    assert perSecond * q >= minTicks;
    MulMonotone(q, time, perSecond);
  }

  /** What `ParseTimePoint` returns for a text that parses: out of range exactly when the seconds are outside the clock's; otherwise ticks that split into the parsed seconds and milliseconds. */
  lemma ParseTimePointMeaning(s: string, perSecond: int, minTicks: int, maxTicks: int)
    requires perSecond >= 1000 && perSecond % 1000 == 0 && minTicks <= 0 <= maxTicks && ParseIso(s).Success?
    ensures var time := UtcToUnixTime(ParseIso(s).value.utc);
      && (ParseTimePoint(s, perSecond, minTicks, maxTicks) == Failure(TimePointOutOfRange)
          <==> time > CDiv(maxTicks, perSecond) || time < CDiv(minTicks, perSecond))
      && (ParseTimePoint(s, perSecond, minTicks, maxTicks).Success? ==>
          var ticks := ParseTimePoint(s, perSecond, minTicks, maxTicks).value;
          ticks / perSecond == time && ticks % perSecond == ParseIso(s).value.ms * (perSecond / 1000)
          && minTicks <= ticks)
  {
    var e := ParseIso(s).value;
    var time := UtcToUnixTime(e.utc);
    ParseTimePointOfParsed(s, perSecond, minTicks, maxTicks, e);
    assert ParseTimePoint(s, perSecond, minTicks, maxTicks) == TicksOfSeconds(time, e.ms, perSecond, minTicks, maxTicks);
    TicksOfSecondsMeaning(time, e.ms, perSecond, minTicks, maxTicks);
  }

  /** The range check fails exactly for seconds outside the clock's; a tick count it returns splits back into the seconds and the milliseconds. */
  lemma TicksOfSecondsMeaning(time: int, ms: int, perSecond: int, minTicks: int, maxTicks: int)
    requires perSecond >= 1000 && perSecond % 1000 == 0 && minTicks <= 0 <= maxTicks && 0 <= ms <= 999
    ensures var r := TicksOfSeconds(time, ms, perSecond, minTicks, maxTicks);
      && (r == Failure(TimePointOutOfRange) <==> time > CDiv(maxTicks, perSecond) || time < CDiv(minTicks, perSecond))
      && (r.Success? ==> r.value / perSecond == time && r.value % perSecond == ms * (perSecond / 1000) && minTicks <= r.value)
  {
    if !(time > CDiv(maxTicks, perSecond) || time < CDiv(minTicks, perSecond)) {
      TicksOfFields(time, ms, perSecond, minTicks);
    }
  }

  /** `ParseTimePoint` of a text the ISO parser reads as `e` is the range check on the seconds and milliseconds of `e`. */
  lemma ParseTimePointOfParsed(s: string, perSecond: int, minTicks: int, maxTicks: int, e: UtcExt)
    requires perSecond >= 1000 && perSecond % 1000 == 0 && minTicks <= 0 <= maxTicks && ParseIso(s) == Success(e)
    ensures ParseTimePoint(s, perSecond, minTicks, maxTicks) == TicksOfSeconds(UtcToUnixTime(e.utc), e.ms, perSecond, minTicks, maxTicks)
  {
  }

  /** With a duration of `k` thousandths of a second, the ticks left over after the seconds make `r / k` whole milliseconds. */
  lemma MillisecondsOfRemainder(r: int, perSecond: int)
    requires perSecond >= 1000 && perSecond % 1000 == 0 && 0 <= r < perSecond
    ensures var k := perSecond / 1000; r * 1000 / perSecond == r / k && 0 <= r / k <= 999
  {
    var k := perSecond / 1000;
    assert perSecond == 1000 * k;
    DivModUnique(r * 1000, perSecond, r / k, r % k * 1000);
  }

  /** The text of `To(time_point)` parses as the date and time of its seconds and its whole milliseconds. */
  lemma ParseFormatTimePoint(ticks: int, perSecond: int)
    requires perSecond >= 1000 && perSecond % 1000 == 0
    requires 0 <= UnixTimeToUtc(ticks / perSecond).year <= IntMax
    ensures ParseIso(FormatTimePoint(ticks, perSecond)) ==
      Success(UtcExt(UnixTimeToUtc(ticks / perSecond), ticks % perSecond / (perSecond / 1000)))
  {
    var u := UnixTimeToUtc(ticks / perSecond);
    var ms := ticks % perSecond * 1000 / perSecond;
    MillisecondsOfRemainder(ticks % perSecond, perSecond);
    assert ms == ticks % perSecond / (perSecond / 1000);
    ValidIsInParserBounds(u, ms);
    if ms != 0 {
      assert FormatTimePoint(ticks, perSecond) == FormatUtcExt(UtcExt(u, ms));
      ParseFormatUtcExt(UtcExt(u, ms));
    } else {
      assert FormatTimePoint(ticks, perSecond) == FormatUtc(u);
      ParseFormatUtc(u);
    }
  }

  /** A tick count is its seconds, its whole milliseconds and the ticks below a millisecond. */
  lemma TicksSplit(ticks: int, perSecond: int)
    requires perSecond >= 1000 && perSecond % 1000 == 0
    ensures var k := perSecond / 1000;
      ticks / perSecond * perSecond + ticks % perSecond / k * k == ticks - ticks % k
  {
    var k := perSecond / 1000;
    var r := ticks % perSecond;
    assert perSecond == 1000 * k;
    assert ticks == ticks / perSecond * perSecond + r;
    assert r == r / k * k + r % k;
    assert ticks == k * (1000 * (ticks / perSecond) + r / k) + r % k;
    DivModUnique(ticks, k, 1000 * (ticks / perSecond) + r / k, r % k);
  }

  /**
   * Formatting a time point and parsing the text gives back the time point
   * cut down to whole milliseconds, exactly for a clock that counts
   * milliseconds.
   */
  lemma TimePointRoundTrip(ticks: int, perSecond: int, minTicks: int, maxTicks: int)
    requires perSecond >= 1000 && perSecond % 1000 == 0 && minTicks <= 0 <= maxTicks
    requires minTicks <= ticks <= maxTicks && CDiv(minTicks, perSecond) <= ticks / perSecond
    requires 0 <= UnixTimeToUtc(ticks / perSecond).year <= IntMax
    ensures ParseTimePoint(FormatTimePoint(ticks, perSecond), perSecond, minTicks, maxTicks)
      == Success(ticks - ticks % (perSecond / 1000))
  {
    var s := FormatTimePoint(ticks, perSecond);
    var e := UtcExt(UnixTimeToUtc(ticks / perSecond), ticks % perSecond / (perSecond / 1000));
    ParseFormatTimePoint(ticks, perSecond);
    assert ParseIso(s) == Success(e);
    UnixTimeRoundTrip(ticks / perSecond);
    assert UtcToUnixTime(e.utc) == ticks / perSecond;
    ParseTimePointOfTicks(s, ticks, perSecond, minTicks, maxTicks, e);
  }

  /** A time point on a whole millisecond, and so every time point of a clock that counts milliseconds, comes back exactly. */
  lemma TimePointRoundTripExact(ticks: int, perSecond: int, minTicks: int, maxTicks: int)
    requires perSecond >= 1000 && perSecond % 1000 == 0 && minTicks <= 0 <= maxTicks
    requires minTicks <= ticks <= maxTicks && CDiv(minTicks, perSecond) <= ticks / perSecond
    requires 0 <= UnixTimeToUtc(ticks / perSecond).year <= IntMax
    requires ticks % (perSecond / 1000) == 0
    ensures ParseTimePoint(FormatTimePoint(ticks, perSecond), perSecond, minTicks, maxTicks) == Success(ticks)
  {
    var s := FormatTimePoint(ticks, perSecond);
    TimePointRoundTrip(ticks, perSecond, minTicks, maxTicks);
    assert ParseTimePoint(s, perSecond, minTicks, maxTicks) == Success(ticks - ticks % (perSecond / 1000));
    assert ticks - ticks % (perSecond / 1000) == ticks;
  }

  /** A text that parses as the seconds and the whole milliseconds of a time point the clock holds gives back that time point cut down to milliseconds. */
  lemma ParseTimePointOfTicks(s: string, ticks: int, perSecond: int, minTicks: int, maxTicks: int, e: UtcExt)
    requires perSecond >= 1000 && perSecond % 1000 == 0 && minTicks <= 0 <= maxTicks
    requires minTicks <= ticks <= maxTicks && CDiv(minTicks, perSecond) <= ticks / perSecond
    requires ParseIso(s) == Success(e)
    requires UtcToUnixTime(e.utc) == ticks / perSecond && e.ms == ticks % perSecond / (perSecond / 1000)
    ensures ParseTimePoint(s, perSecond, minTicks, maxTicks) == Success(ticks - ticks % (perSecond / 1000))
  {
    ParseTimePointOfParsed(s, perSecond, minTicks, maxTicks, e);
    assert ParseTimePoint(s, perSecond, minTicks, maxTicks)
      == TicksOfSeconds(ticks / perSecond, ticks % perSecond / (perSecond / 1000), perSecond, minTicks, maxTicks);
    TicksOfSecondsOfTicks(ticks, perSecond, minTicks, maxTicks);
  }

  /** The seconds and whole milliseconds of a time point the clock holds pass the range check and make that time point cut down to milliseconds. */
  lemma TicksOfSecondsOfTicks(ticks: int, perSecond: int, minTicks: int, maxTicks: int)
    requires perSecond >= 1000 && perSecond % 1000 == 0 && minTicks <= 0 <= maxTicks
    requires minTicks <= ticks <= maxTicks && CDiv(minTicks, perSecond) <= ticks / perSecond
    ensures var k := perSecond / 1000;
      TicksOfSeconds(ticks / perSecond, ticks % perSecond / k, perSecond, minTicks, maxTicks) == Success(ticks - ticks % k)
  {
    var k := perSecond / 1000;
    TicksInClock(ticks, perSecond, maxTicks);
    TicksSplit(ticks, perSecond);
    assert ticks / perSecond * perSecond + ticks % perSecond / k * k == ticks - ticks % k;
  }

  /** The seconds of a time point the clock holds are no later than the truncated seconds of `max()`. */
  lemma TicksInClock(ticks: int, perSecond: int, maxTicks: int)
    requires perSecond >= 1 && ticks <= maxTicks
    ensures ticks / perSecond <= CDiv(maxTicks, perSecond)
  {
    CDivAtLeastFloor(maxTicks, perSecond);
    DivMonotone(ticks, maxTicks, perSecond);
  }

  /**
   * The range check looks at the seconds alone: a text in the last second
   * of `max()` whose milliseconds lie beyond the ticks `max()` has in that
   * second passes it, and the tick count is then later than `max()`.
   */
  lemma TimePointPastMaxAccepted(s: string, perSecond: int, minTicks: int, maxTicks: int)
    requires perSecond >= 1000 && perSecond % 1000 == 0 && minTicks <= 0 <= maxTicks && ParseIso(s).Success?
    requires UtcToUnixTime(ParseIso(s).value.utc) == maxTicks / perSecond
    requires ParseIso(s).value.ms * (perSecond / 1000) > maxTicks % perSecond
    ensures ParseTimePoint(s, perSecond, minTicks, maxTicks).Success?
    ensures ParseTimePoint(s, perSecond, minTicks, maxTicks).value > maxTicks
  {
    var e := ParseIso(s).value;
    ParseTimePointOfParsed(s, perSecond, minTicks, maxTicks, e);
    TicksPastMax(e.ms, perSecond, minTicks, maxTicks);
  }

  /** The range check and the tick count in the last second of `max()`. */
  lemma TicksPastMax(ms: int, perSecond: int, minTicks: int, maxTicks: int)
    requires perSecond >= 1000 && perSecond % 1000 == 0 && minTicks <= 0 <= maxTicks
    requires ms * (perSecond / 1000) > maxTicks % perSecond
    ensures var r := TicksOfSeconds(maxTicks / perSecond, ms, perSecond, minTicks, maxTicks);
      r.Success? && r.value > maxTicks
  {
    var time := maxTicks / perSecond;
    var k := perSecond / 1000;
    assert CDiv(maxTicks, perSecond) == time;
    DivMonotone(0, maxTicks, perSecond);
    assert CDiv(minTicks, perSecond) <= 0 <= time;
    var base := time * perSecond;
    assert base == perSecond * (maxTicks / perSecond);
    assert maxTicks == base + maxTicks % perSecond;
    assert TicksOfSeconds(time, ms, perSecond, minTicks, maxTicks) == Success(base + ms * k);
  }

  /** A nanosecond clock of 64-bit ticks: 900 milliseconds into its last second make a tick count past `max()`. */
  lemma NanosecondPastMax()
    ensures TicksOfSeconds(9223372036, 900, 1000000000, -0x8000_0000_0000_0000, 0x7fff_ffff_ffff_ffff)
      == Success(9223372036900000000)
    ensures 9223372036 == 0x7fff_ffff_ffff_ffff / 1000000000 && 9223372036900000000 > 0x7fff_ffff_ffff_ffff
  {
  }

  /**
   * The range check truncates the seconds of `min()` toward zero, so a time
   * point in the partial second before them formats to a text that parses
   * as out of range.
   */
  lemma TimePointPartialFirstSecondRefused(ticks: int, perSecond: int, minTicks: int, maxTicks: int)
    requires perSecond >= 1000 && perSecond % 1000 == 0 && minTicks <= 0 <= maxTicks
    requires ticks / perSecond < CDiv(minTicks, perSecond)
    requires 0 <= UnixTimeToUtc(ticks / perSecond).year <= IntMax
    ensures ParseTimePoint(FormatTimePoint(ticks, perSecond), perSecond, minTicks, maxTicks) == Failure(TimePointOutOfRange)
  {
    var s := FormatTimePoint(ticks, perSecond);
    var e := UtcExt(UnixTimeToUtc(ticks / perSecond), ticks % perSecond / (perSecond / 1000));
    ParseFormatTimePoint(ticks, perSecond);
    UnixTimeRoundTrip(ticks / perSecond);
    ParseTimePointOfParsed(s, perSecond, minTicks, maxTicks, e);
  }

  /** `min()` of a nanosecond clock of 64-bit ticks lies in such a partial second, and is itself a time point of the clock. */
  lemma NanosecondMinInPartialSecond()
    ensures -0x8000_0000_0000_0000 / 1000000000 == -9223372037
    ensures CDiv(-0x8000_0000_0000_0000, 1000000000) == -9223372036
  {
  }

  /** The formatter as written, once the cast to `int` is known to keep what is left over after the seconds. */
  lemma FormatTimePointAsWrittenOfRemainder(ticks: int, perSecond: int)
    requires perSecond >= 1 && ticks % perSecond <= IntMax
    ensures var u := UnixTimeToUtc(ticks / perSecond);
      FormatTimePointAsWritten(ticks, perSecond) ==
        if ticks % perSecond != 0 then FormatUtcExt(UtcExt(u, ticks % perSecond)) else FormatUtc(u)
  {
    assert ticks - ticks / perSecond * perSecond == ticks % perSecond;
    WrapInt32Small(ticks % perSecond);
  }

  /** For a clock that counts milliseconds the formatter as written and the corrected one write the same text. */
  lemma FormatTimePointMilliseconds(ticks: int)
    ensures FormatTimePointAsWritten(ticks, 1000) == FormatTimePoint(ticks, 1000)
  {
    FormatTimePointAsWrittenOfRemainder(ticks, 1000);
    assert ticks % 1000 * 1000 / 1000 == ticks % 1000;
  }

  /**
   * For a clock finer than a millisecond whose ticks below a second fit in an
   * `int`, the formatter as written prints the ticks left over after the
   * seconds as if they were milliseconds; when they are 1000 or more the
   * parser refuses its own text.
   */
  lemma TimePointSubMillisecondsRejected(ticks: int, perSecond: int, minTicks: int, maxTicks: int)
    requires perSecond >= 1000 && perSecond % 1000 == 0 && minTicks <= 0 <= maxTicks && perSecond - 1 <= IntMax
    requires ticks % perSecond >= 1000
    requires 0 <= UnixTimeToUtc(ticks / perSecond).year <= IntMax
    ensures ParseTimePoint(FormatTimePointAsWritten(ticks, perSecond), perSecond, minTicks, maxTicks) == Failure(OutOfBoundsValue)
  {
    var u := UnixTimeToUtc(ticks / perSecond);
    var r := ticks % perSecond;
    var s := FormatTimePointAsWritten(ticks, perSecond);
    FormatTimePointAsWrittenOfRemainder(ticks, perSecond);
    assert s == FormatUtcExt(UtcExt(u, r));
    ValidIsInParserBounds(u, 0);
    assert InParserBounds(UtcExt(u, r).(ms := 0));
    ParseRejectsWideMilliseconds(UtcExt(u, r));
    assert ParseIso(s) == Failure(OutOfBoundsValue);
    ParseTimePointFails(s, perSecond, minTicks, maxTicks);
  }

  // ---------------------------------------------------------------------------
  // The parser as a procedure over a cursor
  // ---------------------------------------------------------------------------

  /** `std::from_chars` into a number of unbounded width: the loop over the digits at `pos`. */
  method FromChars(s: string, pos: nat) returns (r: Part)
    requires pos <= |s|
    ensures r == ReadDigits(s, pos, 0)
  {
    var value: nat := 0;
    var i := pos;
    while i < |s| && IsDigit(s[i])
      invariant pos <= i <= |s|
      invariant ReadDigits(s, i, value) == ReadDigits(s, pos, 0)
      decreases |s| - i
    {
      value := 10 * value + DigitValue(s[i]);
      i := i + 1;
    }
    r := Part(value, i);
  }

  /** The lambda `parseDatetimePart`: one field, its bound and its delimiter. */
  method ParseDatetimePart(s: string, pos: nat, maxValue: int, delimiter: Option<char>) returns (r: Result<Part, ParseError>)
    requires pos <= |s|
    ensures r == ParsePart(s, pos, maxValue, delimiter)
  {
    if pos == |s| || !IsDigit(s[pos]) {
      return Failure(NotIsoDatetime);
    }
    var number := FromChars(s, pos);
    if number.value > IntMax {
      return Failure(NotIsoDatetime);
    }
    if maxValue != 0 && number.value > maxValue {
      return Failure(OutOfBoundsValue);
    }
    match delimiter {
      case None =>
        r := Success(number);
      case Some(c) =>
        if number.next < |s| && s[number.next] == c {
          r := Success(Part(number.value, number.next + 1));
        } else {
          r := Failure(NotIsoDatetime);
        }
    }
  }

  /** The lambda `parseDatetime`: the fields one after the other, moving the cursor past each, with month and day 00 refused. */
  method ParseDatetime(s: string) returns (r: Result<UtcExt, ParseError>)
    ensures r == ParseIso(s)
  {
    var year :- ParseDatetimePart(s, 0, 0, Some('-'));
    var month :- ParseDatetimePart(s, year.next, 12, Some('-'));
    if month.value == 0 {
      return Failure(OutOfBoundsValue);
    }
    var day :- ParseDatetimePart(s, month.next, DaysInMonth[month.value - 1], Some('T'));
    if day.value == 0 {
      return Failure(OutOfBoundsValue);
    }
    var hour :- ParseDatetimePart(s, day.next, 23, Some(':'));
    var minute :- ParseDatetimePart(s, hour.next, 59, Some(':'));
    var second :- ParseDatetimePart(s, minute.next, 59, None);
    var ms := 0;
    var pos := second.next;
    if pos < |s| && s[pos] == '.' {
      var part :- ParseDatetimePart(s, pos + 1, 999, Some('Z'));
      ms := part.value;
    } else if !(pos < |s| && s[pos] == 'Z') {
      return Failure(NotIsoDatetime);
    }
    r := Success(UtcExt(Utc(year.value, month.value, day.value, hour.value, minute.value, second.value), ms));
  }
}
