/**
 * `gmtime_r` of the boot loader's C library (boot/stdc/time/gmtime.c).
 *
 * A `time_t` (64-bit seconds since 1970-01-01 00:00 UTC) is split into seconds, minutes, hours
 * and days with C's truncating `/` and `%`; the days are turned into a proleptic Gregorian date by
 * the era algorithm: days are counted from 0000-03-01, cut into 400-year eras of 146097 days, and
 * years run from March so that the leap day closes the year.
 */
module Gmtime {

  const SECONDS_PER_DAY: int := 86400
  /** Days from 0000-03-01 to 1970-01-01. */
  const EPOCH_SHIFT: int := 719468
  /** Days in 400 Gregorian years. */
  const DAYS_PER_ERA: int := 146097
  /** The times covered: |t| < 2^55 keeps the year inside the 32-bit `tm_year`. */
  const TIME_BOUND: int := 0x80_0000_0000_0000
  const INT_MIN: int := -0x8000_0000
  const INT_MAX: int := 0x7FFF_FFFF

  /** C's `/` on integers: the quotient truncated toward zero. */
  function CDiv(a: int, b: int): (q: int)
    requires b > 0
    ensures a >= 0 ==> q == a / b
    ensures a < 0 ==> q == -((-a) / b)
  {
    if a >= 0 then a / b else -((-a) / b)
  }

  /** C's `%` on integers: the remainder takes the sign of the dividend. */
  function CRem(a: int, b: int): (r: int)
    requires b > 0
    ensures a == CDiv(a, b) * b + r
    ensures a >= 0 ==> 0 <= r < b
    ensures a < 0 ==> -b < r <= 0
  {
    a - CDiv(a, b) * b
  }

  // ----- The reference calendar -----

  predicate IsLeap(y: int)
  {
    y % 4 == 0 && (y % 100 != 0 || y % 400 == 0)
  }

  function DaysInMonth(y: int, m: int): (n: int)
    requires 1 <= m <= 12
    ensures 28 <= n <= 31
  {
    if m == 2 then (if IsLeap(y) then 29 else 28)
    else if m == 4 || m == 6 || m == 9 || m == 11 then 30
    else 31
  }

  /** Days of year y before the first of month m (1 = January). */
  function DaysBeforeMonth(y: int, m: int): (n: int)
    requires 1 <= m <= 12
    ensures 0 <= n <= 31 * (m - 1)
    decreases m
  {
    if m == 1 then 0 else DaysBeforeMonth(y, m - 1) + DaysInMonth(y, m - 1)
  }

  /** Days from 0000-01-01 to the first of January of year y (negative before year 0). */
  function DaysBeforeYear(y: int): int
  {
    365 * y + (y + 3) / 4 - (y + 99) / 100 + (y + 399) / 400
  }

  /** The day number, counted from 1970-01-01, of a date of the proleptic Gregorian calendar. */
  function DaysFromCivil(y: int, m: int, d: int): int
    requires 1 <= m <= 12
  {
    DaysBeforeYear(y) + DaysBeforeMonth(y, m) + d - 1 - DaysBeforeYear(1970)
  }

  // ----- The era algorithm of gmtime_r -----

  /** The era of a day counted from 0000-03-01, as the source computes it with C division. */
  function EraOf(days: int): int
  {
    CDiv(if days >= 0 then days else days - (DAYS_PER_ERA - 1), DAYS_PER_ERA)
  }

  /** Offsetting negative days before the truncating division makes it a floor division. */
  lemma EraIsFloor(days: int)
    ensures EraOf(days) == days / DAYS_PER_ERA
    ensures 0 <= days - EraOf(days) * DAYS_PER_ERA < DAYS_PER_ERA
  {
    if days < 0 {
      var n := -(days - (DAYS_PER_ERA - 1));
      var q := n / DAYS_PER_ERA;
      assert n == q * DAYS_PER_ERA + n % DAYS_PER_ERA;
    }
  }

  /** Days of the March-based years of an era before year-of-era y. */
  function YearStart(y: int): int
  {
    365 * y + y / 4 - y / 100
  }

  /** The year of an era a day of that era falls in. */
  function YearOfEra(doe: int): int
  {
    (doe - doe / 1460 + doe / 36524 - doe / 146096) / 365
  }

  /** The March-based year-of-era yoe ends with a 29 February. */
  predicate LeapInEra(yoe: int)
  {
    (yoe + 1) % 4 == 0 && ((yoe + 1) % 100 != 0 || yoe == 399)
  }

  /** Days of a March-based year before month index mp (0 = March, 11 = February). */
  function MonthStart(mp: int): int
  {
    (153 * mp + 2) / 5
  }

  /** The year found for a day of the era is the one whose days contain it. */
  lemma YearOfEraBounds(doe: int)
    requires 0 <= doe < DAYS_PER_ERA
    ensures 0 <= YearOfEra(doe) <= 399
    ensures YearStart(YearOfEra(doe)) <= doe
    ensures doe < YearStart(YearOfEra(doe)) + 365 + (if LeapInEra(YearOfEra(doe)) then 1 else 0)
  {
    if doe < DAYS_PER_ERA - 1 {
      var c := doe / 36524;
      var r := doe - 36524 * c;
      var f := r / 1461;
      var g := r - 1461 * f;
      CenturySplit(doe, c, r, f, g);
      var k := if g == 1460 then 3 else g / 365;
      YearOfEraSplit(doe, c, f, g, k);
      YearStartSplit(doe, c, f, g, k);
    } else {
      LastDayOfEra(doe);
    }
  }

  /** The last day of an era is the last day of its year 399, a leap year. */
  lemma LastDayOfEra(doe: int)
    requires doe == DAYS_PER_ERA - 1
    ensures YearOfEra(doe) == 399 && LeapInEra(399)
    ensures YearStart(399) == doe - 365
  {
  }

  /** A day of an era before its last: 100-year centuries of 36524 days, then 4-year runs of 1461. */
  lemma CenturySplit(doe: int, c: int, r: int, f: int, g: int)
    requires 0 <= doe < DAYS_PER_ERA - 1
    requires c == doe / 36524 && r == doe - 36524 * c && f == r / 1461 && g == r - 1461 * f
    ensures 0 <= c <= 3 && 0 <= f <= 24 && 0 <= g <= 1460 && (f == 24 ==> g < 1460)
    ensures doe == 36524 * c + 1461 * f + g
  {
  }

  /** The year of the era from the split of the day: 100 per century, 4 per run, then k. */
  lemma YearOfEraSplit(doe: int, c: int, f: int, g: int, k: int)
    requires 0 <= c <= 3 && 0 <= f <= 24 && 0 <= g <= 1460 && (f == 24 ==> g < 1460)
    requires doe == 36524 * c + 1461 * f + g
    requires k == if g == 1460 then 3 else g / 365
    ensures YearOfEra(doe) == 100 * c + 4 * f + k
    ensures 0 <= k <= 3 && 365 * k <= g && (g < 365 * k + 365 || (g == 1460 && k == 3))
  {
    var b := if 24 * c + f + g >= 1460 then 1 else 0;
    assert doe == 1460 * (25 * c + f) + (24 * c + f + g);
    assert doe / 1460 == 25 * c + f + b;
    assert doe / 36524 == c;
    assert doe / 146096 == 0;
    assert doe - doe / 1460 + doe / 36524 - doe / 146096 == 365 * (100 * c + 4 * f) + (g - b);
  }

  /** Year 100c + 4f + k of an era holds day 36524c + 1461f + g when 365k <= g falls in it. */
  lemma YearStartSplit(doe: int, c: int, f: int, g: int, k: int)
    requires 0 <= c <= 3 && 0 <= f <= 24 && 0 <= g <= 1460 && (f == 24 ==> g < 1460)
    requires doe == 36524 * c + 1461 * f + g
    requires 0 <= k <= 3 && 365 * k <= g && (g < 365 * k + 365 || (g == 1460 && k == 3))
    ensures YearStart(100 * c + 4 * f + k) <= doe
    ensures doe < YearStart(100 * c + 4 * f + k) + 365 + (if LeapInEra(100 * c + 4 * f + k) then 1 else 0)
  {
    var y := 100 * c + 4 * f + k;
    assert y / 4 == 25 * c + f;
    assert y / 100 == c;
  }

  /** The month found for a day of a March-based year is the one whose days contain it. */
  lemma MonthBounds(doy: int)
    requires 0 <= doy <= 365
    ensures 0 <= (5 * doy + 2) / 153 <= 11
    ensures MonthStart((5 * doy + 2) / 153) <= doy < MonthStart((5 * doy + 2) / 153 + 1)
  {
  }

  /** A date with the day of its March-based year (0 = 1 March). */
  datatype Civil = Civil(year: int, month: int, day: int, doy: int)

  /** The era of the day `z` counted from 1970-01-01. */
  function EraOfDay(z: int): int
  {
    EraOf(z + EPOCH_SHIFT)
  }

  /** The day of its era of the day `z` counted from 1970-01-01. */
  function DayOfEra(z: int): (doe: int)
    ensures 0 <= doe < DAYS_PER_ERA
    ensures doe == z + EPOCH_SHIFT - EraOfDay(z) * DAYS_PER_ERA
  {
    EraIsFloor(z + EPOCH_SHIFT);
    z + EPOCH_SHIFT - EraOf(z + EPOCH_SHIFT) * DAYS_PER_ERA
  }

  /** The day of its March-based year of a day of an era. */
  function DayOfYearOfEra(doe: int): (doy: int)
    requires 0 <= doe < DAYS_PER_ERA
    ensures 0 <= YearOfEra(doe) <= 399
    ensures 0 <= doy < 365 + (if LeapInEra(YearOfEra(doe)) then 1 else 0)
    ensures doy == doe - YearStart(YearOfEra(doe))
  {
    YearOfEraBounds(doe);
    doe - YearStart(YearOfEra(doe))
  }

  /**
   * The date of the day `z` counted from 1970-01-01 as gmtime_r finds it: the era, the year of
   * the era and the day of that year.
   */
  function CivilFromDays(z: int): (c: Civil)
    ensures 1 <= c.month <= 12 && 1 <= c.day <= DaysInMonth(c.year, c.month)
    ensures 0 <= c.doy <= 365
  {
    var doe := DayOfEra(z);
    CivilOfEraDay(EraOfDay(z), YearOfEra(doe), DayOfYearOfEra(doe))
  }

  /** The month and day of the month of a day of a March-based year of an era. */
  function CivilOfEraDay(era: int, yoe: int, doy: int): (c: Civil)
    requires 0 <= yoe <= 399
    requires 0 <= doy < 365 + (if LeapInEra(yoe) then 1 else 0)
    ensures 1 <= c.month <= 12 && 1 <= c.day <= DaysInMonth(c.year, c.month)
    ensures c.doy == doy
  {
    var y := yoe + era * 400;
    MonthBounds(doy);
    var mp := (5 * doy + 2) / 153;
    var d := doy - MonthStart(mp) + 1;
    var m := if mp < 10 then mp + 3 else mp - 9;
    MonthLengths(y + (if m <= 2 then 1 else 0), mp, yoe, era);
    Civil(y + (if m <= 2 then 1 else 0), m, d, doy)
  }

  /**
   * The March-based months have the lengths of the reference calendar, February that of the
   * year it falls in.
   */
  lemma MonthLengths(year: int, mp: int, yoe: int, era: int)
    requires 0 <= mp <= 11 && 0 <= yoe <= 399
    requires year == yoe + era * 400 + (if mp >= 10 then 1 else 0)
    ensures MonthStart(mp + 1) - MonthStart(mp) ==
      DaysInMonth(year, if mp < 10 then mp + 3 else mp - 9) || mp == 11
    ensures mp == 11 ==>
      365 + (if LeapInEra(yoe) then 1 else 0) - MonthStart(11) == DaysInMonth(year, 2)
  {
    if mp == 11 {
      LeapInEraIsLeap(yoe, era, year);
    }
  }

  /** The March-based year yoe of an era ends in a leap February exactly when the next year is leap. */
  lemma LeapInEraIsLeap(yoe: int, era: int, year: int)
    requires 0 <= yoe <= 399 && year == yoe + 1 + era * 400
    ensures LeapInEra(yoe) <==> IsLeap(year)
  {
    EraShift(yoe + 1, era, year);
  }

  /** Whole eras do not change a year's remainders by 4, 100 and 400, so nor whether it is leap. */
  lemma EraShift(a: int, era: int, shifted: int)
    requires shifted == a + era * 400
    ensures shifted % 4 == a % 4
    ensures shifted % 100 == a % 100
    ensures shifted % 400 == a % 400
    ensures IsLeap(shifted) <==> IsLeap(a)
  {
    Shift4(a, era * 100, shifted);
    Shift100(a, era * 4, shifted);
    Shift400(a, era, shifted);
  }

  lemma Shift4(a: int, k: int, shifted: int)
    requires shifted == a + 4 * k
    ensures shifted % 4 == a % 4
  {
  }

  lemma Shift100(a: int, k: int, shifted: int)
    requires shifted == a + 100 * k
    ensures shifted % 100 == a % 100
  {
  }

  lemma Shift400(a: int, k: int, shifted: int)
    requires shifted == a + 400 * k
    ensures shifted % 400 == a % 400
  {
  }

  /** Whole eras add 146097 days per era to the days before a year. */
  lemma DaysBeforeYearShift(y: int, era: int, shifted: int)
    requires shifted == y + era * 400
    ensures DaysBeforeYear(shifted) == DaysBeforeYear(y) + era * DAYS_PER_ERA
  {
    assert (y + era * 400 + 3) / 4 == (y + 3) / 4 + era * 100 by {
      assert y + era * 400 + 3 == (y + 3) + 4 * (era * 100);
    }
    assert (y + era * 400 + 99) / 100 == (y + 99) / 100 + era * 4 by {
      assert y + era * 400 + 99 == (y + 99) + 100 * (era * 4);
    }
    assert (y + era * 400 + 399) / 400 == (y + 399) / 400 + era;
  }

  /**
   * Within an era, the days before a January-based year and before the March-based year of the
   * same number differ by the January and February of that year.
   */
  lemma DaysBeforeYearInEra(yoe: int)
    requires 0 <= yoe <= 399
    ensures DaysBeforeYear(yoe) + (if IsLeap(yoe) then 1 else 0) == YearStart(yoe) + 1
    ensures DaysBeforeYear(yoe + 1) == YearStart(yoe) + 366
  {
    assert (yoe + 4) / 4 == yoe / 4 + 1;
    assert (yoe + 100) / 100 == yoe / 100 + 1;
    assert (yoe + 400) / 400 == 1;
    if yoe > 0 {
      assert (yoe + 399) / 400 == 1;
      assert (yoe + 3) / 4 == yoe / 4 + (if yoe % 4 == 0 then 0 else 1);
      assert (yoe + 99) / 100 == yoe / 100 + (if yoe % 100 == 0 then 0 else 1);
      assert IsLeap(yoe) <==> yoe % 4 == 0 && yoe % 100 != 0;
    }
  }

  /** Days before a month of the January-based year, from the March-based month index. */
  lemma DaysBeforeMonthFromMarch(y: int, mp: int, m: int)
    requires 0 <= mp <= 11 && m == if mp < 10 then mp + 3 else mp - 9
    ensures DaysBeforeMonth(y, m) ==
      if mp < 10 then 59 + (if IsLeap(y) then 1 else 0) + MonthStart(mp) else MonthStart(mp) - 306
  {
    var l := if IsLeap(y) then 1 else 0;
    assert DaysBeforeMonth(y, 2) == 31;
    assert DaysBeforeMonth(y, 3) == 59 + l;
    assert DaysBeforeMonth(y, 4) == 90 + l;
    assert DaysBeforeMonth(y, 5) == 120 + l;
    assert DaysBeforeMonth(y, 6) == 151 + l;
    assert DaysBeforeMonth(y, 7) == 181 + l;
    assert DaysBeforeMonth(y, 8) == 212 + l;
    assert DaysBeforeMonth(y, 9) == 243 + l;
    assert DaysBeforeMonth(y, 10) == 273 + l;
    assert DaysBeforeMonth(y, 11) == 304 + l;
    assert DaysBeforeMonth(y, 12) == 334 + l;
  }

  /** The date gmtime_r finds for a day names that day again in the reference calendar. */
  lemma CivilRoundTrip(z: int)
    ensures DaysFromCivil(CivilFromDays(z).year, CivilFromDays(z).month, CivilFromDays(z).day) == z
  {
    var doe := DayOfEra(z);
    DateOfEraDay(EraOfDay(z), YearOfEra(doe), DayOfYearOfEra(doe));
  }

  /** The date built from an era, a year of it and a day of that year, in day numbers. */
  lemma DateOfEraDay(era: int, yoe: int, doy: int)
    requires 0 <= yoe <= 399
    requires 0 <= doy < 365 + (if LeapInEra(yoe) then 1 else 0)
    ensures var c := CivilOfEraDay(era, yoe, doy);
      DaysFromCivil(c.year, c.month, c.day) == era * DAYS_PER_ERA + YearStart(yoe) + doy - EPOCH_SHIFT
  {
    MonthBounds(doy);
    var mp := (5 * doy + 2) / 153;
    var c := CivilOfEraDay(era, yoe, doy);
    assert c.year == yoe + era * 400 + (if mp >= 10 then 1 else 0);
    assert c.day == doy - MonthStart(mp) + 1;
    assert c.month == if mp < 10 then mp + 3 else mp - 9;
    if mp < 10 {
      MarchToDecember(yoe, era, mp, c.year, c.month, c.day);
    } else {
      JanuaryFebruary(yoe, era, mp, c.year, c.month, c.day);
    }
  }

  /** A date from March to December, in day numbers, from its era, year of the era and month. */
  lemma MarchToDecember(yoe: int, era: int, mp: int, y: int, m: int, d: int)
    requires 0 <= yoe <= 399 && 0 <= mp < 10
    requires y == yoe + era * 400 && m == mp + 3
    ensures DaysFromCivil(y, m, d) == era * DAYS_PER_ERA + YearStart(yoe) + MonthStart(mp) + d - 1 - EPOCH_SHIFT
  {
    DaysBeforeYearInEra(yoe);
    DaysBeforeMonthFromMarch(y, mp, m);
    DaysBeforeYearShift(yoe, era, y);
    EraShift(yoe, era, y);
    assert DaysBeforeYear(1970) == EPOCH_SHIFT + 60;
  }

  /** A date in January or February, in day numbers, from the era and the March-based year before. */
  lemma JanuaryFebruary(yoe: int, era: int, mp: int, y: int, m: int, d: int)
    requires 0 <= yoe <= 399 && 10 <= mp <= 11
    requires y == yoe + era * 400 + 1 && m == mp - 9
    ensures DaysFromCivil(y, m, d) == era * DAYS_PER_ERA + YearStart(yoe) + MonthStart(mp) + d - 1 - EPOCH_SHIFT
  {
    DaysBeforeYearInEra(yoe);
    DaysBeforeMonthFromMarch(y, mp, m);
    DaysBeforeYearShift(yoe + 1, era, y);
    assert DaysBeforeYear(1970) == EPOCH_SHIFT + 60;
  }

  /** The day of the year a date gets in the reference calendar, from its day of a March-based year. */
  lemma DayOfYear(z: int)
    ensures var c := CivilFromDays(z);
      DaysBeforeMonth(c.year, c.month) + c.day - 1 ==
        if c.month >= 3 then 59 + (if IsLeap(c.year) then 1 else 0) + c.doy else c.doy - 306
  {
    var doe := DayOfEra(z);
    var doy := DayOfYearOfEra(doe);
    var c := CivilOfEraDay(EraOfDay(z), YearOfEra(doe), doy);
    MonthBounds(doy);
    var mp := (5 * doy + 2) / 153;
    assert c.day == doy - MonthStart(mp) + 1;
    assert c.month == if mp < 10 then mp + 3 else mp - 9;
    DaysBeforeMonthFromMarch(c.year, mp, c.month);
  }

  /** The year of the date of a day lies within one era of the day's era. */
  lemma YearNearEra(z: int)
    ensures 0 <= CivilFromDays(z).year - 400 * ((z + EPOCH_SHIFT) / DAYS_PER_ERA) <= 400
  {
    EraIsFloor(z + EPOCH_SHIFT);
    var doe := DayOfEra(z);
    var doy := DayOfYearOfEra(doe);
    var c := CivilOfEraDay(EraOfDay(z), YearOfEra(doe), doy);
    assert c.year - 400 * EraOfDay(z) == YearOfEra(doe) + (if (5 * doy + 2) / 153 >= 10 then 1 else 0);
  }

  /** The year of any day of the times covered fits the 32-bit `tm_year`. */
  lemma YearInRange(days: int)
    requires -0x80_0000_0000 <= days <= 0x80_0000_0000
    ensures INT_MIN <= CivilFromDays(days).year - 1900 <= INT_MAX
  {
    YearNearEra(days);
  }

  /** `struct tm` as gmtime_r fills it (tm_wday and tm_isdst are left alone). */
  datatype Tm = Tm(sec: int, min: int, hour: int, mday: int, mon: int, year: int, yday: int)

  /** The second, counted from 1970-01-01 00:00, that a broken-down time names. */
  function TimeOf(tm: Tm): int
    requires 0 <= tm.mon <= 11
  {
    DaysFromCivil(tm.year + 1900, tm.mon + 1, tm.mday) * SECONDS_PER_DAY +
    tm.hour * 3600 + tm.min * 60 + tm.sec
  }

  /** The days of a time, with C's truncating division. */
  function DaysOf(t: int): (days: int)
    ensures -TIME_BOUND < t < TIME_BOUND ==> -0x80_0000_0000 < days < 0x80_0000_0000
  {
    CDiv(CDiv(CDiv(t, 60), 60), 24)
  }

  /** gmtime_r as written. */
  function GmTimeR(t: int): (r: Tm)
    requires -TIME_BOUND < t < TIME_BOUND
    ensures 0 <= r.mon <= 11 && 1 <= r.mday <= DaysInMonth(r.year + 1900, r.mon + 1)
    ensures INT_MIN <= r.year <= INT_MAX
    ensures t >= 0 ==> 0 <= r.sec < 60 && 0 <= r.min < 60 && 0 <= r.hour < 24
  {
    var sec := CRem(t, 60);
    var t1 := CDiv(t, 60);
    var min := CRem(t1, 60);
    var t2 := CDiv(t1, 60);
    var hour := CRem(t2, 24);
    var days := CDiv(t2, 24);
    assert days == DaysOf(t);
    var c := CivilFromDays(days);
    YearInRange(days);
    Tm(sec, min, hour, c.day, c.month - 1, c.year - 1900, YdayAsWritten(c))
  }

  /**
   * tm_yday as gmtime_r computes it: from the day of the month in January and February, from the
   * day of the March-based year after that.  The leap-year test of the source uses C's `%` on the
   * year, which is zero exactly when Dafny's is.
   */
  function YdayAsWritten(c: Civil): int
  {
    if c.month <= 2 then (if c.month == 1 then c.day - 1 else 31 + c.day - 1)
    else c.doy + 58 + (if IsLeap(c.year) then 1 else 0)
  }

  /** The broken-down time gmtime_r gives names the second it was given. */
  lemma RoundTrip(t: int)
    requires -TIME_BOUND < t < TIME_BOUND
    ensures TimeOf(GmTimeR(t)) == t
  {
    var t1 := CDiv(t, 60);
    var t2 := CDiv(t1, 60);
    var days := CDiv(t2, 24);
    assert t == t1 * 60 + CRem(t, 60);
    assert t1 == t2 * 60 + CRem(t1, 60);
    assert t2 == days * 24 + CRem(t2, 24);
    var r := GmTimeR(t);
    var c := CivilFromDays(days);
    assert r.year + 1900 == c.year && r.mon + 1 == c.month && r.mday == c.day;
    assert r.sec == CRem(t, 60) && r.min == CRem(t1, 60) && r.hour == CRem(t2, 24);
    CivilRoundTrip(days);
    assert DaysFromCivil(c.year, c.month, c.day) == days;
  }

  /**
   * From March on, gmtime_r's tm_yday is one less than the number of days since 1 January; in
   * January and February it is that number.
   */
  lemma YdayOneShort(t: int)
    requires -TIME_BOUND < t < TIME_BOUND
    ensures var r := GmTimeR(t);
      r.yday == DaysBeforeMonth(r.year + 1900, r.mon + 1) + r.mday - 1 - (if r.mon >= 2 then 1 else 0)
  {
    var c := CivilFromDays(DaysOf(t));
    GmTimeRUnfold(t);
    DayOfYear(DaysOf(t));
    YdayOfCivil(c);
  }

  /** tm_yday as written against the days since 1 January, for a date with its March-based day. */
  lemma YdayOfCivil(c: Civil)
    requires 1 <= c.month <= 12
    requires DaysBeforeMonth(c.year, c.month) + c.day - 1 ==
      if c.month >= 3 then 59 + (if IsLeap(c.year) then 1 else 0) + c.doy else c.doy - 306
    ensures YdayAsWritten(c) == DaysBeforeMonth(c.year, c.month) + c.day - 1 - (if c.month >= 3 then 1 else 0)
  {
  }

  /**
   * 1970-03-01 00:00 (5097600) gets tm_yday 58, the day number of 1970-02-28 (5011200), where 59
   * is due.
   */
  lemma MarchFirstYday()
    ensures GmTimeR(5097600).mon == 2 && GmTimeR(5097600).mday == 1 && GmTimeR(5097600).yday == 58
    ensures GmTimeR(5011200).mon == 1 && GmTimeR(5011200).mday == 28 && GmTimeR(5011200).yday == 58
    ensures GmTimeIntended(5097600).yday == 59
  {
    MarchAsWritten(5097600);
    FebruaryAsWritten(5011200);
    MarchIntended(5097600);
  }

  lemma MarchAsWritten(t: int)
    requires t == 5097600
    ensures GmTimeR(t).mon == 2 && GmTimeR(t).mday == 1 && GmTimeR(t).yday == 58
  {
    March1970();
    assert YdayAsWritten(Civil(1970, 3, 1, 0)) == 58;
    assert DaysOf(t) == 59;
    GmTimeRUnfold(t);
    MarchFirst();
  }

  lemma FebruaryAsWritten(t: int)
    requires t == 5011200
    ensures GmTimeR(t).mon == 1 && GmTimeR(t).mday == 28 && GmTimeR(t).yday == 58
  {
    assert YdayAsWritten(Civil(1970, 2, 28, 364)) == 58;
    assert DaysOf(t) == 58;
    GmTimeRUnfold(t);
    LastOfFebruary();
  }

  lemma MarchIntended(t: int)
    requires t == 5097600
    ensures GmTimeIntended(t).yday == 59
  {
    March1970();
    assert t / SECONDS_PER_DAY == 59;
    MarchFirst();
    var c := CivilFromDays(59);
    assert GmTimeIntended(t).yday == DaysBeforeMonth(c.year, c.month) + c.day - 1;
  }

  lemma March1970()
    ensures DaysBeforeMonth(1970, 3) == 59 && !IsLeap(1970)
  {
  }

  lemma MarchFirst()
    ensures CivilFromDays(59) == Civil(1970, 3, 1, 0)
  {
    assert DayOfEra(59) == 135139 && EraOfDay(59) == 4;
    assert YearOfEra(135139) == 370 && YearStart(370) == 135139;
    assert DayOfYearOfEra(135139) == 0;
    assert CivilOfEraDay(4, 370, 0) == Civil(1970, 3, 1, 0);
  }

  lemma LastOfFebruary()
    ensures CivilFromDays(58) == Civil(1970, 2, 28, 364)
  {
    assert DayOfEra(58) == 135138 && EraOfDay(58) == 4;
    assert YearOfEra(135138) == 369 && YearStart(369) == 134774;
    assert DayOfYearOfEra(135138) == 364;
    assert MonthStart(11) == 337;
    assert CivilOfEraDay(4, 369, 364) == Civil(1970, 2, 28, 364);
  }

  /**
   * gmtime_r with floor division, so that times before 1970 get fields in range, and with tm_yday
   * counting the days since 1 January.
   */
  function GmTimeIntended(t: int): (r: Tm)
    requires -TIME_BOUND < t < TIME_BOUND
    ensures 0 <= r.mon <= 11 && 1 <= r.mday <= DaysInMonth(r.year + 1900, r.mon + 1)
    ensures INT_MIN <= r.year <= INT_MAX
    ensures 0 <= r.sec < 60 && 0 <= r.min < 60 && 0 <= r.hour < 24
    ensures r.yday == DaysFromCivil(r.year + 1900, r.mon + 1, r.mday) - DaysFromCivil(r.year + 1900, 1, 1)
  {
    var days := t / SECONDS_PER_DAY;
    var rem := t % SECONDS_PER_DAY;
    var c := CivilFromDays(days);
    YearInRange(days);
    Tm(rem % 60, rem / 60 % 60, rem / 3600, c.day, c.month - 1, c.year - 1900,
      DaysBeforeMonth(c.year, c.month) + c.day - 1)
  }

  /** The corrected broken-down time names the second it was given, too. */
  lemma IntendedRoundTrip(t: int)
    requires -TIME_BOUND < t < TIME_BOUND
    ensures TimeOf(GmTimeIntended(t)) == t
  {
    var days := t / SECONDS_PER_DAY;
    var rem := t % SECONDS_PER_DAY;
    assert t == days * SECONDS_PER_DAY + rem;
    assert rem == rem / 3600 * 3600 + rem / 60 % 60 * 60 + rem % 60;
    var r := GmTimeIntended(t);
    var c := CivilFromDays(days);
    assert r.year + 1900 == c.year && r.mon + 1 == c.month && r.mday == c.day;
    CivilRoundTrip(days);
    assert DaysFromCivil(c.year, c.month, c.day) == days;
  }

  /**
   * The last minute before the epoch: for -60 < t < 0, gmtime_r as written gives 1970-01-01 00:00
   * with tm_sec == t, a negative second, where 1969-12-31 23:59 and 60 + t seconds is meant; one
   * second before the epoch is the instance shown for the corrected version.
   */
  lemma NegativeTimeOutOfRange(t: int)
    requires -60 < t < 0
    ensures GmTimeR(t) == Tm(t, 0, 0, 1, 0, 70, 0)
    ensures GmTimeIntended(-1) == Tm(59, 59, 23, 31, 11, 69, 364)
  {
    AsWrittenBeforeEpoch(t);
    IntendedBeforeEpoch();
  }

  lemma AsWrittenBeforeEpoch(t: int)
    requires -60 < t < 0
    ensures GmTimeR(t) == Tm(t, 0, 0, 1, 0, 70, 0)
  {
    UnderAMinute(t);
    GmTimeRUnfold(t);
    EpochDay();
    assert YdayAsWritten(Civil(1970, 1, 1, 306)) == 0;
  }

  /** Less than a minute before the epoch: all of it is seconds, and the day is day 0. */
  lemma UnderAMinute(t: int)
    requires -60 < t < 0
    ensures CRem(t, 60) == t && CDiv(t, 60) == 0
    ensures CRem(0, 60) == 0 && CRem(0, 24) == 0
    ensures DaysOf(t) == 0
  {
    assert CDiv(0, 60) == 0 && CDiv(0, 24) == 0;
  }

  /** gmtime_r's result, field by field, from the day count of its argument. */
  lemma GmTimeRUnfold(t: int)
    requires -TIME_BOUND < t < TIME_BOUND
    ensures var c := CivilFromDays(DaysOf(t));
      GmTimeR(t) == Tm(CRem(t, 60), CRem(CDiv(t, 60), 60), CRem(CDiv(CDiv(t, 60), 60), 24),
        c.day, c.month - 1, c.year - 1900, YdayAsWritten(c))
  {
  }

  lemma IntendedBeforeEpoch()
    ensures GmTimeIntended(-1) == Tm(59, 59, 23, 31, 11, 69, 364)
  {
    DayBeforeEpoch();
    assert -1 / SECONDS_PER_DAY == -1 && -1 % SECONDS_PER_DAY == 86399;
  }

  lemma EpochDay()
    ensures CivilFromDays(0) == Civil(1970, 1, 1, 306)
  {
    assert DayOfEra(0) == 135080 && EraOfDay(0) == 4;
    assert YearOfEra(135080) == 369 && YearStart(369) == 134774;
    assert DayOfYearOfEra(135080) == 306;
    assert MonthStart(10) == 306;
    assert CivilOfEraDay(4, 369, 306) == Civil(1970, 1, 1, 306);
  }

  lemma DayBeforeEpoch()
    ensures CivilFromDays(-1) == Civil(1969, 12, 31, 305)
    ensures DaysBeforeMonth(1969, 12) == 334
  {
    assert DayOfEra(-1) == 135079 && EraOfDay(-1) == 4;
    assert YearOfEra(135079) == 369 && YearStart(369) == 134774;
    assert DayOfYearOfEra(135079) == 305;
    assert MonthStart(9) == 275;
    assert CivilOfEraDay(4, 369, 305) == Civil(1969, 12, 31, 305);
    assert !IsLeap(1969);
    DaysBeforeMonthFromMarch(1969, 9, 12);
  }
}
