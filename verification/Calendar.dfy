/** `night_gmtime` and the HTTP date text of `night_time.c`. */
module Calendar {
  import opened Basics

  // ---------- the Gregorian calendar ----------

  predicate Leap(y: int) {
    y % 4 == 0 && (y % 100 != 0 || y % 400 == 0)
  }

  function YearDays(y: int): int {
    if Leap(y) then 366 else 365
  }

  function MonthDays(y: int, m: int): int
    requires 1 <= m <= 12
  {
    if m == 2 then (if Leap(y) then 29 else 28) else if m in {4, 6, 9, 11} then 30 else 31
  }

  /** Days from 1970-01-01 to January 1 of year y. */
  function DaysToYear(y: nat): int
    requires y >= 1970
  {
    if y == 1970 then 0 else DaysToYear(y - 1) + YearDays(y - 1)
  }

  /** Days from January 1 to the first of month m. */
  function DaysToMonth(y: int, m: int): int
    requires 1 <= m <= 12
    decreases m
  {
    if m == 1 then 0 else DaysToMonth(y, m - 1) + MonthDays(y, m - 1)
  }

  /** Days from 1970-01-01 to the given date. */
  function DayNumber(y: nat, m: int, d: int): int
    requires y >= 1970 && 1 <= m <= 12
  {
    DaysToYear(y) + DaysToMonth(y, m) + d - 1
  }

  predicate ValidDate(y: int, m: int, d: int) {
    y >= 1970 && 1 <= m <= 12 && 1 <= d <= MonthDays(y, m)
  }

  // ---------- closed forms ----------

  /** Days from March 1 of year 0 to March 1 of year y. */
  function March(y: int): int {
    365 * y + y / 4 - y / 100 + y / 400
  }

  lemma MarchStep(y: nat)
    ensures March(y + 1) == March(y) + 365 + if Leap(y + 1) then 1 else 0
  {
    assert (y + 1) / 4 == y / 4 + if (y + 1) % 4 == 0 then 1 else 0;
    assert (y + 1) / 100 == y / 100 + if (y + 1) % 100 == 0 then 1 else 0;
    assert (y + 1) / 400 == y / 400 + if (y + 1) % 400 == 0 then 1 else 0;
  }

  /** The average Gregorian year has 146097/400 days; March 1 is never far from that line. */
  lemma MarchBound(y: nat)
    ensures 146097 * y - 591 <= 400 * March(y) <= 146097 * y + 288
  {
    var a, b := y / 400, y % 400;
    var c, d := b / 100, b % 100;
    var f, g := d / 4, d % 4;
    assert y / 100 == 4 * a + c;
    assert y / 4 == 100 * a + 25 * c + f;
  }

  /** January 1 of year y is 306 days after March 1 of the year before. */
  lemma {:induction false} DaysToYearIs(y: nat)
    requires y >= 1970
    ensures DaysToYear(y) == March(y - 1) + 306 - 719468
  {
    if y == 1970 {
      assert March(1969) == 719162;
    } else {
      DaysToYearIs(y - 1);
      MarchStep(y - 2);
    }
  }

  /** The year estimate of the code is never low and at most one year, and two days, high. */
  lemma YearEstimate(days: nat)
    ensures
      var year := (days + 2) * 400 / 146097;
      March(year) - 2 <= days < March(year + 1)
  {
    var year := (days + 2) * 400 / 146097;
    assert 146097 * year <= (days + 2) * 400 < 146097 * (year + 1);
    MarchBound(year);
    MarchBound(year + 1);
  }

  // ---------- months counted from March ----------

  /** The code's month of a year that begins in March: 1 is March, 12 is February. */
  function MonthOf(yday: int): int {
    (yday + 31) * 10 / 306
  }

  function MonthStart(mon: int): int {
    367 * mon / 12 - 30
  }

  /** March to December. */
  lemma LateMonths(y: int, yday: int)
    requires 0 <= yday < 306
    ensures
      var mon := MonthOf(yday);
      var month, mday := mon + 2, yday - MonthStart(mon) + 1;
      && 1 <= mon <= 10 && 1 <= mday <= MonthDays(y, month)
      && DaysToMonth(y, month) + mday - 1 == yday + 59 + if Leap(y) then 1 else 0
  {
    assert 1 <= MonthOf(yday) <= 10;
    MonthTable(y, MonthOf(yday) + 2);
  }

  /** January and February, of the next calendar year. */
  lemma EarlyMonths(y: int, yday: int)
    requires 306 <= yday < 365 + if Leap(y + 1) then 1 else 0
    ensures
      var mon := MonthOf(yday);
      var month, mday := mon - 10, yday - MonthStart(mon) + 1;
      && 11 <= mon <= 12 && 1 <= mday <= MonthDays(y + 1, month)
      && DaysToMonth(y + 1, month) + mday - 1 == yday - 306
  {
    assert 11 <= MonthOf(yday) <= 12;
    MonthTable(y + 1, MonthOf(yday) - 10);
  }

  /** The closed form for months is right on every day of the year. */
  lemma MonthIsRight(y: int, yday: int)
    requires 0 <= yday < 365 + if Leap(y + 1) then 1 else 0
    ensures 1 <= MonthOf(yday) <= 12 && (yday >= 306 <==> MonthOf(yday) >= 11)
    ensures
      var mon := MonthOf(yday);
      var year, month := if yday >= 306 then y + 1 else y, if yday >= 306 then mon - 10 else mon + 2;
      var mday := yday - MonthStart(mon) + 1;
      && 1 <= mday <= MonthDays(year, month)
      && DaysToMonth(year, month) + mday - 1 == if yday >= 306 then yday - 306 else yday + 59 + if Leap(y) then 1 else 0
  {
    if yday < 306 {
      LateMonths(y, yday);
    } else {
      EarlyMonths(y, yday);
    }
  }

  lemma MonthTable(y: int, m: int)
    requires 1 <= m <= 12
    ensures
      var l := if Leap(y) then 1 else 0;
      DaysToMonth(y, m) == [0, 31, 59 + l, 90 + l, 120 + l, 151 + l, 181 + l, 212 + l, 243 + l, 273 + l, 304 + l,
        334 + l][m - 1]
  {
    if m > 1 {
      MonthTable(y, m - 1);
    }
  }

  // ---------- night_gmtime ----------

  datatype Tm = Tm(sec: int, min: int, hour: int, mday: int, mon: int, year: int, wday: int)

  const LAST_DAY := 2932896

  predicate In32(x: int) {
    -0x8000_0000 <= x < 0x8000_0000
  }

  /** The value of a long stored in an int. */
  function Wrap32(x: int): (r: int)
    ensures In32(r) && (In32(x) ==> r == x)
  {
    (x + 0x8000_0000) % 0x1_0000_0000 - 0x8000_0000
  }

  /** C division and remainder, which round towards zero. */
  function CDiv(a: int, b: int): int
    requires b > 0
  {
    if a >= 0 then a / b else -((-a) / b)
  }

  function CMod(a: int, b: int): int
    requires b > 0
  {
    a - b * CDiv(a, b)
  }

  /** tm is the moment `sec` seconds into day `days` of the epoch. */
  ghost predicate IsMoment(tm: Tm, days: int, sec: int) {
    && ValidDate(tm.year, tm.mon, tm.mday) && DayNumber(tm.year, tm.mon, tm.mday) == days
    && 0 <= tm.hour < 24 && 0 <= tm.min < 60 && 0 <= tm.sec < 60 && tm.hour * 3600 + tm.min * 60 + tm.sec == sec
    && tm.wday == (4 + days) % 7
  }

  /** The last moment of 9999 stands for all later times, and the epoch for all earlier ones. */
  ghost function ClampedDay(t: int): int {
    if t < 0 then 0 else if t / 86400 > LAST_DAY then LAST_DAY else t / 86400
  }

  ghost function ClampedSecond(t: int): int {
    if t < 0 then 0 else if t / 86400 > LAST_DAY then 86399 else t % 86400
  }

  /** The first day whose year is printed with at most four characters: January 1 of the year -999 as the code
      counts. */
  const FIRST_SHORT := -1084404

  /** The calendar year, from the year and the day counted from March 1. */
  function Shown(year: int, yday: int): int {
    if yday >= 306 then year + 1 else year
  }

  /** The code's own leap test, on a year that may be negative. */
  function CLeap(year: int): int {
    if CMod(year, 4) == 0 && (CMod(year, 100) != 0 || CMod(year, 400) == 0) then 1 else 0
  }

  lemma CLeapIsLeap(year: nat)
    ensures CLeap(year) == if Leap(year) then 1 else 0
  {
  }

  lemma CLeapBounds(year: int)
    ensures 0 <= CLeap(year) <= 1 && CLeap(-999) == 0
  {
  }

  /** The days up to March 1 of a year, as the code computes them. */
  function Passed(year: int): int {
    365 * year + CDiv(year, 4) - CDiv(year, 100) + CDiv(year, 400)
  }

  lemma PassedIsMarch(year: int)
    ensures Passed(year) == if year >= 0 then March(year) else -March(-year)
  {
  }

  /** The correction of an estimate that is too high. */
  function Corrected(year: int, yday: int): (int, int) {
    if yday < 0 then (year - 1, 365 + CLeap(year) + yday) else (year, yday)
  }

  /** Days since March 1 of year 0: the corrected estimate is right. */
  lemma YearAfterZero(days: int, year: int)
    requires 0 <= days && year == (days + 2) * 400 / 146097
    ensures year >= 0
    ensures
      var (y, d) := Corrected(year, days - March(year));
      y >= 0 && 0 <= d < 365 + (if Leap(y + 1) then 1 else 0) && March(y) + d == days
  {
    YearEstimate(days);
    CLeapIsLeap(year);
    if year > 0 {
      MarchStep(year - 1);
    }
    MarchStep(year);
  }

  /** Before that, the estimate rounds towards zero, and is less than a year and three days off. */
  lemma YearBeforeZero(days: int, q: int)
    requires days <= -2 && q == -(days + 2) * 400 / 146097
    ensures q >= 0 && -368 <= days + March(q) <= -2
    ensures q <= 998 ==> days >= -364879
    ensures q >= 1000 ==> days < -364936
  {
    MarchBound(q);
    assert 146097 * q <= -(days + 2) * 400 < 146097 * (q + 1);
  }

  /** There the year is printed with at most four characters from FIRST_SHORT on. */
  lemma ShownBeforeZero(days: int, q: int)
    requires days <= -2 && q == -(days + 2) * 400 / 146097
    ensures
      var (y, d) := Corrected(-q, days + March(q));
      y < 0 && -3 <= d <= 365 && (Shown(y, d) >= -999 <==> days >= FIRST_SHORT + 719468)
  {
    YearBeforeZero(days, q);
    CLeapBounds(-q);
    assert March(999) == 364877;
  }

  /** The estimate of the year, and the days since its March 1, which may be negative; None where an int overflows. */
  method Estimate(days: int) returns (r: Option<(int, int)>)
    requires -0x8000_0000 <= days <= LAST_DAY + 719468
    ensures days >= -1 ==> r.Some? && r.value.0 == (days + 2) * 400 / 146097
    ensures days <= -2 && r.Some? ==> r.value.0 == -(-(days + 2) * 400 / 146097)
    ensures r.Some? ==> r.value.1 == days - Passed(r.value.0)
    ensures days >= FIRST_SHORT + 719468 ==> r.Some?
  {
    if !In32((days + 2) * 400) {
      return None;
    }
    var year := CDiv((days + 2) * 400, 365 * 400 + 100 - 4 + 1);
    var passed := 365 * year + CDiv(year, 4) - CDiv(year, 100) + CDiv(year, 400);
    EstimateFits(days, year);
    return Some((year, days - passed));
  }

  /** No int overflows behind the first product. */
  lemma EstimateFits(days: int, year: int)
    requires In32((days + 2) * 400) && year == CDiv((days + 2) * 400, 146097)
    ensures In32(365 * year) && In32(Passed(year)) && In32(days - Passed(year))
  {
    assert -14700 < year < 14700;
  }

  /** From the day number to year and day of the year, both counted from March 1; None where an int overflows. */
  method YearOf(epochDay: int) returns (r: Option<(int, int)>)
    requires In32(epochDay) && epochDay <= LAST_DAY
    ensures -719468 <= epochDay ==>
              && r.Some? && r.value.0 >= 0 && 0 <= r.value.1 < 365 + (if Leap(r.value.0 + 1) then 1 else 0)
              && March(r.value.0) + r.value.1 == epochDay + 719468
    ensures epochDay < -719468 && r.Some? ==>
              && r.value.0 < 0 && -3 <= r.value.1 <= 365
              && (Shown(r.value.0, r.value.1) >= -999 <==> epochDay >= FIRST_SHORT)
    ensures FIRST_SHORT <= epochDay ==> r.Some?
  {
    if !In32(epochDay - 59) {
      return None;
    }
    var days := epochDay - (31 + 28) + 719527;
    var estimate := Estimate(days);
    if estimate.None? {
      return None;
    }
    var (year, yday) := estimate.value;
    CorrectedEstimate(days, year, yday);
    if yday < 0 {
      var leap := CLeap(year);
      yday := 365 + leap + yday;
      year := year - 1;
    }
    return Some((year, yday));
  }

  lemma CorrectedEstimate(days: int, year: int, yday: int)
    requires days >= -1 ==> year == (days + 2) * 400 / 146097
    requires days <= -2 ==> year == -(-(days + 2) * 400 / 146097)
    requires yday == days - Passed(year)
    ensures
      var (y, d) := Corrected(year, yday);
      if days >= 0 then
        y >= 0 && 0 <= d < 365 + (if Leap(y + 1) then 1 else 0) && March(y) + d == days
      else
        y < 0 && -3 <= d <= 365 && (Shown(y, d) >= -999 <==> days >= FIRST_SHORT + 719468)
  {
    if days >= 0 {
      PositiveEstimate(days, year, yday);
    } else if days == -1 {
      JustBeforeZero(days, year, yday);
    } else {
      NegativeEstimate(days, year, yday);
    }
  }

  lemma PositiveEstimate(days: int, year: int, yday: int)
    requires days >= 0 && year == (days + 2) * 400 / 146097 && yday == days - Passed(year)
    ensures
      var (y, d) := Corrected(year, yday);
      y >= 0 && 0 <= d < 365 + (if Leap(y + 1) then 1 else 0) && March(y) + d == days
  {
    YearAfterZero(days, year);
    PassedIsMarch(year);
  }

  lemma NonePassed(year: int)
    requires year == 0
    ensures Passed(year) == 0
  {
    PassedIsMarch(year);
  }

  lemma ZeroIsLeap(year: int)
    requires year == 0
    ensures CLeap(year) == 1
  {
    CLeapIsLeap(year);
  }

  /** The day before March 1 of year 0. */
  lemma JustBeforeZero(days: int, year: int, yday: int)
    requires days == -1 && year == (days + 2) * 400 / 146097 && yday == days - Passed(year)
    ensures year == 0 && Corrected(year, yday) == (-1, 365)
  {
    assert year == 0;
    assert yday == -1 by {
      NonePassed(year);
    }
    assert CLeap(year) == 1 by {
      ZeroIsLeap(year);
    }
  }

  lemma NegativeEstimate(days: int, year: int, yday: int)
    requires days <= -2 && year == -(-(days + 2) * 400 / 146097) && yday == days - Passed(year)
    ensures
      var (y, d) := Corrected(year, yday);
      y < 0 && -3 <= d <= 365 && (Shown(y, d) >= -999 <==> days >= FIRST_SHORT + 719468)
  {
    var q := -year;
    PassedBack(days, yday, q);
    ShownBeforeZero(days, q);
  }

  lemma CDivBack(q: int)
    requires q >= 0
    ensures CDiv(-q, 4) == -(q / 4) && CDiv(-q, 100) == -(q / 100) && CDiv(-q, 400) == -(q / 400)
  {
  }

  lemma PassedBack(days: int, yday: int, q: int)
    requires q >= 0 && yday == days - Passed(-q)
    ensures yday == days + March(q)
  {
    CDivBack(q);
  }

  /** March 1 of a later year is later. */
  lemma {:induction false} Monotone(a: int, b: int)
    requires a >= 0 && b >= 0
    ensures a < b ==> March(a) + 365 <= March(b)
  {
    if a < b {
      Monotone(a, b - 1);
      MarchStep(b - 1);
    }
  }

  /** Year, month and day of the month from the year and day of the year counted from March 1. */
  lemma DateOf(epochDay: int, y: int, yday: int)
    requires 0 <= epochDay && y >= 1969 && 0 <= yday < 365 + (if Leap(y + 1) then 1 else 0)
    requires March(y) + yday == epochDay + 719468
    ensures 1 <= MonthOf(yday) <= 12
    ensures
      var mon := MonthOf(yday);
      var year, month := if yday >= 306 then y + 1 else y, if yday >= 306 then mon - 10 else mon + 2;
      var mday := yday - MonthStart(mon) + 1;
      ValidDate(year, month, mday) && DayNumber(year, month, mday) == epochDay
  {
    MonthIsRight(y, yday);
    assert March(1969) + 306 == 719468;
    DaysToYearIs(if yday >= 306 then y + 1 else y);
    if y > 1969 {
      MarchStep(y - 1);
    }
  }

  /** On the epoch and after it, the year that begins in March is 1969 or later; before it, it is not, or not yet
      January. */
  lemma EpochYear(epochDay: int, y: int, yday: int)
    requires y >= 0 && 0 <= yday <= 365 && March(y) + yday == epochDay + 719468
    ensures epochDay >= 0 ==> y >= 1969
    ensures epochDay < 0 ==> Shown(y, yday) < 1970
  {
    Monotone(y, 1969);
    Monotone(1969, y);
    MarchAtEpoch();
  }

  lemma MarchAtEpoch()
    ensures March(1969) + 306 == 719468
  {
  }

  /** The month and the day of the month are in range for every corrected day of the year. */
  lemma MonthInRange(yday: int)
    requires -3 <= yday <= 365
    ensures
      var mon := CDiv((yday + 31) * 10, 306);
      && 1 <= (if yday >= 306 then mon - 10 else mon + 2) <= 12
      && 1 <= yday - (CDiv(367 * mon, 12) - 30) + 1 <= 31
  {
    assert 0 <= CDiv((yday + 31) * 10, 306) <= 12;
  }

  /** Indices and numbers that the format of the date text can take. */
  predicate Indexable(tm: Tm) {
    && 0 <= tm.wday < 7 && 1 <= tm.mday <= 31 && 1 <= tm.mon <= 12
    && 0 <= tm.hour < 24 && 0 <= tm.min < 60 && 0 <= tm.sec < 60
  }

  /** The part of `night_gmtime` after the day number is stored in an int. */
  method FromDay(epochDay: int, second: int) returns (r: Option<Tm>)
    requires In32(epochDay) && epochDay <= LAST_DAY && 0 <= second < 86400
    ensures epochDay >= 0 ==> r.Some? && IsMoment(r.value, epochDay, second)
    ensures epochDay < 0 && r.Some? ==>
              && r.value.year < 1970 && r.value.wday == CMod(4 + epochDay, 7) && Indexable(r.value.(wday := 0))
              && (r.value.year >= -999 <==> epochDay >= FIRST_SHORT)
    ensures epochDay >= FIRST_SHORT ==> r.Some?
  {
    var wday := CMod(4 + epochDay, 7);
    var hour := second / 3600;
    var sec := second % 3600;
    var min := sec / 60;
    sec := sec % 60;
    var y := YearOf(epochDay);
    if y.None? {
      return None;
    }
    var (year, yday) := y.value;
    MonthInRange(yday);
    if epochDay >= -719468 {
      EpochYear(epochDay, year, yday);
    }
    var mon := CDiv((yday + 31) * 10, 306);
    var mday := yday - (CDiv(367 * mon, 12) - 30) + 1;
    if epochDay >= 0 {
      DateOf(epochDay, year, yday);
    }
    if yday >= 306 {
      year := year + 1;
      mon := mon - 10;
    } else {
      mon := mon + 2;
    }
    return Some(Tm(sec, min, hour, mday, mon, year, wday));
  }

  /** The times for which the day number survives its storage in an int, or is cut off at the last day anyway. */
  predicate Representable(t: int) {
    t / 86400 <= LAST_DAY || Wrap32(t / 86400) > LAST_DAY || (Wrap32(t / 86400) == LAST_DAY && t % 86400 == 86399)
  }

  /** The day number that the code computes with: stored in an int, then cut off at the last day. */
  function StoredDay(t: int): int {
    if t < 0 then 0 else
      var days := Wrap32(t / 86400);
      if days > LAST_DAY then LAST_DAY else days
  }

  /**
   * `night_gmtime` on a 64-bit time.  The date is right exactly for representable times; no int overflows for a
   * non-negative day number (None stands for an overflow).
   */
  method Gmtime(time: int) returns (r: Option<Tm>)
    requires Int64(time)
    ensures (r.Some? && IsMoment(r.value, ClampedDay(time), ClampedSecond(time))) <==> Representable(time)
    ensures StoredDay(time) >= FIRST_SHORT ==> r.Some?
    ensures r.Some? && StoredDay(time) >= 0 ==> Indexable(r.value) && 1970 <= r.value.year <= 9999
    ensures r.Some? && StoredDay(time) < 0 ==>
              && r.value.year < 1970 && r.value.wday == CMod(4 + StoredDay(time), 7) && Indexable(r.value.(wday := 0))
              && (r.value.year >= -999 <==> StoredDay(time) >= FIRST_SHORT)
    ensures time < 0x8000_0000 * 86400 ==> StoredDay(time) >= 0
  {
    var t := time;
    if t < 0 {
      t := 0;
    }
    var days := Wrap32(t / 86400);
    var sec := t % 86400;
    if days > LAST_DAY {
      days := LAST_DAY;
      sec := 86399;
    }
    r := FromDay(days, sec);
    if days >= 0 {
      FourDigitYear(r.value, days, sec);
    }
  }

  /** The clamp misses times whose day number wraps: 2^32 days after the epoch, the code is back at the epoch. */
  lemma WrappedDay()
    ensures
      var t := 0x1_0000_0000 * 86400;
      Int64(t) && !Representable(t) && Wrap32(t / 86400) == 0 && ClampedDay(t) == LAST_DAY
  {
    assert 0x1_0000_0000 * 86400 / 86400 == 0x1_0000_0000;
    assert Wrap32(0x1_0000_0000) == 0;
  }

  /** Up to the year 5 881 580 the date is right. */
  lemma UsualTimesRepresentable(t: int)
    requires t < 0x8000_0000 * 86400
    ensures Representable(t)
  {
  }

  // ---------- the date text ----------

  const WEEK: seq<string> := ["Sun", "Mon", "Tue", "Wed", "Thu", "Fri", "Sat"]
  const MONTHS: seq<string> := ["Jan", "Feb", "Mar", "Apr", "May", "Jun", "Jul", "Aug", "Sep", "Oct", "Nov", "Dec"]

  function Digit(n: int): (c: char)
    requires 0 <= n < 10
    ensures c as int == '0' as int + n
  {
    ['0', '1', '2', '3', '4', '5', '6', '7', '8', '9'][n]
  }

  /** The number that a text of decimal digits reads as. */
  ghost function Value(s: string): int {
    if s == [] then 0 else 10 * Value(s[..|s| - 1]) + (s[|s| - 1] as int - '0' as int)
  }

  ghost predicate Decimal(s: string) {
    forall i :: 0 <= i < |s| ==> '0' <= s[i] <= '9'
  }

  lemma ValueStep(s: string, c: char)
    ensures Value(s + [c]) == 10 * Value(s) + (c as int - '0' as int)
  {
    assert (s + [c])[..|s|] == s;
  }

  /** A number printed with `%02d`; below 100. */
  function Two(n: int): string
    requires 0 <= n < 100
  {
    [Digit(n / 10), Digit(n % 10)]
  }

  lemma TwoReads(n: int)
    requires 0 <= n < 100
    ensures |Two(n)| == 2 && Decimal(Two(n)) && Value(Two(n)) == n
  {
    var a, b := Digit(n / 10), Digit(n % 10);
    ValueStep([], a);
    ValueStep([a], b);
    assert [] + [a] == [a] && [a] + [b] == Two(n);
  }

  /** A number of four digits. */
  function Four(n: int): string
    requires 1000 <= n <= 9999
  {
    Two(n / 100) + Two(n % 100)
  }

  lemma FourReads(n: int)
    requires 1000 <= n <= 9999
    ensures |Four(n)| == 4 && Decimal(Four(n)) && Value(Four(n)) == n
  {
    var a, b := Two(n / 100), Two(n % 100);
    TwoReads(n / 100);
    TwoReads(n % 100);
    ValueStep(a, b[0]);
    ValueStep(a + [b[0]], b[1]);
    assert a + [b[0]] + [b[1]] == a + b;
    ValueStep([], b[0]);
    ValueStep([b[0]], b[1]);
    assert [] + [b[0]] == [b[0]] && [b[0]] + [b[1]] == b;
  }

  function Digits(n: nat): (r: string)
    ensures |r| >= 1
    ensures n >= 10 ==> |r| >= 2
    ensures n >= 100 ==> |r| >= 3
    ensures n >= 1000 ==> |r| >= 4
    ensures n >= 10000 ==> |r| >= 5
    ensures n < 10 ==> |r| <= 1
    ensures n < 100 ==> |r| <= 2
    ensures n < 1000 ==> |r| <= 3
    ensures n < 10000 ==> |r| <= 4
  {
    if n < 10 then [Digit(n)] else Digits(n / 10) + [Digit(n % 10)]
  }

  lemma {:induction false} DigitsRead(n: nat)
    ensures Decimal(Digits(n)) && Value(Digits(n)) == n
  {
    if n < 10 {
      OneDigitReads(n);
    } else {
      DigitsRead(n / 10);
      MoreDigitsRead(Digits(n / 10), n);
    }
  }

  lemma OneDigitReads(n: nat)
    requires n < 10
    ensures Decimal([Digit(n)]) && Value([Digit(n)]) == n
  {
    ValueStep([], Digit(n));
    assert [] + [Digit(n)] == [Digit(n)];
  }

  lemma MoreDigitsRead(s: string, n: nat)
    requires Decimal(s) && Value(s) == n / 10
    ensures Decimal(s + [Digit(n % 10)]) && Value(s + [Digit(n % 10)]) == n
  {
    ValueStep(s, Digit(n % 10));
  }

  /** A number printed with `%4d`: filled up with blanks on the left. */
  function YearText(n: int): (r: string)
    ensures |r| == 4 <==> -999 <= n <= 9999
  {
    var s := if n < 0 then "-" + Digits(-n) else Digits(n);
    if |s| == 1 then "   " + s else if |s| == 2 then "  " + s else if |s| == 3 then " " + s else s
  }

  lemma TwoDigits(n: int)
    requires 10 <= n < 100
    ensures Digits(n) == Two(n)
  {
    assert Digits(n / 10) == [Digit(n / 10)];
  }

  lemma LastTwo(n: nat)
    ensures n / 10 / 10 == n / 100 && n % 100 / 10 == n / 10 % 10 && n % 100 % 10 == n % 10
  {
  }

  lemma YearOfFourDigits(n: int)
    requires 1000 <= n <= 9999
    ensures YearText(n) == Four(n)
  {
    LastTwo(n);
    TwoDigits(n / 100);
    assert Digits(n / 10) == Two(n / 100) + [Digit(n / 10 % 10)];
    assert Digits(n) == Digits(n / 10) + [Digit(n % 10)];
  }

  predicate Printable(tm: Tm) {
    Indexable(tm) && 1000 <= tm.year <= 9999
  }

  function DayText(tm: Tm): string
    requires Indexable(tm)
  {
    WEEK[tm.wday] + ", " + Two(tm.mday) + " " + MONTHS[tm.mon - 1] + " " + YearText(tm.year)
  }

  function ClockText(tm: Tm): string
    requires Indexable(tm)
  {
    " " + Two(tm.hour) + ":" + Two(tm.min) + ":" + Two(tm.sec) + " GMT"
  }

  /** The IMF-fixdate of section 5.6.7 of RFC 9110, if the year has four digits. */
  function HttpDate(tm: Tm): string
    requires Indexable(tm)
  {
    DayText(tm) + ClockText(tm)
  }

  lemma DayLength(tm: Tm)
    requires Indexable(tm)
    ensures |HttpDate(tm)| == 25 + |YearText(tm.year)|
  {
    var w, m := WEEK[tm.wday], MONTHS[tm.mon - 1];
    assert |w| == 3 && |m| == 3;
  }

  /** Weekday and day of the month. */
  lemma HeadFields(tm: Tm)
    requires Printable(tm)
    ensures
      var s := WEEK[tm.wday] + ", " + Two(tm.mday);
      |s| == 7 && s[0..3] == WEEK[tm.wday] && s[3..5] == ", " && s[5..7] == Two(tm.mday)
  {
    assert |WEEK[tm.wday]| == 3;
  }

  /** Month and year. */
  lemma TailFields(tm: Tm)
    requires Printable(tm)
    ensures
      var s := " " + MONTHS[tm.mon - 1] + " " + YearText(tm.year);
      && |s| == 9 && s[0..1] == " " && s[1..4] == MONTHS[tm.mon - 1] && s[4..5] == " " && s[5..9] == Four(tm.year)
  {
    var m := MONTHS[tm.mon - 1];
    assert |m| == 3;
    YearOfFourDigits(tm.year);
  }

  lemma DayFields(tm: Tm)
    requires Printable(tm)
    ensures
      var s := DayText(tm);
      && |s| == 16 && s[0..3] == WEEK[tm.wday] && s[3..5] == ", " && s[5..7] == Two(tm.mday) && s[7..8] == " "
      && s[8..11] == MONTHS[tm.mon - 1] && s[11..12] == " " && s[12..16] == Four(tm.year)
  {
    var day, rest := WEEK[tm.wday] + ", " + Two(tm.mday), " " + MONTHS[tm.mon - 1] + " " + YearText(tm.year);
    HeadFields(tm);
    TailFields(tm);
    assert DayText(tm) == day + rest;
    Fields16(day, rest);
  }

  lemma Fields16(day: string, rest: string)
    requires |day| == 7 && |rest| == 9
    ensures
      var s := day + rest;
      && |s| == 16 && s[0..3] == day[0..3] && s[3..5] == day[3..5] && s[5..7] == day[5..7] && s[7..8] == rest[0..1]
      && s[8..11] == rest[1..4] && s[11..12] == rest[4..5] && s[12..16] == rest[5..9]
  {
    Inside(day, rest, 0, 3);
    Inside(day, rest, 3, 5);
    Inside(day, rest, 5, 7);
    Behind(day, rest, 0, 1);
    Behind(day, rest, 1, 4);
    Behind(day, rest, 4, 5);
    Behind(day, rest, 5, 9);
  }

  lemma ClockFields(tm: Tm)
    requires Indexable(tm)
    ensures
      var s := ClockText(tm);
      && |s| == 13 && s[0..1] == " " && s[1..3] == Two(tm.hour) && s[3..4] == ":" && s[4..6] == Two(tm.min)
      && s[6..7] == ":" && s[7..9] == Two(tm.sec) && s[9..13] == " GMT"
  {
  }

  lemma DigitReadsBack(n: int, m: int)
    requires 0 <= n < 10 && 0 <= m < 10 && Digit(n) == Digit(m)
    ensures n == m
  {
  }

  lemma TwoReadsBack(n: int, m: int)
    requires 0 <= n < 100 && 0 <= m < 100 && Two(n) == Two(m)
    ensures n == m
  {
    assert Two(n)[0] == Two(m)[0] && Two(n)[1] == Two(m)[1];
    DigitReadsBack(n / 10, m / 10);
    DigitReadsBack(n % 10, m % 10);
  }

  lemma FourReadsBack(n: int, m: int)
    requires 1000 <= n <= 9999 && 1000 <= m <= 9999 && Four(n) == Four(m)
    ensures n == m
  {
    assert Four(n)[..2] == Two(n / 100) && Four(n)[2..] == Two(n % 100);
    assert Four(m)[..2] == Two(m / 100) && Four(m)[2..] == Two(m % 100);
    TwoReadsBack(n / 100, m / 100);
    TwoReadsBack(n % 100, m % 100);
  }

  /** No day up to the last one has a year of more than four digits. */
  lemma FourDigitYear(tm: Tm, days: int, sec: int)
    requires IsMoment(tm, days, sec) && days <= LAST_DAY
    ensures Printable(tm)
  {
    DaysToYearIs(tm.year);
    MonthTable(tm.year, tm.mon);
    Monotone(9999, tm.year - 1);
  }

  /** The text has 29 bytes, and every field and separator is where the format puts it. */
  lemma HttpDateFields(tm: Tm)
    requires Printable(tm)
    ensures
      var s := HttpDate(tm);
      && |s| == 29 && s[0..3] == WEEK[tm.wday] && s[3..5] == ", " && s[5..7] == Two(tm.mday) && s[7..8] == " "
      && s[8..11] == MONTHS[tm.mon - 1] && s[11..12] == " " && s[12..16] == Four(tm.year) && s[16..17] == " "
      && s[17..19] == Two(tm.hour) && s[19..20] == ":" && s[20..22] == Two(tm.min) && s[22..23] == ":"
      && s[23..25] == Two(tm.sec) && s[25..29] == " GMT"
  {
    var day, clock := DayText(tm), ClockText(tm);
    DayFields(tm);
    ClockFields(tm);
    Inside(day, clock, 0, 3);
    Inside(day, clock, 3, 5);
    Inside(day, clock, 5, 7);
    Inside(day, clock, 7, 8);
    Inside(day, clock, 8, 11);
    Inside(day, clock, 11, 12);
    Inside(day, clock, 12, 16);
    Behind(day, clock, 0, 1);
    Behind(day, clock, 1, 3);
    Behind(day, clock, 3, 4);
    Behind(day, clock, 4, 6);
    Behind(day, clock, 6, 7);
    Behind(day, clock, 7, 9);
    Behind(day, clock, 9, 13);
  }

  lemma Inside(a: string, b: string, i: nat, j: nat)
    requires i <= j <= |a|
    ensures (a + b)[i..j] == a[i..j]
  {
  }

  lemma Behind(a: string, b: string, i: nat, j: nat)
    requires i <= j <= |b|
    ensures (a + b)[|a| + i..|a| + j] == b[i..j]
  {
  }

  lemma WeekReadsBack(n: int, m: int)
    requires 0 <= n < 7 && 0 <= m < 7 && WEEK[n] == WEEK[m]
    ensures n == m
  {
    assert WEEK[n][0] == WEEK[m][0] && WEEK[n][1] == WEEK[m][1];
  }

  lemma MonthReadsBack(n: int, m: int)
    requires 0 <= n < 12 && 0 <= m < 12 && MONTHS[n] == MONTHS[m]
    ensures n == m
  {
    assert MONTHS[n][0] == MONTHS[m][0] && MONTHS[n][1] == MONTHS[m][1] && MONTHS[n][2] == MONTHS[m][2];
  }

  /** Read as decimal numbers, the fields are the numbers of the moment. */
  lemma HttpDateReads(tm: Tm)
    requires Printable(tm)
    ensures
      var s := HttpDate(tm);
      && |s| == 29 && Value(s[5..7]) == tm.mday && Value(s[12..16]) == tm.year
      && Value(s[17..19]) == tm.hour && Value(s[20..22]) == tm.min && Value(s[23..25]) == tm.sec
      && Decimal(s[5..7]) && Decimal(s[12..16]) && Decimal(s[17..19]) && Decimal(s[20..22]) && Decimal(s[23..25])
  {
    HttpDateFields(tm);
    TwoReads(tm.mday);
    FourReads(tm.year);
    TwoReads(tm.hour);
    TwoReads(tm.min);
    TwoReads(tm.sec);
  }

  /** The fields of equal texts are equal. */
  lemma SameTexts(a: Tm, b: Tm)
    requires Printable(a) && Printable(b) && HttpDate(a) == HttpDate(b)
    ensures WEEK[a.wday] == WEEK[b.wday] && Two(a.mday) == Two(b.mday) && MONTHS[a.mon - 1] == MONTHS[b.mon - 1]
    ensures Four(a.year) == Four(b.year)
    ensures Two(a.hour) == Two(b.hour) && Two(a.min) == Two(b.min) && Two(a.sec) == Two(b.sec)
  {
    HttpDateFields(a);
    HttpDateFields(b);
  }

  /** Different moments have different texts. */
  lemma HttpDateIsInjective(a: Tm, b: Tm)
    requires Printable(a) && Printable(b) && HttpDate(a) == HttpDate(b)
    ensures a == b
  {
    SameTexts(a, b);
    WeekReadsBack(a.wday, b.wday);
    TwoReadsBack(a.mday, b.mday);
    MonthReadsBack(a.mon - 1, b.mon - 1);
    FourReadsBack(a.year, b.year);
    TwoReadsBack(a.hour, b.hour);
    TwoReadsBack(a.min, b.min);
    TwoReadsBack(a.sec, b.sec);
  }

  /** The times whose text has 29 bytes: the day is not negative, or its weekday index is not and its year is short. */
  predicate FullText(t: int) {
    StoredDay(t) >= -4 || (StoredDay(t) >= FIRST_SHORT && (4 + StoredDay(t)) % 7 == 0)
  }

  /** A negative remainder of C is an index outside the table of weekdays. */
  lemma WeekdayIndex(days: int)
    ensures 0 <= CMod(4 + days, 7) < 7 <==> days >= -4 || (4 + days) % 7 == 0
  {
  }

  /**
   * `night_http_time`; None stands for an overflow or an index outside the name tables.  The text is that of the right
   * moment for representable times, and has 29 bytes exactly for those of FullText.
   */
  method HttpTime(t: int) returns (text: Option<string>)
    requires Int64(t)
    ensures (text.Some? && |text.value| == 29) <==> FullText(t)
    ensures Representable(t) ==>
              && text.Some?
              && exists tm ::
                && IsMoment(tm, ClampedDay(t), ClampedSecond(t)) && Printable(tm) && text.value == HttpDate(tm)
  {
    var tm := Gmtime(t);
    if Representable(t) {
      FourDigitYear(tm.value, ClampedDay(t), ClampedSecond(t));
    }
    WeekdayIndex(StoredDay(t));
    if tm.None? || !Indexable(tm.value) {
      return None;
    }
    DayLength(tm.value);
    text := Some(HttpDate(tm.value));
  }
  // ---------- known moments ----------

  /** January 1 of a later year is later, by the days of the years between. */
  lemma {:induction false} YearsApart(a: nat, b: nat)
    requires 1970 <= a < b
    ensures DaysToYear(a) + YearDays(a) <= DaysToYear(b)
  {
    if a + 1 < b {
      YearsApart(a, b - 1);
    }
  }

  /** A date lies within its year, and within its month. */
  lemma {:induction false} MonthsApart(y: int, m: int, n: int)
    requires 1 <= m < n <= 12
    ensures DaysToMonth(y, m) + MonthDays(y, m) <= DaysToMonth(y, n)
  {
    if m + 1 < n {
      MonthsApart(y, m, n - 1);
    }
  }

  lemma DateInYear(y: nat, m: int, d: int)
    requires ValidDate(y, m, d)
    ensures DaysToYear(y) <= DayNumber(y, m, d) < DaysToYear(y) + YearDays(y)
  {
    MonthTable(y, m);
  }

  /** A day has one date. */
  lemma OneDate(y: nat, m: int, d: int, y': nat, m': int, d': int)
    requires ValidDate(y, m, d) && ValidDate(y', m', d') && DayNumber(y, m, d) == DayNumber(y', m', d')
    ensures y == y' && m == m' && d == d'
  {
    DateInYear(y, m, d);
    DateInYear(y', m', d');
    if y < y' {
      YearsApart(y, y');
    } else if y' < y {
      YearsApart(y', y);
    } else if m < m' {
      MonthsApart(y, m, m');
    } else if m' < m {
      MonthsApart(y, m', m);
    }
  }

  /** The moment of a day and second is one. */
  lemma OneMoment(a: Tm, b: Tm, days: int, sec: int)
    requires IsMoment(a, days, sec) && IsMoment(b, days, sec)
    ensures a == b
  {
    OneDate(a.year, a.mon, a.mday, b.year, b.mon, b.mday);
    OneClock(a.hour, a.min, a.sec, b.hour, b.min, b.sec);
  }

  lemma OneClock(h: int, m: int, s: int, h': int, m': int, s': int)
    requires 0 <= m < 60 && 0 <= s < 60 && 0 <= m' < 60 && 0 <= s' < 60
    requires h * 3600 + m * 60 + s == h' * 3600 + m' * 60 + s'
    ensures h == h' && m == m' && s == s'
  {
  }

  /** The clamp is at the last day of the year 9999. */
  lemma LastDayIs()
    ensures DayNumber(9999, 12, 31) == LAST_DAY
  {
    DaysToYearIs(9999);
    MonthTable(9999, 12);
  }

  /** The firsts of the months of 1970: the day, its weekday and its month.  Every weekday and month is among them. */
  const FIRSTS: seq<(int, string, string)> := [
    (0, "Thu", "Jan"), (31, "Sun", "Feb"), (59, "Sun", "Mar"), (90, "Wed", "Apr"),
    (120, "Fri", "May"), (151, "Mon", "Jun"), (181, "Wed", "Jul"), (212, "Sat", "Aug"),
    (243, "Tue", "Sep"), (273, "Thu", "Oct"), (304, "Sun", "Nov"), (334, "Tue", "Dec")
  ]

  /** The parts of a text that is known. */
  lemma Glue(tm: Tm, week: string, month: string, mday: string, year: string, clock: string)
    requires Printable(tm) && WEEK[tm.wday] == week && MONTHS[tm.mon - 1] == month && Two(tm.mday) == mday
    requires Four(tm.year) == year && ClockText(tm) == clock
    ensures HttpDate(tm) == week + ", " + mday + " " + month + " " + year + clock
  {
    YearOfFourDigits(tm.year);
  }

  lemma FirstMoment(k: nat)
    requires k < 12
    ensures IsMoment(Tm(0, 0, 0, 1, k + 1, 1970, (4 + FIRSTS[k].0) % 7), FIRSTS[k].0, 0)
  {
    MonthTable(1970, k + 1);
  }

  lemma FirstText(k: nat)
    requires k < 12
    ensures HttpDate(Tm(0, 0, 0, 1, k + 1, 1970, (4 + FIRSTS[k].0) % 7))
         == FIRSTS[k].1 + ", " + "01" + " " + FIRSTS[k].2 + " " + "1970" + " 00:00:00 GMT"
  {
    var tm := Tm(0, 0, 0, 1, k + 1, 1970, (4 + FIRSTS[k].0) % 7);
    assert WEEK[tm.wday] == FIRSTS[k].1 && MONTHS[k] == FIRSTS[k].2;
    assert Two(1) == "01" && Two(0) == "00";
    assert Four(1970) == "1970";
    assert ClockText(tm) == " 00:00:00 GMT";
    Glue(tm, FIRSTS[k].1, FIRSTS[k].2, "01", "1970", " 00:00:00 GMT");
  }

  /** The text of a moment that is known. */
  lemma TextOf(t: int, text: Option<string>, moment: Tm)
    requires Representable(t) && IsMoment(moment, ClampedDay(t), ClampedSecond(t)) && text.Some?
    requires exists tm ::
      IsMoment(tm, ClampedDay(t), ClampedSecond(t)) && Printable(tm) && text.value == HttpDate(tm)
    ensures Printable(moment) && text.value == HttpDate(moment)
  {
    var tm :| IsMoment(tm, ClampedDay(t), ClampedSecond(t)) && Printable(tm) && text.value == HttpDate(tm);
    OneMoment(moment, tm, ClampedDay(t), ClampedSecond(t));
  }

  /** The text of each of the firsts; the epoch is the first of them. */
  method FirstOfMonth(k: nat) returns (text: Option<string>)
    requires k < 12
    ensures text == Some(FIRSTS[k].1 + ", " + "01" + " " + FIRSTS[k].2 + " " + "1970" + " 00:00:00 GMT")
  {
    var day := FIRSTS[k].0;
    text := HttpTime(day * 86400);
    FirstMoment(k);
    TextOf(day * 86400, text, Tm(0, 0, 0, 1, k + 1, 1970, (4 + day) % 7));
    FirstText(k);
  }

  /** The example of section 5.6.7 of RFC 9110. */
  method RfcExample() returns (text: Option<string>)
    ensures text == Some("Sun" + ", " + "06" + " " + "Nov" + " " + "1994" + " 08:49:37 GMT")
  {
    text := HttpTime(784111777);
    RfcMoment();
    TextOf(784111777, text, Tm(37, 49, 8, 6, 11, 1994, 0));
    RfcText();
  }

  lemma RfcMoment()
    ensures IsMoment(Tm(37, 49, 8, 6, 11, 1994, 0), 9075, 31777)
    ensures ClampedDay(784111777) == 9075 && ClampedSecond(784111777) == 31777
  {
    DaysToYearIs(1994);
    MonthTable(1994, 11);
  }

  lemma RfcText()
    ensures HttpDate(Tm(37, 49, 8, 6, 11, 1994, 0))
         == "Sun" + ", " + "06" + " " + "Nov" + " " + "1994" + " 08:49:37 GMT"
  {
    var tm := Tm(37, 49, 8, 6, 11, 1994, 0);
    assert Two(6) == "06" && Two(8) == "08" && Two(49) == "49" && Two(37) == "37";
    assert Four(1994) == "1994";
    assert ClockText(tm) == " 08:49:37 GMT";
    Glue(tm, "Sun", "Nov", "06", "1994", " 08:49:37 GMT");
  }
}
