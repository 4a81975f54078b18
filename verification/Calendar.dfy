/**
  `Date` and the UTC half of `TimeZone` (`muduo/base/Date.cc`, `muduo/base/TimeZone.cc`): the closed
  formulas against the Gregorian calendar, and the round trip between seconds and broken-down time.
*/
module Calendar {

  datatype Date = Date(year: int, month: int, day: int)

  /** Division and remainder of C++: towards zero. */
  function Quot(a: int, b: int): (q: int)
    requires b > 0
  {
    if a >= 0 then a / b else -((-a) / b)
  }

  function Rem(a: int, b: int): (r: int)
    requires b > 0
  {
    a - b * Quot(a, b)
  }

  // ----- the calendar

  predicate Leap(y: int) {
    y % 4 == 0 && (y % 100 != 0 || y % 400 == 0)
  }

  function DaysIn(y: int, m: int): (n: int) {
    if m == 2 then (if Leap(y) then 29 else 28)
    else if m == 4 || m == 6 || m == 9 || m == 11 then 30 else 31
  }

  predicate Valid(d: Date) {
    1 <= d.month <= 12 && 1 <= d.day <= DaysIn(d.year, d.month)
  }

  function NextDay(d: Date): (e: Date) {
    if d.day < DaysIn(d.year, d.month) then d.(day := d.day + 1)
    else if d.month < 12 then Date(d.year, d.month + 1, 1)
    else Date(d.year + 1, 1, 1)
  }

  predicate Before(d: Date, e: Date) {
    d.year < e.year || (d.year == e.year && (d.month < e.month || (d.month == e.month && d.day < e.day)))
  }

  // ----- the formulas

  function GetJulianDayNumber(d: Date): (j: int) {
    var a := Quot(14 - d.month, 12);
    var y := d.year + 4800 - a;
    var m := d.month + 12 * a - 3;
    d.day + Quot(153 * m + 2, 5) + y * 365 + Quot(y, 4) - Quot(y, 100) + Quot(y, 400) - 32045
  }

  function GetYearMonthDay(j: int): (d: Date) {
    var a := j + 32044;
    var b := Quot(4 * a + 3, 146097);
    var c := a - Quot(b * 146097, 4);
    var d := Quot(4 * c + 3, 1461);
    var e := c - Quot(1461 * d, 4);
    var m := Quot(5 * e + 2, 153);
    Date(b * 100 + d - 4800 + Quot(m, 10), m + 3 - 12 * Quot(m, 10), e - Quot(153 * m + 2, 5) + 1)
  }

  /** The first date the formulas are right for: 1 March of the year -4800, day number -32044. */
  predicate InEra(d: Date) {
    d.year > -4800 || (d.year == -4800 && d.month >= 3)
  }

  const ERA := -32044

  // ----- years that begin in March

  /** Days from 1 March of the year `y` to 1 March of the next one, and before it since the era. */
  function MarchYears(y: int): (n: int) {
    365 * y + y / 4 - y / 100 + y / 400
  }

  function MarchDay(m: int): (n: int) {
    (153 * m + 2) / 5
  }

  /** Length of month number `m` counted from March. */
  lemma MarchMonths(m: int)
    requires 0 <= m <= 10
    ensures MarchDay(m + 1) - MarchDay(m) == (if m == 1 || m == 3 || m == 6 || m == 8 then 30 else 31)
  {
  }

  lemma NextQuotient(y: int, k: int)
    requires k == 4 || k == 100 || k == 400
    ensures (y + 1) / k - y / k == if (y + 1) % k == 0 then 1 else 0
  {
    if k == 4 {
    } else if k == 100 {
    } else {
    }
  }

  lemma Centuries(y: int)
    ensures (y % 100 == 0 ==> y % 4 == 0) && (y % 400 == 0 ==> y % 100 == 0)
  {
    assert y % 100 == 0 ==> y == 4 * (25 * (y / 100));
    assert y % 400 == 0 ==> y == 100 * (4 * (y / 400));
  }

  lemma MarchYearLength(y: int)
    ensures MarchYears(y + 1) - MarchYears(y) == if Leap(y + 1) then 366 else 365
  {
    var q4, q100, q400 := (y + 1) / 4 - y / 4, (y + 1) / 100 - y / 100, (y + 1) / 400 - y / 400;
    NextQuotient(y, 4);
    NextQuotient(y, 100);
    NextQuotient(y, 400);
    Centuries(y + 1);
    assert MarchYears(y + 1) - MarchYears(y) == 365 + q4 - q100 + q400;
  }

  lemma LeapShift(y: int)
    ensures Leap(y + 4800) == Leap(y)
  {
    Shift4(y, 1200);
    Shift100(y, 48);
    Shift400(y, 12);
  }

  lemma Shift4(y: int, q: int)
    ensures (y + 4 * q) % 4 == y % 4
  {
  }

  lemma Shift100(y: int, q: int)
    ensures (y + 100 * q) % 100 == y % 100
  {
  }

  lemma Shift400(y: int, q: int)
    ensures (y + 400 * q) % 400 == y % 400
  {
  }

  /** The day number of a date, by its year and month counted from March. */
  lemma DayNumberFromMarch(d: Date)
    requires Valid(d) && InEra(d)
    ensures var a := if d.month <= 2 then 1 else 0;
      && d.year + 4800 - a >= 0
      && GetJulianDayNumber(d) == d.day + MarchDay(d.month + 12 * a - 3) + MarchYears(d.year + 4800 - a) - 32045
  {
  }

  /** The next calendar day has the next day number. */
  lemma NextDayNextNumber(d: Date)
    requires Valid(d) && InEra(d)
    ensures Valid(NextDay(d)) && InEra(NextDay(d)) && GetJulianDayNumber(NextDay(d)) == GetJulianDayNumber(d) + 1
  {
    hide GetJulianDayNumber, MarchYears, Leap;
    var e := NextDay(d);
    DayNumberFromMarch(d);
    DayNumberFromMarch(e);
    if d.day == DaysIn(d.year, d.month) {
      if d.month == 2 {
        MarchYearLength(d.year + 4799);
        LeapShift(d.year);
      } else {
        MarchMonths(d.month + (if d.month == 1 then 12 else 0) - 3);
      }
    }
  }

  // ----- back from the day number

  lemma CenturyPart(a: int) returns (b: int, c: int)
    requires a >= 0
    ensures b == Quot(4 * a + 3, 146097) >= 0 && c == a - Quot(b * 146097, 4)
    ensures a == 36524 * b + b / 4 + c && 0 <= c <= 36524 && (c == 36524 ==> b % 4 == 3)
  {
    b := (4 * a + 3) / 146097;
    assert b * 146097 / 4 == 36524 * b + b / 4;
    c := a - (36524 * b + b / 4);
    assert 146097 * b <= 4 * a + 3 < 146097 * b + 146097;
  }

  lemma YearPart(c: int) returns (d: int, e: int)
    requires 0 <= c <= 36524
    ensures d == Quot(4 * c + 3, 1461) && e == c - Quot(1461 * d, 4)
    ensures c == 365 * d + d / 4 + e && 0 <= d <= 99 && 0 <= e <= 365
    ensures e == 365 ==> d % 4 == 3 && (d == 99 ==> c == 36524)
  {
    d := (4 * c + 3) / 1461;
    assert 1461 * d / 4 == 365 * d + d / 4;
    e := c - (365 * d + d / 4);
  }

  /** Month and day from the number of the day in the March year. */
  lemma MonthPart(e: int) returns (m: int, day: int)
    requires 0 <= e <= 365
    ensures m == Quot(5 * e + 2, 153) && day == e - Quot(153 * m + 2, 5) + 1
    ensures 0 <= m <= 11 && e == MarchDay(m) + day - 1 && Quot(m, 10) == (if m >= 10 then 1 else 0)
    ensures 1 <= day && (m < 11 ==> day <= MarchDay(m + 1) - MarchDay(m))
    ensures m == 11 ==> day <= 29 && (day == 29 ==> e == 365)
  {
    m := (5 * e + 2) / 153;
    day := e - (153 * m + 2) / 5 + 1;
  }

  lemma CenturyYears(b: int, d: int)
    requires b >= 0 && 0 <= d <= 99
    ensures MarchYears(100 * b + d) == 36524 * b + b / 4 + 365 * d + d / 4
  {
    assert (100 * b + d) / 100 == b;
    assert (100 * b + d) / 4 == 25 * b + d / 4;
    assert (100 * b + d) / 400 == b / 4;
  }

  lemma LeapCentury(b: int, d: int)
    requires b >= 0 && 0 <= d <= 99 && d % 4 == 3 && (d == 99 ==> b % 4 == 3)
    ensures Leap(100 * b + d + 1)
  {
    var y := 100 * b + d + 1;
    if d == 99 {
      assert y == 400 * (b / 4 + 1);
      Shift400(0, b / 4 + 1);
      Centuries(y);
    } else {
      Shift100(d + 1, b);
      Shift4(d + 1, 25 * b);
    }
  }

  /** The date with March year `100 * b + d`, month `m` from March and day `day`. */
  function MarchDate(b: int, d: int, m: int, day: int): (x: Date) {
    Date(b * 100 + d - 4800 + (if m >= 10 then 1 else 0), m + 3 - (if m >= 10 then 12 else 0), day)
  }

  lemma Pieces(j: int) returns (b: int, d: int, e: int, m: int, day: int)
    requires j >= ERA
    ensures GetYearMonthDay(j) == MarchDate(b, d, m, day)
    ensures b >= 0 && 0 <= d <= 99 && 0 <= e <= 365 && 0 <= m <= 11 && e == MarchDay(m) + day - 1
    ensures j - ERA == 36524 * b + b / 4 + 365 * d + d / 4 + e
    ensures 1 <= day && (m < 11 ==> day <= MarchDay(m + 1) - MarchDay(m)) && (m == 11 ==> day <= 29)
    ensures m == 11 && day == 29 ==> d % 4 == 3 && (d == 99 ==> b % 4 == 3)
  {
    hide MarchDay, Quot;
    var c;
    b, c := CenturyPart(j + 32044);
    d, e := YearPart(c);
    m, day := MonthPart(e);
  }

  /** Every day number from the era on is the number of the valid date computed from it. */
  lemma DayNumberOfDate(j: int)
    requires j >= ERA
    ensures var d := GetYearMonthDay(j); Valid(d) && InEra(d) && GetJulianDayNumber(d) == j
  {
    hide MarchYears, Leap, GetJulianDayNumber, GetYearMonthDay, MarchDay;
    var b, d, e, m, day := Pieces(j);
    var x := MarchDate(b, d, m, day);
    CenturyYears(b, d);
    if m < 11 {
      MarchMonths(m);
    } else if day == 29 {
      LeapCentury(b, d);
      LeapShift(x.year);
    }
    DayNumberFromMarch(x);
  }

  // ----- and so they are inverse

  lemma {:induction false} LaterHasGreaterNumber(d: Date, e: Date)
    requires Valid(d) && Valid(e) && InEra(d) && Before(d, e)
    ensures GetJulianDayNumber(d) < GetJulianDayNumber(e)
  {
    hide GetJulianDayNumber, MarchYears, Leap;
    DayNumberFromMarch(d);
    DayNumberFromMarch(e);
    var a, a' := if d.month <= 2 then 1 else 0, if e.month <= 2 then 1 else 0;
    var y, y' := d.year + 4800 - a, e.year + 4800 - a';
    if y < y' {
      MarchYearsGrow(y, y');
      LeapShift(d.year);
    }
  }

  /** A later March year starts after the whole of an earlier one. */
  lemma {:induction false} MarchYearsGrow(y: int, y': int)
    requires y < y'
    ensures MarchYears(y') >= MarchYears(y) + (if Leap(y + 1) then 366 else 365)
    decreases y' - y
  {
    hide MarchYears, Leap;
    MarchYearLength(y);
    if y + 1 < y' {
      MarchYearsGrow(y + 1, y');
    }
  }

  /** `getYearMonthDay` undoes `getJulianDayNumber` on every valid date from the era on. */
  lemma DateOfDayNumber(d: Date)
    requires Valid(d) && InEra(d)
    ensures GetJulianDayNumber(d) >= ERA && GetYearMonthDay(GetJulianDayNumber(d)) == d
  {
    hide GetJulianDayNumber, GetYearMonthDay, Leap;
    var first := Date(-4800, 3, 1);
    assert GetJulianDayNumber(first) == ERA by {
      FirstDay();
    }
    if first != d {
      LaterHasGreaterNumber(first, d);
    }
    var e := GetYearMonthDay(GetJulianDayNumber(d));
    DayNumberOfDate(GetJulianDayNumber(d));
    if Before(d, e) {
      LaterHasGreaterNumber(d, e);
    } else if Before(e, d) {
      LaterHasGreaterNumber(e, d);
    }
  }

  lemma FirstDay()
    ensures GetJulianDayNumber(Date(-4800, 3, 1)) == ERA
  {
  }

  // ----- int range

  predicate FitsInt(x: int) {
    -0x8000_0000 <= x < 0x8000_0000
  }

  /** Every value that `getYearMonthDay` computes on the way fits a 32-bit int. */
  ghost predicate NoOverflow(j: int) {
    var a := j + 32044;
    var b := Quot(4 * a + 3, 146097);
    var c := a - Quot(b * 146097, 4);
    var d := Quot(4 * c + 3, 1461);
    var e := c - Quot(1461 * d, 4);
    var m := Quot(5 * e + 2, 153);
    && FitsInt(a) && FitsInt(4 * a) && FitsInt(4 * a + 3) && FitsInt(b * 146097) && FitsInt(c) && FitsInt(4 * c + 3)
    && FitsInt(1461 * d) && FitsInt(e) && FitsInt(5 * e + 2) && FitsInt(153 * m + 2) && FitsInt(b * 100 + d)
  }

  /** From the era on, 32-bit arithmetic is exact precisely up to day number 536838867. */
  lemma OverflowLimit(j: int)
    requires j >= ERA
    ensures NoOverflow(j) <==> j <= 536838867
  {
    hide Quot, MarchDay;
    var b, c := CenturyPart(j + 32044);
    var d, e := YearPart(c);
    var m, day := MonthPart(e);
  }

  /** Every value that `getJulianDayNumber` computes on the way fits a 32-bit int. */
  ghost predicate NoDateOverflow(d: Date) {
    var a := Quot(14 - d.month, 12);
    var y := d.year + 4800 - a;
    var m := d.month + 12 * a - 3;
    var sum := d.day + Quot(153 * m + 2, 5) + y * 365;
    && FitsInt(d.year + 4800) && FitsInt(y) && FitsInt(153 * m + 2) && FitsInt(y * 365) && FitsInt(sum)
    && FitsInt(sum + Quot(y, 4)) && FitsInt(sum + Quot(y, 4) - Quot(y, 100))
    && FitsInt(sum + Quot(y, 4) - Quot(y, 100) + Quot(y, 400)) && FitsInt(GetJulianDayNumber(d))
  }

  const LAST_DATE := Date(5874689, 12, 15)

  /** From the era on, 32-bit arithmetic is exact precisely up to 15 December 5874689. */
  lemma DateOverflowLimit(d: Date)
    requires Valid(d) && InEra(d)
    ensures NoDateOverflow(d) <==> !Before(LAST_DATE, d)
  {
    hide Leap, NoDateOverflow, MarchDay;
    var a := if d.month <= 2 then 1 else 0;
    SumsFit(d, a);
    LargestSum(d.year + 4800 - a, d.month + 12 * a - 3, d.day);
  }

  /** It is the largest of the partial sums that decides. */
  lemma SumsFit(d: Date, a: int)
    requires Valid(d) && InEra(d) && a == (if d.month <= 2 then 1 else 0)
    ensures var y, m := d.year + 4800 - a, d.month + 12 * a - 3;
      NoDateOverflow(d) <==> d.day + MarchDay(m) + 365 * y + y / 4 < 0x8000_0000
  {
    hide Leap;
    var y, m := d.year + 4800 - a, d.month + 12 * a - 3;
    assert Quot(14 - d.month, 12) == a && 0 <= m <= 11 && y >= 0;
    assert Quot(153 * m + 2, 5) == MarchDay(m) && 0 <= MarchDay(m) <= 337;
    assert y / 400 <= y / 100 <= y / 4 <= y;
    hide Quot, MarchDay;
    assert Quot(y, 4) == y / 4 && Quot(y, 100) == y / 100 && Quot(y, 400) == y / 400 by {
      Quotients(y);
    }
  }

  lemma Quotients(y: int)
    requires y >= 0
    ensures Quot(y, 4) == y / 4 && Quot(y, 100) == y / 100 && Quot(y, 400) == y / 400
  {
  }

  /** The largest of the partial sums, in years that begin in March. */
  lemma LargestSum(y: int, m: int, day: int)
    requires y >= 0 && 0 <= m <= 11 && 1 <= day <= 31
    ensures day + MarchDay(m) + 365 * y + y / 4 < 0x8000_0000 <==>
      y < 5879489 || (y == 5879489 && (m < 9 || (m == 9 && day <= 15)))
  {
  }

  // ----- broken-down UTC time

  const DAY := 24 * 60 * 60
  const EPOCH := 2440588

  lemma EpochDay()
    ensures GetJulianDayNumber(Date(1970, 1, 1)) == EPOCH
  {
  }

  datatype Tm = Tm(sec: int, min: int, hour: int, mday: int, mon: int, year: int, wday: int, yday: int)

  function DateOf(t: Tm): (d: Date) {
    Date(t.year + 1900, t.mon + 1, t.mday)
  }

  function FromUtcTime(t: Tm): (s: int) {
    (GetJulianDayNumber(DateOf(t)) - EPOCH) * DAY + t.hour * 3600 + t.min * 60 + t.sec
  }

  predicate ClockInRange(t: Tm) {
    0 <= t.sec < 60 && 0 <= t.min < 60 && 0 <= t.hour < 24
  }

  /** `fillHMS` for a second of the day. */
  method FillHMS(seconds: int) returns (hour: int, min: int, sec: int)
    requires 0 <= seconds < DAY
    ensures 0 <= sec < 60 && 0 <= min < 60 && 0 <= hour < 24 && seconds == hour * 3600 + min * 60 + sec
  {
    sec := seconds % 60;
    var minutes := seconds / 60;
    min := minutes % 60;
    hour := minutes / 60;
  }

  /** Truncated division with the correction for negative remainders is division rounding down. */
  lemma FloorDivision(s: int)
    ensures var r := Rem(s, DAY); var q := Quot(s, DAY);
      if r < 0 then s == (q - 1) * DAY + (r + DAY) && 0 <= r + DAY < DAY else s == q * DAY + r && 0 <= r < DAY
  {
  }

  /** `Date::weekDay`: 0 is Sunday. */
  function WeekDay(j: int): (w: int) {
    Rem(j + 1, 7)
  }

  /** Days of the week follow each other from day number -1 on; before it they are negative but for Sundays. */
  lemma WeekDays(j: int)
    ensures 0 <= WeekDay(j) < 7 <==> j >= -1 || (j + 1) % 7 == 0
    ensures j >= -1 ==> WeekDay(j + 1) == (WeekDay(j) + 1) % 7
    ensures WeekDay(EPOCH) == 4
  {
  }

  /** The day of the year, from 0, never passes the end of its year. */
  lemma DayOfYear(d: Date)
    requires Valid(d) && d.year > -4800
    ensures var n := GetJulianDayNumber(d) - GetJulianDayNumber(Date(d.year, 1, 1));
      0 <= n < if Leap(d.year) then 366 else 365
  {
    hide GetJulianDayNumber, MarchYears, Leap;
    var first, next := Date(d.year, 1, 1), Date(d.year + 1, 1, 1);
    if d != first {
      LaterHasGreaterNumber(first, d);
    }
    LaterHasGreaterNumber(d, next);
    DayNumberFromMarch(first);
    DayNumberFromMarch(next);
    MarchYearLength(d.year + 4799);
    LeapShift(d.year);
  }

  lemma SplitSeconds(d: int, h: int, m: int, s: int, d': int, h': int, m': int, s': int)
    requires 0 <= s < 60 && 0 <= m < 60 && 0 <= h < 24 && 0 <= s' < 60 && 0 <= m' < 60 && 0 <= h' < 24
    requires d * DAY + h * 3600 + m * 60 + s == d' * DAY + h' * 3600 + m' * 60 + s'
    ensures d == d' && h == h' && m == m' && s == s'
  {
  }

  /** Only one broken-down time stands for a second. */
  lemma FromUtcTimeInjective(t: Tm, u: Tm)
    requires ClockInRange(t) && ClockInRange(u) && Valid(DateOf(t)) && Valid(DateOf(u)) && InEra(DateOf(t))
      && InEra(DateOf(u))
    requires FromUtcTime(t) == FromUtcTime(u)
    ensures DateOf(t) == DateOf(u) && t.hour == u.hour && t.min == u.min && t.sec == u.sec
  {
    hide GetJulianDayNumber, Leap;
    SplitSeconds(GetJulianDayNumber(DateOf(t)) - EPOCH, t.hour, t.min, t.sec, GetJulianDayNumber(DateOf(u)) - EPOCH,
      u.hour, u.min, u.sec);
    DateOfDayNumber(DateOf(t));
    DateOfDayNumber(DateOf(u));
  }

  /** The fields of second `s`: `fromUtcTime` turns them back into `s`, for positive and negative times. */
  method ToUtcTime(s: int, yday: bool) returns (utc: Tm)
    ensures ClockInRange(utc)
    ensures s >= (ERA - EPOCH) * DAY ==>
      && Valid(DateOf(utc)) && InEra(DateOf(utc)) && FromUtcTime(utc) == s
      && utc.wday == WeekDay(GetJulianDayNumber(DateOf(utc)))
      && utc.yday == (if yday
        then GetJulianDayNumber(DateOf(utc)) - GetJulianDayNumber(Date(utc.year + 1900, 1, 1)) else 0)
      && (utc.year + 1900 > -4800 ==> 0 <= utc.yday <= 365)
  {
    hide GetJulianDayNumber, GetYearMonthDay, Quot, Leap, WeekDay;
    var seconds, days := Rem(s, DAY), Quot(s, DAY);
    FloorDivision(s);
    if seconds < 0 {
      seconds := seconds + DAY;
      days := days - 1;
    }
    var hour, min, sec := FillHMS(seconds);
    var j := days + EPOCH;
    if s >= (ERA - EPOCH) * DAY {
      DayNumberOfDate(j);
    }
    var d := GetYearMonthDay(j);
    utc := Tm(sec, min, hour, d.day, d.month - 1, d.year - 1900, WeekDay(j), 0);
    if yday {
      if s >= (ERA - EPOCH) * DAY && d.year > -4800 {
        DayOfYear(d);
      }
      utc := utc.(yday := j - GetJulianDayNumber(Date(d.year, 1, 1)));
    }
  }

  /** The `int` arithmetic of `toUtcTime` for the second `s` is exact: the casts, the date and the start of its year. */
  ghost predicate UtcExact(s: int) {
    var days := s / DAY;
    && FitsInt(Quot(s, DAY)) && FitsInt(days) && FitsInt(days + EPOCH) && FitsInt(days + EPOCH + 1)
      && NoOverflow(days + EPOCH)
    && NoDateOverflow(Date(GetYearMonthDay(days + EPOCH).year, 1, 1))
  }

  /** From 1 March -4800 on, that is so precisely for seconds up to the last one of day number 536838867. */
  lemma UtcExactRange(s: int)
    requires s >= (ERA - EPOCH) * DAY
    ensures UtcExact(s) <==> s < (536838868 - EPOCH) * DAY
  {
    hide GetJulianDayNumber, GetYearMonthDay, NoOverflow, NoDateOverflow, Leap;
    var j := s / DAY + EPOCH;
    OverflowLimit(j);
    DayNumberOfDate(j);
    var first := Date(GetYearMonthDay(j).year, 1, 1);
    FirstYearFits();
    LastNumber();
    if first.year > -4800 {
      DateOverflowLimit(first);
    }
    if Before(LAST_DATE, first) {
      LaterHasGreaterNumber(LAST_DATE, first);
      DayOfYear(GetYearMonthDay(j));
    }
  }

  lemma FirstYearFits()
    ensures NoDateOverflow(Date(-4800, 1, 1))
  {
  }

  lemma LastNumber()
    ensures Valid(LAST_DATE) && GetJulianDayNumber(LAST_DATE) == 2147407506
  {
  }
}
