/** UTC instants as package time holds them, the proleptic Gregorian calendar, the text of layout
    time.RFC3339 (section 5.6 of RFC 3339) and the microsecond count of Time.UnixMicro. */
module Time {
  import opened GoInts

  type nanos = n: nat | n < 1_000_000_000

  /** sec seconds since 1970-01-01T00:00:00Z, plus nsec nanoseconds. */
  datatype Time = Time(sec: int, nsec: nanos)

  datatype Civil = Civil(year: int, month: int, day: int, hour: int, minute: int, second: int)

  function UnixMicro(t: Time): int {
    Int64(t.sec * 1_000_000 + t.nsec / 1000)
  }

  /** The microsecond count of t is an int64. */
  predicate FitsMicros(t: Time) {
    -TWO_63 <= t.sec * 1_000_000 + t.nsec / 1000 < TWO_63
  }

  predicate Before(t: Time, u: Time) {
    t.sec < u.sec || (t.sec == u.sec && t.nsec < u.nsec)
  }

  // The calendar.

  const DAYS_TO_EPOCH := 719162

  predicate IsLeap(y: int) {
    y % 4 == 0 && (y % 100 != 0 || y % 400 == 0)
  }

  /** Days from 0001-01-01 to January 1 of year y. */
  function DaysBeforeYear(y: int): int {
    var n := y - 1;
    365 * n + n / 4 - n / 100 + n / 400
  }

  /** Days from January 1 to the first of month m, up to m == 13. */
  function DaysBeforeMonth(y: int, m: int): int
    requires 1 <= m <= 13
  {
    [0, 31, 59, 90, 120, 151, 181, 212, 243, 273, 304, 334, 365][m - 1] + (if m > 2 && IsLeap(y) then 1 else 0)
  }

  predicate IsValid(c: Civil) {
    && 1 <= c.month <= 12
    && 1 <= c.day <= DaysBeforeMonth(c.year, c.month + 1) - DaysBeforeMonth(c.year, c.month)
    && 0 <= c.hour < 24
    && 0 <= c.minute < 60
    && 0 <= c.second < 60
  }

  /** Days from 0001-01-01. */
  function DayNumber(c: Civil): int
    requires IsValid(c)
  {
    DaysBeforeYear(c.year) + DaysBeforeMonth(c.year, c.month) + c.day - 1
  }

  /** time.Date(...).Unix() for fields in range. */
  function SecondsOf(c: Civil): int
    requires IsValid(c)
  {
    (DayNumber(c) - DAYS_TO_EPOCH) * 86400 + c.hour * 3600 + c.minute * 60 + c.second
  }

  /** The year that day d (counted from 0001-01-01) falls in: whole 400-, 100-, 4- and 1-year
      cycles, the last century and the last year of their cycles holding one day more. */
  function YearOf(d: int): int {
    var in400 := d % 146097;
    var n100 := if in400 / 36524 == 4 then 3 else in400 / 36524;
    var in100 := in400 - 36524 * n100;
    var in4 := in100 % 1461;
    var n1 := if in4 / 365 == 4 then 3 else in4 / 365;
    400 * (d / 146097) + 100 * n100 + 4 * (in100 / 1461) + n1 + 1
  }

  /** The last month of year y, up to m, that begins on or before day yday of the year. */
  function MonthFrom(y: int, yday: int, m: int): (r: int)
    requires 1 <= m <= 12
    ensures 1 <= r <= 12
  {
    if m == 1 || DaysBeforeMonth(y, m) <= yday then m else MonthFrom(y, yday, m - 1)
  }

  /** The calendar fields of second s of day d. */
  function CivilAt(d: int, s: nat): Civil {
    var y := YearOf(d);
    var yday := d - DaysBeforeYear(y);
    var m := MonthFrom(y, yday, 12);
    Civil(y, m, yday - DaysBeforeMonth(y, m) + 1, s / 3600, s / 60 % 60, s % 60)
  }

  /** The calendar fields of an instant, as Time.Date and Time.Clock give them. */
  function CivilOf(sec: int): Civil {
    CivilAt(sec / 86400 + DAYS_TO_EPOCH, sec % 86400)
  }

  lemma {:induction false} MonthHoldsDay(y: int, yday: int, m: int)
    requires 1 <= m <= 12 && 0 <= yday < DaysBeforeMonth(y, m + 1)
    ensures var r := MonthFrom(y, yday, m); DaysBeforeMonth(y, r) <= yday < DaysBeforeMonth(y, r + 1)
  {
    if m > 1 && yday < DaysBeforeMonth(y, m) {
      MonthHoldsDay(y, yday, m - 1);
    }
  }

  lemma ClockInverse(s: int)
    requires 0 <= s < 86400
    ensures 0 <= s / 3600 < 24 && 0 <= s / 60 % 60 < 60 && 0 <= s % 60 < 60
    ensures s / 3600 * 3600 + s / 60 % 60 * 60 + s % 60 == s
  {
    assert s / 3600 == s / 60 / 60;
  }

  /** The date fields of day d. */
  lemma DateInverse(d: int)
    ensures var y := YearOf(d); var yday := d - DaysBeforeYear(y); var m := MonthFrom(y, yday, 12);
      0 <= yday && DaysBeforeMonth(y, m) <= yday < DaysBeforeMonth(y, m + 1)
  {
    var y := YearOf(d);
    YearHoldsDay(d);
    YearLength(y);
    MonthHoldsDay(y, d - DaysBeforeYear(y), 12);
  }

  lemma CivilAtInverse(d: int, s: nat)
    requires s < 86400
    ensures var c := CivilAt(d, s);
      IsValid(c) && DayNumber(c) == d && c.hour * 3600 + c.minute * 60 + c.second == s
  {
    DateInverse(d);
    ClockInverse(s);
  }

  /** Every instant has valid calendar fields, and they denote that instant. */
  lemma CivilInverse(sec: int)
    ensures IsValid(CivilOf(sec)) && SecondsOf(CivilOf(sec)) == sec
    ensures var c := CivilOf(sec);
      && 0 <= c.hour < 24 && 0 <= c.minute < 60 && 0 <= c.second < 60
      && c.hour * 3600 + c.minute * 60 + c.second == sec % 86400
  {
    CivilAtInverse(sec / 86400 + DAYS_TO_EPOCH, sec % 86400);
  }

  lemma QuotientSteps(n: int)
    ensures (n + 1) / 4 == n / 4 + (if (n + 1) % 4 == 0 then 1 else 0)
    ensures (n + 1) / 100 == n / 100 + (if (n + 1) % 100 == 0 then 1 else 0)
    ensures (n + 1) / 400 == n / 400 + (if (n + 1) % 400 == 0 then 1 else 0)
  {
  }

  lemma LeapDivisors(y: int)
    ensures y % 400 == 0 ==> y % 100 == 0
    ensures y % 100 == 0 ==> y % 4 == 0
  {
    if y % 400 == 0 {
      var k := 4 * (y / 400) - y / 100;
      assert y % 100 == 100 * k;
    }
    if y % 100 == 0 {
      var k := 25 * (y / 100) - y / 4;
      assert y % 4 == 4 * k;
    }
  }

  lemma YearLength(y: int)
    ensures DaysBeforeYear(y + 1) - DaysBeforeYear(y) == DaysBeforeMonth(y, 13)
  {
    QuotientSteps(y - 1);
    LeapDivisors(y);
  }

  /** A year written as whole cycles: its quotients are sums of the cycle counts. */
  lemma CycleDays(a: int, b: int, c: int, e: int)
    requires 0 <= b < 4 && 0 <= c < 25 && 0 <= e < 4
    ensures DaysBeforeYear(400 * a + 100 * b + 4 * c + e + 1) == 146097 * a + 36524 * b + 1461 * c + 365 * e
  {
    var n := 400 * a + 100 * b + 4 * c + e;
    assert n / 4 == 100 * a + 25 * b + c;
    assert n / 100 == 4 * a + b;
    assert n / 400 == a;
  }

  lemma YearHoldsDay(d: int)
    ensures DaysBeforeYear(YearOf(d)) <= d < DaysBeforeYear(YearOf(d) + 1)
  {
    var in400 := d % 146097;
    var n100 := if in400 / 36524 == 4 then 3 else in400 / 36524;
    var in100 := in400 - 36524 * n100;
    var in4 := in100 % 1461;
    var n1 := if in4 / 365 == 4 then 3 else in4 / 365;
    var a, c := d / 146097, in100 / 1461;
    assert c < 25;
    CycleDays(a, n100, c, n1);
    var y := YearOf(d);
    assert y == 400 * a + 100 * n100 + 4 * c + n1 + 1;
    assert d == 146097 * a + 36524 * n100 + 1461 * c + in4;
    if n1 < 3 {
      CycleDays(a, n100, c, n1 + 1);
    } else if c < 24 {
      CycleDays(a, n100, c + 1, 0);
    } else if n100 < 3 {
      CycleDays(a, n100 + 1, 0, 0);
    } else {
      CycleDays(a + 1, 0, 0, 0);
    }
  }

  /** Years begin in order. */
  lemma {:induction false} YearsOrdered(y: int, z: int)
    requires y < z
    ensures DaysBeforeYear(y) + 365 <= DaysBeforeYear(z)
    decreases z - y
  {
    YearLength(z - 1);
    if y < z - 1 {
      YearsOrdered(y, z - 1);
    }
  }

  /** A month lies in the year after every earlier month. */
  lemma MonthsOrdered(y: int, m: int, n: int)
    requires 1 <= m < n <= 13
    ensures DaysBeforeMonth(y, m + 1) <= DaysBeforeMonth(y, n)
  {
  }

  lemma DayWithinYear(c: Civil)
    requires IsValid(c)
    ensures DaysBeforeYear(c.year) <= DayNumber(c) < DaysBeforeYear(c.year + 1)
  {
    YearLength(c.year);
    if c.month < 12 {
      MonthsOrdered(c.year, c.month, 13);
    }
  }

  lemma YearsOrderedNext(y: int, z: int)
    requires y < z
    ensures DaysBeforeYear(y + 1) <= DaysBeforeYear(z)
  {
    if y + 1 < z {
      YearsOrdered(y + 1, z);
    }
  }

  lemma YearUnique(c: Civil, e: Civil)
    requires IsValid(c) && IsValid(e) && DayNumber(c) == DayNumber(e)
    ensures c.year == e.year
  {
    DayWithinYear(c);
    DayWithinYear(e);
    if c.year < e.year {
      YearsOrderedNext(c.year, e.year);
    } else if e.year < c.year {
      YearsOrderedNext(e.year, c.year);
    }
  }

  lemma DateUnique(c: Civil, e: Civil)
    requires IsValid(c) && IsValid(e) && DayNumber(c) == DayNumber(e)
    ensures (c.year, c.month, c.day) == (e.year, e.month, e.day)
  {
    YearUnique(c, e);
    if c.month < e.month {
      MonthsOrdered(c.year, c.month, e.month);
    } else if e.month < c.month {
      MonthsOrdered(c.year, e.month, c.month);
    }
  }

  lemma ClockUnique(d: int, h: int, m: int, s: int, e: int, i: int, n: int, t: int)
    requires 0 <= h < 24 && 0 <= m < 60 && 0 <= s < 60 && 0 <= i < 24 && 0 <= n < 60 && 0 <= t < 60
    requires d * 86400 + h * 3600 + m * 60 + s == e * 86400 + i * 3600 + n * 60 + t
    ensures (d, h, m, s) == (e, i, n, t)
  {
    var x, y := h * 3600 + m * 60 + s, i * 3600 + n * 60 + t;
    assert 0 <= x < 86400 && 0 <= y < 86400;
    assert d == e;
    assert h * 60 + m == i * 60 + n;
  }

  /** Valid fields are the only ones denoting their instant. */
  lemma CivilUnique(c: Civil)
    requires IsValid(c)
    ensures CivilOf(SecondsOf(c)) == c
  {
    var e := CivilOf(SecondsOf(c));
    CivilInverse(SecondsOf(c));
    ClockUnique(DayNumber(c) - DAYS_TO_EPOCH, c.hour, c.minute, c.second,
                DayNumber(e) - DAYS_TO_EPOCH, e.hour, e.minute, e.second);
    DateUnique(c, e);
  }

  /** The calendar against its usual description: thirty days hath September. */
  lemma MonthLengths(y: int, m: int)
    requires 1 <= m <= 12
    ensures DaysBeforeMonth(y, m + 1) - DaysBeforeMonth(y, m)
            == if m in {4, 6, 9, 11} then 30 else if m == 2 then (if IsLeap(y) then 29 else 28) else 31
    ensures DaysBeforeYear(y + 1) - DaysBeforeYear(y) == if IsLeap(y) then 366 else 365
    ensures SecondsOf(Civil(1970, 1, 1, 0, 0, 0)) == 0
  {
    YearLength(y);
  }

  /** The length of a month: thirty days hath September. */
  function MonthLength(y: int, m: int): int {
    if m in {4, 6, 9, 11} then 30
    else if m == 2 then (if y % 4 == 0 && (y % 100 != 0 || y % 400 == 0) then 29 else 28)
    else 31
  }

  /** The date after c, as one counts on a calendar. */
  function NextDate(c: Civil): Civil {
    if c.day < MonthLength(c.year, c.month) then c.(day := c.day + 1)
    else if c.month < 12 then c.(month := c.month + 1, day := 1)
    else c.(year := c.year + 1, month := 1, day := 1)
  }

  lemma MonthEnds(y: int, m: int)
    requires 1 <= m <= 12
    ensures DaysBeforeMonth(y, m + 1) - DaysBeforeMonth(y, m) == MonthLength(y, m)
    ensures 28 <= MonthLength(y, m)
  {
    MonthLengths(y, m);
  }

  lemma YearEnds(y: int)
    ensures DaysBeforeYear(y + 1) == DaysBeforeYear(y) + DaysBeforeMonth(y, 13)
    ensures DaysBeforeMonth(y, 1) == 0
  {
    YearLength(y);
  }

  lemma NextDateCounts(c: Civil)
    requires IsValid(c)
    ensures IsValid(NextDate(c)) && DayNumber(NextDate(c)) == DayNumber(c) + 1
  {
    MonthEnds(c.year, c.month);
    if c.day == MonthLength(c.year, c.month) {
      if c.month < 12 {
        MonthEnds(c.year, c.month + 1);
      } else {
        MonthEnds(c.year + 1, 1);
        YearEnds(c.year);
        YearEnds(c.year + 1);
      }
    }
  }

  lemma CivilAtSeconds(c: Civil, sec: int)
    requires IsValid(c) && SecondsOf(c) == sec
    ensures CivilOf(sec) == c
  {
    CivilUnique(c);
  }

  lemma NextDateSeconds(c: Civil)
    requires IsValid(c)
    ensures IsValid(NextDate(c)) && SecondsOf(NextDate(c)) == SecondsOf(c) + 86400
  {
    NextDateCounts(c);
  }

  lemma Epoch()
    ensures CivilOf(0) == Civil(1970, 1, 1, 0, 0, 0)
  {
    MonthLengths(1970, 1);
    CivilAtSeconds(Civil(1970, 1, 1, 0, 0, 0), 0);
  }

  /** The calendar day by day: it starts on 1970-01-01, and every 86400 seconds the date is the next one
      and the time of day the same. */
  lemma DaysGoBy(sec: int)
    ensures CivilOf(0) == Civil(1970, 1, 1, 0, 0, 0)
    ensures CivilOf(sec + 86400) == NextDate(CivilOf(sec))
  {
    Epoch();
    CivilInverse(sec);
    NextDateSeconds(CivilOf(sec));
    CivilAtSeconds(NextDate(CivilOf(sec)), sec + 86400);
  }
}
