/** unix2date of src/ustar.c, against the closed form of the Gregorian calendar. */
module Date {
  datatype Datetime = Datetime(year: int, month: int, day: int, hour: int, minute: int, second: int)

  predicate IsLeap(y: int) {
    y % 4 == 0 && (y % 100 != 0 || y % 400 == 0)
  }

  const DAYS_PER_MONTH: seq<int> := [31, 28, 31, 30, 31, 30, 31, 31, 30, 31, 30, 31]

  function DaysInYear(y: int): int {
    if IsLeap(y) then 366 else 365
  }

  function DaysInMonth(y: int, m: int): int
    requires 1 <= m <= 12
  {
    if m == 2 then (if IsLeap(y) then 29 else 28)
    else if m == 4 || m == 6 || m == 9 || m == 11 then 30
    else 31
  }

  /** Days from 1 January of year 1 to 1 January of year y: the Gregorian closed form. */
  function DaysBeforeYear(y: int): int {
    365 * (y - 1) + (y - 1) / 4 - (y - 1) / 100 + (y - 1) / 400
  }

  const EPOCH: int := 719162

  /** Days from 1 January to the first of month m. */
  function DaysBeforeMonth(y: int, m: int): int
    requires 1 <= m <= 13
  {
    if m == 1 then 0 else DaysBeforeMonth(y, m - 1) + DaysInMonth(y, m - 1)
  }

  ghost predicate ValidDatetime(d: Datetime) {
    && 1 <= d.month <= 12 && 1 <= d.day <= DaysInMonth(d.year, d.month)
    && 0 <= d.hour < 24 && 0 <= d.minute < 60 && 0 <= d.second < 60
  }

  /** The seconds since 1970 that a date and time stand for. */
  function ToUnix(d: Datetime): int
    requires 1 <= d.month <= 12
  {
    (DaysBeforeYear(d.year) - EPOCH + DaysBeforeMonth(d.year, d.month) + d.day - 1) * 86400
    + d.hour * 3600 + d.minute * 60 + d.second
  }

  lemma EpochIs1970()
    ensures DaysBeforeYear(1970) == EPOCH
  {}

  /** A year is as long as the closed form says. */
  lemma YearStep(y: int)
    ensures DaysBeforeYear(y + 1) == DaysBeforeYear(y) + DaysInYear(y)
  {
    QuotientStep4(y);
    QuotientStep100(y);
    QuotientStep400(y);
    LeapYears(y);
  }

  lemma LeapYears(y: int)
    ensures y % 400 == 0 ==> y % 100 == 0
    ensures y % 100 == 0 ==> y % 4 == 0
  {
    if y % 400 == 0 {
      MultipleOf100(y, 4 * (y / 400));
    }
    if y % 100 == 0 {
      MultipleOf4(y, 25 * (y / 100));
    }
  }

  lemma MultipleOf100(y: int, q: int)
    requires y == 100 * q
    ensures y % 100 == 0
  {}

  lemma MultipleOf4(y: int, q: int)
    requires y == 4 * q
    ensures y % 4 == 0
  {}

  lemma QuotientStep4(y: int)
    ensures y / 4 == (y - 1) / 4 + if y % 4 == 0 then 1 else 0
  {}

  lemma QuotientStep100(y: int)
    ensures y / 100 == (y - 1) / 100 + if y % 100 == 0 then 1 else 0
  {}

  lemma QuotientStep400(y: int)
    ensures y / 400 == (y - 1) / 400 + if y % 400 == 0 then 1 else 0
  {}

  lemma MonthsMakeAYear(y: int)
    ensures DaysBeforeMonth(y, 13) == DaysInYear(y)
  {
    assert DaysBeforeMonth(y, 2) == 31;
    assert DaysBeforeMonth(y, 3) == 31 + DaysInMonth(y, 2);
    assert DaysBeforeMonth(y, 5) == DaysBeforeMonth(y, 3) + 61;
    assert DaysBeforeMonth(y, 7) == DaysBeforeMonth(y, 5) + 61;
    assert DaysBeforeMonth(y, 9) == DaysBeforeMonth(y, 7) + 62;
    assert DaysBeforeMonth(y, 11) == DaysBeforeMonth(y, 9) + 61;
    assert DaysBeforeMonth(y, 13) == DaysBeforeMonth(y, 11) + 61;
  }

  /** The month table against the closed form of the Gregorian calendar. */
  lemma {:induction false} MonthsClosedForm(y: int, m: int)
    requires 1 <= m <= 13
    ensures DaysBeforeMonth(y, m) == (367 * m - 362) / 12 - (if m <= 2 then 0 else if IsLeap(y) then 1 else 2)
    decreases m
  {
    if m > 1 {
      MonthsClosedForm(y, m - 1);
    }
  }

  /** 12:34:56 on 29 February 2000. */
  lemma KnownDate()
    ensures var d := Datetime(2000, 2, 29, 12, 34, 56); ValidDatetime(d) && ToUnix(d) == 951827696
  {
    assert DaysBeforeMonth(2000, 2) == 31;
  }

  lemma {:induction false} MonthsAreOrdered(y: int, m: int, n: int)
    requires 1 <= m < n <= 13
    ensures DaysBeforeMonth(y, m) + DaysInMonth(y, m) <= DaysBeforeMonth(y, n)
    decreases n
  {
    if m < n - 1 {
      MonthsAreOrdered(y, m, n - 1);
    }
  }

  lemma {:induction false} YearsAreOrdered(y: int, z: int)
    requires y < z
    ensures DaysBeforeYear(y) + DaysInYear(y) <= DaysBeforeYear(z)
    decreases z - y
  {
    YearStep(z - 1);
    if y < z - 1 {
      YearsAreOrdered(y, z - 1);
    }
  }

  lemma {:induction false} MonthsFitYear(y: int, m: int)
    requires 1 <= m <= 12
    ensures 0 <= DaysBeforeMonth(y, m) && DaysBeforeMonth(y, m) + DaysInMonth(y, m) <= DaysInYear(y)
    decreases 12 - m
  {
    if m == 12 {
      MonthsMakeAYear(y);
      MonthsAreOrdered(y, 1, 13);
      MonthsAreOrdered(y, 1, 12);
    } else {
      MonthsFitYear(y, m + 1);
      if m > 1 {
        MonthsAreOrdered(y, 1, m);
      }
    }
  }

  /** No two dates stand for the same second. */
  lemma ToUnixIsInjective(a: Datetime, b: Datetime)
    requires ValidDatetime(a) && ValidDatetime(b) && ToUnix(a) == ToUnix(b)
    ensures a == b
  {
    SplitSeconds(a, b);
    MonthsFitYear(a.year, a.month);
    MonthsFitYear(b.year, b.month);
    if a.year < b.year {
      YearsAreOrdered(a.year, b.year);
    } else if b.year < a.year {
      YearsAreOrdered(b.year, a.year);
    } else if a.month < b.month {
      MonthsAreOrdered(a.year, a.month, b.month);
    } else if b.month < a.month {
      MonthsAreOrdered(a.year, b.month, a.month);
    }
  }

  function Days(d: Datetime): int
    requires 1 <= d.month <= 12
  {
    DaysBeforeYear(d.year) + DaysBeforeMonth(d.year, d.month) + d.day
  }

  lemma SplitSeconds(a: Datetime, b: Datetime)
    requires ValidDatetime(a) && ValidDatetime(b) && ToUnix(a) == ToUnix(b)
    ensures Days(a) == Days(b) && a.hour == b.hour && a.minute == b.minute && a.second == b.second
  {
    assert ToUnix(a) == (Days(a) - EPOCH - 1) * 86400 + a.hour * 3600 + a.minute * 60 + a.second;
    assert ToUnix(b) == (Days(b) - EPOCH - 1) * 86400 + b.hour * 3600 + b.minute * 60 + b.second;
  }

  /**
   unix2date is exact: for any number of seconds it gives a valid Gregorian date and time, the
   one that stands for exactly that number of seconds.
   */
  method Unix2Date(seconds: nat) returns (dt: Datetime)
    ensures dt.year >= 1970 && ValidDatetime(dt) && ToUnix(dt) == seconds
  {
    var days := seconds / 86400;
    var rem := seconds % 86400;
    ghost var all := days;

    var hour := rem / 3600;
    var minute := rem % 3600 / 60;
    var second := rem % 60;
    assert hour * 3600 + minute * 60 + second == rem;

    var year := 1970;
    EpochIs1970();
    while days >= DaysInYear(year)
      invariant year >= 1970 && days >= 0
      invariant DaysBeforeYear(year) - EPOCH + days == all
      decreases days
    {
      YearStep(year);
      days := days - DaysInYear(year);
      year := year + 1;
    }

    MonthsMakeAYear(year);
    ghost var inYear := days;
    var month := 0;
    while month < 12
      invariant 0 <= month <= 12 && 0 <= days
      invariant DaysBeforeMonth(year, month + 1) + days == inYear
    {
      var dim := DAYS_PER_MONTH[month];
      if month == 1 && IsLeap(year) {
        dim := 29;
      }
      assert dim == DaysInMonth(year, month + 1);
      if days < dim {
        break;
      }
      days := days - dim;
      month := month + 1;
    }
    assert month < 12;
    dt := Datetime(year, month + 1, days + 1, hour, minute, second);
  }
}
