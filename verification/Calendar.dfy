/** The Gregorian calendar: valid civil dates, their serial day numbers counted
    from 1970-01-01, and the agreement of the two orders. */
module Calendar {
  import opened Metadatas

  datatype Civil = Civil(year: int, month: int, day: int)

  function ToCivil(d: Date): Civil {
    Civil(d.year, d.month, d.day)
  }

  predicate IsLeap(y: int) {
    y % 4 == 0 && (y % 100 != 0 || y % 400 == 0)
  }

  function DaysInMonth(y: int, m: int): int {
    if m == 2 then (if IsLeap(y) then 29 else 28)
    else if m == 4 || m == 6 || m == 9 || m == 11 then 30
    else 31
  }

  predicate ValidCivil(c: Civil) {
    1 <= c.month <= 12 && 1 <= c.day <= DaysInMonth(c.year, c.month)
  }

  /** Field by field, as `year_month_day` compares. */
  predicate Before(a: Civil, b: Civil) {
    a.year < b.year || (a.year == b.year && (a.month < b.month || (a.month == b.month && a.day < b.day)))
  }

  /** The days from 0001-01-01 to January 1st of a year. */
  function DaysBeforeYear(y: int): int {
    365 * (y - 1) + (y - 1) / 4 - (y - 1) / 100 + (y - 1) / 400
  }

  function DaysBeforeMonth(y: int, m: int): int {
    if m <= 1 then 0 else DaysBeforeMonth(y, m - 1) + DaysInMonth(y, m - 1)
  }

  const EPOCH: int := 719162

  /** The dates that have a serial day: a day that the month does not have counts
      on from the month's first, and only the serial day of a month that is none
      is unspecified. */
  predicate HasDayNumber(c: Civil) {
    1 <= c.month <= 12
  }

  function DayNumber(c: Civil): int {
    DaysBeforeYear(c.year) + DaysBeforeMonth(c.year, c.month) + c.day - 1 - EPOCH
  }

  lemma EpochIsDayZero()
    ensures DayNumber(Civil(1970, 1, 1)) == 0
  {
  }

  lemma YearLength(y: int)
    ensures DaysBeforeYear(y + 1) == DaysBeforeYear(y) + if IsLeap(y) then 366 else 365
  {
    QuotientStep(y, 4);
    QuotientStep(y, 100);
    QuotientStep(y, 400);
    LeapCount(y);
    assert DaysBeforeYear(y + 1) == 365 * y + y / 4 - y / 100 + y / 400 by {
      assert (y + 1) - 1 == y;
    }
  }

  /** The months are 31 and 30 days long in turn, starting over in August, but for
      February. */
  lemma MonthLength(y: int, m: int)
    requires 1 <= m <= 12
    ensures var next := if m == 12 then Civil(y + 1, 1, 1) else Civil(y, m + 1, 1);
            DayNumber(next) - DayNumber(Civil(y, m, 1)) ==
            if m == 2 then (if IsLeap(y) then 29 else 28) else 30 + (m + m / 8) % 2
    ensures DaysInMonth(y, m) == if m == 2 then (if IsLeap(y) then 29 else 28) else 30 + (m + m / 8) % 2
  {
    YearLength(y);
    MonthsFillYear(y);
    FirstMonth(y + 1);
    FirstMonth(y);
    hide DaysBeforeYear, IsLeap;
  }

  /** Every fourth year is leap, but of the hundredth years only every fourth. */
  lemma LeapYears(century: int, y: int)
    requires 0 <= y < 100
    ensures IsLeap(100 * century + y) <==> if y == 0 then century % 4 == 0 else y % 4 == 0
  {
    assert 100 * century + y == 4 * (25 * century) + y;
    RestOfFour(25 * century, y);
    RestOfHundred(century, y);
    if y == 0 {
      FourthCentury(century);
    }
  }

  lemma RestOfFour(q: int, r: int)
    ensures (4 * q + r) % 4 == r % 4
  {
  }

  lemma RestOfHundred(q: int, r: int)
    requires 0 <= r < 100
    ensures (100 * q + r) % 100 == r
  {
  }

  lemma FourthCentury(century: int)
    ensures 100 * century % 400 == 0 <==> century % 4 == 0
  {
    var q, r := century / 4, century % 4;
    assert 100 * century == 400 * q + 100 * r;
    assert (400 * q + 100 * r) % 400 == 100 * r;
  }

  /** Counting every fourth year, but not every hundredth, but every
      four-hundredth, counts the leap years. */
  lemma LeapCount(y: int)
    ensures (if y % 4 == 0 then 1 else 0) - (if y % 100 == 0 then 1 else 0) + (if y % 400 == 0 then 1 else 0)
            == if IsLeap(y) then 1 else 0
  {
    if y % 400 == 0 {
      assert y == 100 * (4 * (y / 400));
    }
    if y % 100 == 0 {
      assert y == 4 * (25 * (y / 100));
    }
  }

  lemma QuotientStep(y: int, k: int)
    requires k == 4 || k == 100 || k == 400
    ensures y / k == (y - 1) / k + if y % k == 0 then 1 else 0
  {
  }

  lemma MonthsFillYear(y: int)
    ensures DaysBeforeMonth(y, 12) + DaysInMonth(y, 12) == if IsLeap(y) then 366 else 365
  {
    var feb := DaysInMonth(y, 2);
    assert DaysBeforeMonth(y, 2) == 31;
    assert DaysBeforeMonth(y, 4) == 62 + feb;
    assert DaysBeforeMonth(y, 6) == 123 + feb;
    assert DaysBeforeMonth(y, 8) == 184 + feb;
    assert DaysBeforeMonth(y, 10) == 245 + feb;
    assert DaysBeforeMonth(y, 12) == 306 + feb;
  }

  lemma {:induction false} MonthsGrow(y: int, a: int, b: int)
    requires 1 <= a < b <= 12
    ensures DaysBeforeMonth(y, a) + DaysInMonth(y, a) <= DaysBeforeMonth(y, b)
    decreases b - a
  {
    if a + 1 < b {
      MonthsGrow(y, a, b - 1);
    }
  }

  lemma {:induction false} YearsGrow(a: int, b: int)
    requires a < b
    ensures DaysBeforeYear(a + 1) <= DaysBeforeYear(b)
    decreases b - a
  {
    hide DaysBeforeYear;
    if a + 1 < b {
      YearsGrow(a, b - 1);
      YearLength(b - 1);
    }
  }

  /** A date lies inside its year. */
  lemma WithinYear(c: Civil)
    requires ValidCivil(c)
    ensures DaysBeforeYear(c.year) - EPOCH <= DayNumber(c) < DaysBeforeYear(c.year + 1) - EPOCH
  {
    hide DaysBeforeYear, DaysBeforeMonth, IsLeap;
    YearLength(c.year);
    MonthsFillYear(c.year);
    FirstMonth(c.year);
    if c.month < 12 {
      MonthsGrow(c.year, c.month, 12);
    }
    if c.month > 1 {
      MonthsGrow(c.year, 1, c.month);
    }
  }

  lemma FirstMonth(y: int)
    ensures DaysBeforeMonth(y, 1) == 0
  {
  }

  lemma BeforeIsEarlier(a: Civil, b: Civil)
    requires ValidCivil(a) && ValidCivil(b) && Before(a, b)
    ensures DayNumber(a) < DayNumber(b)
  {
    hide DaysBeforeYear, DaysBeforeMonth, IsLeap;
    if a.year < b.year {
      hide DayNumber;
      WithinYear(a);
      WithinYear(b);
      YearsGrow(a.year, b.year);
    } else if a.month < b.month {
      MonthsGrow(a.year, a.month, b.month);
    }
  }

  /** The field order and the serial order of valid dates are one order. */
  lemma OrdersAgree(a: Civil, b: Civil)
    requires ValidCivil(a) && ValidCivil(b)
    ensures Before(a, b) <==> DayNumber(a) < DayNumber(b)
    ensures DayNumber(a) == DayNumber(b) ==> a == b
  {
    hide DayNumber, ValidCivil;
    if Before(a, b) {
      BeforeIsEarlier(a, b);
    } else if Before(b, a) {
      BeforeIsEarlier(b, a);
    }
  }

  // ----- from serial days back to dates -----

  function NextDay(c: Civil): Civil {
    if c.day < DaysInMonth(c.year, c.month) then c.(day := c.day + 1)
    else if c.month < 12 then Civil(c.year, c.month + 1, 1)
    else Civil(c.year + 1, 1, 1)
  }

  function PrevDay(c: Civil): Civil {
    if c.day > 1 then c.(day := c.day - 1)
    else if c.month > 1 then Civil(c.year, c.month - 1, DaysInMonth(c.year, c.month - 1))
    else Civil(c.year - 1, 12, 31)
  }

  lemma NextDayIsNext(c: Civil)
    requires ValidCivil(c)
    ensures ValidCivil(NextDay(c)) && DayNumber(NextDay(c)) == DayNumber(c) + 1
  {
    hide DaysBeforeYear;
    if c.day == DaysInMonth(c.year, c.month) && c.month == 12 {
      MonthsFillYear(c.year);
      YearLength(c.year);
    }
  }

  lemma PrevDayIsPrevious(c: Civil)
    requires ValidCivil(c)
    ensures ValidCivil(PrevDay(c)) && DayNumber(PrevDay(c)) == DayNumber(c) - 1
  {
    hide DaysBeforeYear;
    if c.day == 1 && c.month == 1 {
      MonthsFillYear(c.year - 1);
      YearLength(c.year - 1);
    }
  }

  /** `year_month_day{sys_days}`. */
  function FromDay(n: int): Civil
    decreases if n < 0 then -n else n
  {
    if n == 0 then Civil(1970, 1, 1)
    else if n > 0 then NextDay(FromDay(n - 1))
    else PrevDay(FromDay(n + 1))
  }

  lemma {:induction false} FromDayInverse(n: int)
    ensures ValidCivil(FromDay(n)) && DayNumber(FromDay(n)) == n
    decreases if n < 0 then -n else n
  {
    hide DayNumber, ValidCivil, NextDay, PrevDay;
    if n == 0 {
      EpochIsDayZero();
      EpochIsValid();
    } else if n > 0 {
      FromDayInverse(n - 1);
      NextDayIsNext(FromDay(n - 1));
    } else {
      FromDayInverse(n + 1);
      PrevDayIsPrevious(FromDay(n + 1));
    }
  }

  lemma EpochIsValid()
    ensures ValidCivil(Civil(1970, 1, 1))
  {
  }

  lemma DayRoundTrip(c: Civil)
    requires ValidCivil(c)
    ensures FromDay(DayNumber(c)) == c
  {
    hide FromDay, DayNumber, ValidCivil;
    FromDayInverse(DayNumber(c));
    OrdersAgree(FromDay(DayNumber(c)), c);
  }
}
