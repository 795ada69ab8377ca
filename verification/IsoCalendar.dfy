/** The proleptic Gregorian calendar and its week numbers, section 2.2.10 of
    ISO 8601:2004: week 1 of a year is the one that holds the year's first Thursday. */
module IsoCalendar {

  datatype Date = Date(year: int, month: int, day: int) {

    predicate Valid() {
      1 <= year <= 9999 && 1 <= month <= 12 && 1 <= day <= DaysInMonth(year, month)
    }

    /** This date is no later than the other. */
    predicate Upto(other: Date) {
      year < other.year || (year == other.year && (month < other.month || (month == other.month && day <= other.day)))
    }

    predicate SameMonth(other: Date) {
      year == other.year && month == other.month
    }

    /** Days since 31 December of the year before year 1. */
    function Ordinal(): int
      requires Valid()
    {
      DaysBeforeYear(year) + DaysBeforeMonth(year, month) + day
    }

    /** The weeks, Monday to Sunday, numbered through. */
    function Week(): int
      requires Valid()
    {
      (Ordinal() + 6) / 7
    }

    /** The Thursday of the date's week. */
    function Thursday(): int
      requires Valid()
    {
      Ordinal() - (Ordinal() + 6) % 7 + 3
    }

    /** The year that the week is counted in: the one its Thursday lies in. */
    function IsoYear(): int
      requires Valid()
    {
      if Thursday() <= DaysBeforeYear(year) then year - 1
      else if Thursday() > DaysBeforeYear(year + 1) then year + 1
      else year
    }

    /** Which Thursday of that year it is. */
    function IsoWeek(): int
      requires Valid()
    {
      (Thursday() - DaysBeforeYear(IsoYear()) - 1) / 7 + 1
    }
  }

  type CalendarDate = d: Date | d.Valid() witness Date(1, 1, 1)

  predicate Leap(y: int) {
    y % 4 == 0 && (y % 100 != 0 || y % 400 == 0)
  }

  function DaysBeforeYear(y: int): int {
    365 * (y - 1) + (y - 1) / 4 - (y - 1) / 100 + (y - 1) / 400
  }

  function DaysInMonth(y: int, m: int): int {
    if m == 2 then (if Leap(y) then 29 else 28)
    else if m == 4 || m == 6 || m == 9 || m == 11 then 30
    else 31
  }

  function DaysBeforeMonth(y: int, m: int): int
    requires 1 <= m <= 13
    decreases m
  {
    if m == 1 then 0 else DaysBeforeMonth(y, m - 1) + DaysInMonth(y, m - 1)
  }

  lemma MonthLengths(y: int, m: int)
    requires 1 <= m <= 12
    ensures DaysInMonth(y, m) == [31, if Leap(y) then 29 else 28, 31, 30, 31, 30, 31, 31, 30, 31, 30, 31][m - 1]
  {
  }

  // ---- Years and months --------------------------------------------------

  lemma YearLength(y: int)
    ensures DaysBeforeYear(y + 1) == DaysBeforeYear(y) + if Leap(y) then 366 else 365
  {
    NextQuotient(y, 4);
    NextQuotient(y, 100);
    NextQuotient(y, 400);
    Multiples(y);
  }

  lemma Multiples(y: int)
    ensures y % 400 == 0 ==> y % 100 == 0
    ensures y % 100 == 0 ==> y % 4 == 0
  {
  }

  lemma NextQuotient(y: int, d: int)
    requires d == 4 || d == 100 || d == 400
    ensures y / d == (y - 1) / d + if y % d == 0 then 1 else 0
  {
  }

  lemma MonthsFillYear(y: int)
    ensures DaysBeforeMonth(y, 13) == if Leap(y) then 366 else 365
  {
    assert DaysBeforeMonth(y, 4) == (if Leap(y) then 91 else 90);
    assert DaysBeforeMonth(y, 7) == DaysBeforeMonth(y, 4) + 91;
    assert DaysBeforeMonth(y, 10) == DaysBeforeMonth(y, 7) + 92;
  }

  lemma {:induction false} MonthsGrow(y: int, m: int, n: int)
    requires 1 <= m < n <= 13
    ensures DaysBeforeMonth(y, m) + DaysInMonth(y, m) <= DaysBeforeMonth(y, n)
    decreases n
  {
    if m + 1 < n { MonthsGrow(y, m, n - 1); }
  }

  lemma {:induction false} YearsGrow(y: int, z: int)
    requires y < z
    ensures DaysBeforeYear(y) + (if Leap(y) then 366 else 365) <= DaysBeforeYear(z)
    decreases z - y
  {
    YearLength(z - 1);
    if y + 1 < z { YearsGrow(y, z - 1); }
  }

  lemma DayOfYear(d: Date)
    requires d.Valid()
    ensures DaysBeforeYear(d.year) < d.Ordinal() <= DaysBeforeYear(d.year + 1)
  {
    MonthsFillYear(d.year);
    if d.month < 12 { MonthsGrow(d.year, d.month, 13); }
    YearLength(d.year);
    DaysNonNegative(d.year, d.month);
  }

  lemma {:induction false} DaysNonNegative(y: int, m: int)
    requires 1 <= m <= 13
    ensures DaysBeforeMonth(y, m) >= 0
    decreases m
  {
    if m > 1 { DaysNonNegative(y, m - 1); }
  }

  /** Ordinals number the dates in their order. */
  lemma OrdinalOrder(a: Date, b: Date)
    requires a.Valid() && b.Valid()
    ensures a.Upto(b) <==> a.Ordinal() <= b.Ordinal()
  {
    OrdinalLess(a, b);
    OrdinalLess(b, a);
  }

  lemma OrdinalLess(a: Date, b: Date)
    requires a.Valid() && b.Valid()
    ensures !b.Upto(a) ==> a.Ordinal() < b.Ordinal()
  {
    if a.year < b.year {
      DayOfYear(a);
      DayOfYear(b);
      YearLength(a.year);
      YearsGrow(a.year, b.year);
    } else if a.year == b.year && a.month < b.month {
      MonthsGrow(a.year, a.month, b.month);
    }
  }

  /** The day after. */
  function Next(d: Date): Date {
    if d.day < DaysInMonth(d.year, d.month) then Date(d.year, d.month, d.day + 1)
    else if d.month < 12 then Date(d.year, d.month + 1, 1)
    else Date(d.year + 1, 1, 1)
  }

  lemma NextDay(d: Date)
    requires d.Valid() && d.Ordinal() < 3652059
    ensures Next(d).Valid() && Next(d).Ordinal() == d.Ordinal() + 1
  {
    if d.month == 12 && d.day == 31 {
      MonthsFillYear(d.year);
      YearLength(d.year);
    }
  }

  /** The days from 1 January of year 1 to 31 December of year 9999 have all the numbers
      from 1 to 3652059. */
  lemma {:induction false} EveryDay(n: nat)
    requires 1 <= n <= 3652059
    ensures exists d: CalendarDate :: d.Ordinal() == n
  {
    hide Date.Ordinal, Next;
    if n == 1 {
      FirstDay();
    } else {
      EveryDay(n - 1);
      var d: CalendarDate :| d.Ordinal() == n - 1;
      NextDay(d);
      var next: CalendarDate := Next(d);
      assert next.Ordinal() == n;
    }
  }

  lemma FirstDay()
    ensures Date(1, 1, 1).Ordinal() == 1
  {
  }

  // ---- Week numbers inside one month -------------------------------------

  lemma ThursdayOfWeek(d: Date)
    requires d.Valid()
    ensures d.Thursday() == 7 * d.Week() - 3
    ensures d.Ordinal() - 3 <= d.Thursday() <= d.Ordinal() + 3
  {
  }

  /** The week's Thursday lies in the year the week is counted in. */
  lemma ThursdayInIsoYear(d: Date)
    requires d.Valid()
    ensures DaysBeforeYear(d.IsoYear()) < d.Thursday() <= DaysBeforeYear(d.IsoYear() + 1)
  {
    DayOfYear(d);
    ThursdayOfWeek(d);
    YearLength(d.year - 1);
    YearLength(d.year);
    YearLength(d.year + 1);
  }

  /** Every ISO year has 52 or 53 weeks. */
  lemma WeekNumberRange(d: Date)
    requires d.Valid()
    ensures 1 <= d.IsoWeek() <= 53
  {
    ThursdayInIsoYear(d);
    YearLength(d.IsoYear());
  }

  /** What the number means. Day 1 is a Monday, so that the Thursdays are the days that leave
      4 modulo 7: the date's week has one of them, it lies in the year that the week counts
      for, and it is that year's Thursday number IsoWeek. */
  lemma WeekNumberMeaning(d: Date)
    requires d.Valid()
    ensures var thursday := d.Thursday();
      && thursday % 7 == 4 && thursday - 3 <= d.Ordinal() <= thursday + 3
      && DaysBeforeYear(d.IsoYear()) < thursday <= DaysBeforeYear(d.IsoYear() + 1)
      && 7 * (d.IsoWeek() - 1) < thursday - DaysBeforeYear(d.IsoYear()) <= 7 * d.IsoWeek()
  {
    ThursdayOfWeek(d);
    ThursdayInIsoYear(d);
    hide DaysBeforeYear;
  }

  lemma LaterIsoYear(a: Date, b: Date)
    requires a.Valid() && b.Valid() && a.SameMonth(b) && a.IsoYear() < b.IsoYear()
    ensures a.IsoWeek() >= 47 && b.IsoWeek() <= 6
  {
    ThursdayInIsoYear(a);
    ThursdayInIsoYear(b);
    ThursdayOfWeek(a);
    ThursdayOfWeek(b);
    YearLength(a.IsoYear());
    YearsGrow(a.IsoYear(), b.IsoYear());
    if a.IsoYear() + 1 < b.IsoYear() { YearsGrow(a.IsoYear() + 1, b.IsoYear()); }
  }

  /** Within one calendar month, equal week numbers mean the same week, also where January
      begins in week 52 or 53 and where December ends in week 1. */
  lemma WeekNumberInMonth(a: Date, b: Date)
    requires a.Valid() && b.Valid() && a.SameMonth(b)
    ensures a.IsoWeek() == b.IsoWeek() <==> a.Week() == b.Week()
  {
    ThursdayOfWeek(a);
    ThursdayOfWeek(b);
    if a.IsoYear() < b.IsoYear() {
      LaterIsoYear(a, b);
    } else if b.IsoYear() < a.IsoYear() {
      LaterIsoYear(b, a);
    }
  }
}
