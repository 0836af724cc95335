/** Dates to day numbers: lib_calendar2utc.c and lib_daysbeforemonth.c. */
module Calendar {
  import opened Basics

  const JD_OF_EPOCH := 2440588
  const GREG_YEAR := 1582
  const GREG_MONTH := 10
  const GREG_DAY := 15

  // Division in C drops the fraction.
  function Quot(a: int, b: int): int
    requires b > 0
  {
    if a >= 0 then a / b else -(-a / b)
  }

  // clock_gregorian2utc
  function Gregorian2utc(year: int, month: int, day: int): int {
    var temp := if month <= 2 then -1 else 0;
    Quot(1461 * (year + 4800 + temp), 4) + Quot(367 * (month - 2 - 12 * temp), 12)
    - Quot(3 * Quot(year + 4900 + temp, 100), 4) + day - 32075
  }

  // clock_julian2utc
  function Julian2utc(year: int, month: int, day: int): int {
    367 * year - Quot(7 * (year + 5001 + Quot(month - 9, 7)), 4) + Quot(275 * month, 9) + day + 1729777
  }

  // clock_daysbeforemonth; months count from 0.
  function DaysBeforeMonth(month: int, leapyear: bool): int
    requires 0 <= month <= 12
  {
    [0, 31, 59, 90, 120, 151, 181, 212, 243, 273, 304, 334, 365][month]
    + if month >= 2 && leapyear then 1 else 0
  }

  // The leap years of the two calendars.
  predicate Leap(gregorian: bool, year: int) {
    year % 4 == 0 && (gregorian ==> year % 100 != 0 || year % 400 == 0)
  }

  function MonthLength(month: int, leapyear: bool): int {
    if month == 2 then (if leapyear then 29 else 28)
    else if month in {4, 6, 9, 11} then 30 else 31
  }

  function DayNumber(gregorian: bool, year: int, month: int, day: int): int {
    if gregorian then Gregorian2utc(year, month, day) else Julian2utc(year, month, day)
  }

  function YearLength(leapyear: bool): int {
    if leapyear then 366 else 365
  }

  // The month part of both formulas counts the days before the month, shifted by one or two
  // from March on.
  lemma MonthPart(month: int)
    requires 1 <= month <= 12
    ensures month <= 2 ==> Quot(367 * (month + 10), 12) == 306 + DaysBeforeMonth(month - 1, false) + 30
    ensures month > 2 ==> Quot(367 * (month - 2), 12) == DaysBeforeMonth(month - 1, false) - 29
    ensures Quot(275 * month, 9) == DaysBeforeMonth(month - 1, false) + (if month > 2 then 32 else 30)
    ensures Quot(month - 9, 7) == if month <= 2 then -1 else 0
  {
    if month <= 6 {
      assert month == 1 || month == 2 || month == 3 || month == 4 || month == 5 || month == 6;
    } else {
      assert month == 7 || month == 8 || month == 9 || month == 10 || month == 11 || month == 12;
    }
  }

  // Both formulas count years from the first of March, so that the leap day comes last.
  function MarchYear(year: int, month: int): int {
    if month <= 2 then year - 1 else year
  }

  function MarchDays(month: int): int
    requires 1 <= month <= 12
  {
    if month <= 2 then 306 + DaysBeforeMonth(month - 1, false) else DaysBeforeMonth(month - 1, false) - 59
  }

  function MarchFirst(gregorian: bool, year: int): int {
    DayNumber(gregorian, year, 3, 1)
  }

  function YearPart(k: int): int {
    Quot(1461 * k, 4) - Quot(3 * Quot(k + 100, 100), 4)
  }

  lemma GregorianForm(year: int, month: int, day: int)
    requires 1 <= month <= 12
    ensures Gregorian2utc(year, month, day) == YearPart(MarchYear(year, month) + 4800)
      + Quot(367 * (if month <= 2 then month + 10 else month - 2), 12) + day - 32075
  {
  }

  lemma JulianForm(year: int, month: int, day: int)
    requires 1 <= month <= 12
    ensures Julian2utc(year, month, day) == 367 * year - Quot(7 * (MarchYear(year, month) + 5001), 4)
      + Quot(275 * month, 9) + day + 1729777
  {
    MonthPart(month);
  }

  // Within a year counted from March both formulas count the days, in every year.
  lemma MarchForm(gregorian: bool, year: int, month: int, day: int)
    requires 1 <= month <= 12
    ensures DayNumber(gregorian, year, month, day)
      == MarchFirst(gregorian, MarchYear(year, month)) + MarchDays(month) + day - 1
  {
    MonthPart(3);
    MonthPart(month);
    if gregorian {
      GregorianForm(year, month, day);
      GregorianForm(MarchYear(year, month), 3, 1);
    } else {
      JulianForm(year, month, day);
      JulianForm(MarchYear(year, month), 3, 1);
    }
  }

  // The first year in March of which the divisions of the formula do not see a negative number.
  function Origin(gregorian: bool): int {
    if gregorian then -4800 else -5001
  }

  lemma Quarter(k: int)
    requires k >= 0
    ensures Quot(1461 * (k + 1), 4) == Quot(1461 * k, 4) + YearLength((k + 1) % 4 == 0)
  {
  }

  lemma ThreeQuarters(c: int)
    requires c >= 0
    ensures (3 * (c + 1)) / 4 == (3 * c) / 4 + if (c + 1) % 4 == 1 then 0 else 1
  {
  }

  lemma Century(k: int)
    requires k >= 0
    ensures Quot(3 * Quot(k + 1, 100), 4) == Quot(3 * Quot(k, 100), 4)
      + if (k + 1) % 100 == 0 && (k + 1) % 400 != 100 then 1 else 0
  {
    var c, e := k / 100, k % 100;
    if e < 99 {
      QuotientUnique(k + 1, 100, c, e + 1);
    } else {
      QuotientUnique(k + 1, 100, c + 1, 0);
      QuotientUnique(k + 1, 400, (c + 1) / 4, 100 * ((c + 1) % 4));
      ThreeQuarters(c);
    }
  }

  lemma Shifted(y: int, k: int, m: int, r: int)
    requires 0 <= r < m
    ensures (y + k * m + r) % m == r <==> y % m == 0
  {
    var q, e := y / m, y % m;
    assert y == q * m + e;
    Distribute(q, k, m);
    if e + r < m {
      QuotientUnique(y + k * m + r, m, q + k, e + r);
    } else {
      Distribute(q + k, 1, m);
      QuotientUnique(y + k * m + r, m, q + k + 1, e + r - m);
    }
  }

  lemma Remainders(year: int)
    ensures (year + 4800) % 4 == 0 <==> year % 4 == 0
    ensures (year + 4900) % 100 == 0 <==> year % 100 == 0
    ensures (year + 4900) % 400 == 100 <==> year % 400 == 0
  {
    Shifted(year, 1200, 4, 0);
    Shifted(year, 49, 100, 0);
    Shifted(year, 12, 400, 100);
  }

  lemma Multiples(year: int)
    ensures year % 400 == 0 ==> year % 100 == 0
    ensures year % 100 == 0 ==> year % 4 == 0
  {
  }

  // A leap day every fourth year but for three centuries in four.
  lemma LeapDay(year: int)
    requires year > -4800
    ensures YearPart(year + 4800) == YearPart(year + 4799) + YearLength(Leap(true, year))
  {
    Quarter(year + 4799);
    Century(year + 4899);
    Remainders(year);
    Multiples(year);
  }

  lemma JulianQuarter(year: int)
    requires year > -5001
    ensures (7 * (year + 5001)) / 4 == (7 * (year + 5000)) / 4 + if year % 4 == 0 then 1 else 2
  {
  }

  // From then on the year has the right length.
  lemma MarchStep(gregorian: bool, year: int)
    requires year > Origin(gregorian)
    ensures MarchFirst(gregorian, year) == MarchFirst(gregorian, year - 1) + YearLength(Leap(gregorian, year))
  {
    if gregorian {
      LeapDay(year);
      GregorianForm(year, 3, 1);
      GregorianForm(year - 1, 3, 1);
    } else {
      JulianQuarter(year);
      JulianForm(year, 3, 1);
      JulianForm(year - 1, 3, 1);
    }
  }

  datatype Date = Date(year: int, month: int, day: int)

  predicate Earlier(a: Date, b: Date) {
    a.year < b.year || (a.year == b.year && (a.month < b.month || (a.month == b.month && a.day < b.day)))
  }

  // A date of one calendar, carried on without bound in both directions.
  predicate Dated(g: bool, a: Date) {
    1 <= a.month <= 12 && 1 <= a.day <= MonthLength(a.month, Leap(g, a.year))
  }

  function NextIn(g: bool, a: Date): (b: Date)
    requires Dated(g, a)
    ensures Dated(g, b) && Earlier(a, b)
  {
    if a.day < MonthLength(a.month, Leap(g, a.year)) then Date(a.year, a.month, a.day + 1)
    else if a.month < 12 then Date(a.year, a.month + 1, 1)
    else Date(a.year + 1, 1, 1)
  }

  function Number(g: bool, a: Date): int {
    DayNumber(g, a.year, a.month, a.day)
  }

  // The first day from which a formula is right: 1 March -4800 or 1 March -5001.
  function First(g: bool): Date {
    Date(Origin(g), 3, 1)
  }

  lemma MarchMonth(month: int, leapyear: bool)
    requires 1 <= month <= 12 && month != 2
    ensures MarchDays(if month == 12 then 1 else month + 1) == MarchDays(month) + MonthLength(month, leapyear)
  {
    if month <= 6 {
      assert month == 1 || month == 3 || month == 4 || month == 5 || month == 6;
    } else {
      assert month == 7 || month == 8 || month == 9 || month == 10 || month == 11 || month == 12;
    }
  }

  // In any year at all, the step from one day to the next is right but for that into March.
  lemma OnlyIntoMarch(g: bool, a: Date)
    requires Dated(g, a) && (a.month != 2 || NextIn(g, a).month == 2)
    ensures Number(g, NextIn(g, a)) == Number(g, a) + 1
  {
    var b := NextIn(g, a);
    MarchForm(g, a.year, a.month, a.day);
    MarchForm(g, b.year, b.month, b.day);
    if b.month != a.month {
      MarchMonth(a.month, Leap(g, a.year));
      assert b.day == 1 && a.day == MonthLength(a.month, Leap(g, a.year));
      assert MarchYear(b.year, b.month) == MarchYear(a.year, a.month);
    }
  }

  lemma IntoMarch(g: bool, a: Date)
    requires Dated(g, a) && a.month == 2 && NextIn(g, a).month == 3
    ensures Number(g, NextIn(g, a)) == Number(g, a) + 1
      <==> MarchFirst(g, a.year) == MarchFirst(g, a.year - 1) + YearLength(Leap(g, a.year))
  {
    MarchForm(g, a.year, a.month, a.day);
  }

  // The next day has the next number: through every month, leap year and century.
  lemma NextInCalendar(g: bool, a: Date)
    requires Dated(g, a) && !Earlier(a, First(g))
    ensures Number(g, NextIn(g, a)) == Number(g, a) + 1
  {
    if a.month == 2 && NextIn(g, a).month == 3 {
      MarchStep(g, a.year);
      IntoMarch(g, a);
    } else {
      OnlyIntoMarch(g, a);
    }
  }

  ghost predicate RightFrom(g: bool, d: Date) {
    forall a :: Dated(g, a) && !Earlier(a, d) ==> Number(g, NextIn(g, a)) == Number(g, a) + 1
  }

  // The last wrong step: at the end of February the truncated divisions turn from negative
  // numbers, which they round up, to positive ones.
  lemma TooEarly()
    ensures Gregorian2utc(-4800, 3, 1) == Gregorian2utc(-4800, 2, 29)
    ensures Julian2utc(-5001, 3, 1) == Julian2utc(-5001, 2, 28) + 2
  {
  }

  // A formula is right from some day on if and only if that day is not before its first one.
  lemma RightExactly(g: bool, d: Date)
    requires Dated(g, d)
    ensures RightFrom(g, d) <==> !Earlier(d, First(g))
  {
    if !Earlier(d, First(g)) {
      forall a | Dated(g, a) && !Earlier(a, d) ensures Number(g, NextIn(g, a)) == Number(g, a) + 1 {
        NextInCalendar(g, a);
      }
    } else {
      TooEarly();
      var a := if g then Date(-4800, 2, 29) else Date(-5001, 2, 28);
      assert Dated(g, a) && !Earlier(a, d) && NextIn(g, a) == First(g);
    }
  }

  // The days of the years from the one in which the formula begins.
  function DaysBefore(g: bool, year: int): int
    requires year >= Origin(g)
    decreases year - Origin(g)
  {
    if year == Origin(g) then 0 else DaysBefore(g, year - 1) + YearLength(Leap(g, year - 1))
  }

  // What the count would be on 1 January of that year.
  function Base(g: bool): int {
    MarchFirst(g, Origin(g)) - DaysBeforeMonth(2, Leap(g, Origin(g)))
  }

  lemma {:induction false} CountsYears(g: bool, year: int)
    requires year >= Origin(g)
    ensures MarchFirst(g, year) == Base(g) + DaysBefore(g, year) + DaysBeforeMonth(2, Leap(g, year))
    decreases year - Origin(g)
  {
    if year > Origin(g) {
      CountsYears(g, year - 1);
      MarchStep(g, year);
    }
  }

  // The closed formulas are the count of days, year by year and month by month.
  lemma CountsDays(g: bool, year: int, month: int, day: int)
    requires 1 <= month <= 12 && MarchYear(year, month) >= Origin(g)
    ensures year >= Origin(g)
    ensures DayNumber(g, year, month, day)
      == Base(g) + DaysBefore(g, year) + DaysBeforeMonth(month - 1, Leap(g, year)) + day - 1
  {
    MarchForm(g, year, month, day);
    CountsYears(g, MarchYear(year, month));
  }

  // Within a year month starts are where clock_daysbeforemonth has them.
  lemma MonthStart(g: bool, year: int, month: int)
    requires 1 <= month <= 12 && year > Origin(g)
    ensures DayNumber(g, year, month, 1) == DayNumber(g, year, 1, 1) + DaysBeforeMonth(month - 1, Leap(g, year))
  {
    CountsDays(g, year, month, 1);
    CountsDays(g, year, 1, 1);
  }

  // From one New Year to the next they count the length of the year.
  lemma YearStart(g: bool, year: int)
    requires year > Origin(g)
    ensures DayNumber(g, year + 1, 1, 1) == DayNumber(g, year, 1, 1) + YearLength(Leap(g, year))
  {
    CountsDays(g, year, 1, 1);
    CountsDays(g, year + 1, 1, 1);
  }

  const SWITCH := Date(GREG_YEAR, GREG_MONTH, GREG_DAY)
  const LAST_JULIAN := Date(1582, 10, 4)

  // A date of the calendar in use on that day, from the first day for which the formula is
  // right; the ten days left out in 1582 are not dates.
  predicate Civil(a: Date) {
    && Dated(!Earlier(a, SWITCH), a) && !Earlier(a, First(false))
    && !(Earlier(LAST_JULIAN, a) && Earlier(a, SWITCH))
  }

  function Tomorrow(a: Date): Date
    requires Civil(a)
  {
    if a == LAST_JULIAN then SWITCH else NextIn(!Earlier(a, SWITCH), a)
  }

  // The number clock_calendar2utc gives a date.
  function Utc(a: Date): int {
    Number(!Earlier(a, SWITCH), a) - JD_OF_EPOCH
  }

  lemma Epoch()
    ensures Utc(Date(1970, 1, 1)) == 0 && Utc(SWITCH) == Utc(LAST_JULIAN) + 1
  {
  }

  // Four centuries of the Gregorian calendar have 97 leap days, four years of the other one.
  lemma Cycles(year: int, month: int, day: int)
    requires year > -4800 && 1 <= month <= 12
    ensures Gregorian2utc(year + 400, month, day) == Gregorian2utc(year, month, day) + 400 * 365 + 97
    ensures Julian2utc(year + 4, month, day) == Julian2utc(year, month, day) + 4 * 365 + 1
  {
  }

  // Some dates and their numbers: centuries that are leap years and such that are not, and the
  // first of each month.
  lemma KnownDates()
    ensures Utc(Date(2000, 1, 1)) == 10957 && Utc(Date(2000, 3, 1)) == 10957 + 60
    ensures Utc(Date(1900, 1, 1)) == -25567 && Utc(Date(1900, 3, 1)) == -25567 + 59
    ensures Utc(SWITCH) == -141427 && Utc(Date(1500, 1, 1)) == -171655 && Utc(Date(1500, 3, 1)) == -171655 + 60
    ensures var f := 11323; forall m :: 1 <= m <= 12 ==>
      Utc(Date(2001, m, 1)) == f + [0, 31, 59, 90, 120, 151, 181, 212, 243, 273, 304, 334][m - 1]
  {
    forall m | 1 <= m <= 12
      ensures Utc(Date(2001, m, 1)) == 11323 + [0, 31, 59, 90, 120, 151, 181, 212, 243, 273, 304, 334][m - 1]
    {
      MonthPart(m);
    }
  }

  // The next day has the next number, through the change of calendar too.
  lemma NextDay(a: Date)
    requires Civil(a)
    ensures Civil(Tomorrow(a)) && Utc(Tomorrow(a)) == Utc(a) + 1
  {
    if a == LAST_JULIAN {
      Epoch();
    } else {
      NextInCalendar(!Earlier(a, SWITCH), a);
    }
  }

  lemma NextMonth(month: int, leapyear: bool)
    requires 1 <= month <= 12
    ensures DaysBeforeMonth(month, leapyear) == DaysBeforeMonth(month - 1, leapyear) + MonthLength(month, leapyear)
    ensures DaysBeforeMonth(month, leapyear) <= YearLength(leapyear) && 28 <= MonthLength(month, leapyear) <= 31
  {
  }

  lemma {:induction false} MonthsGrow(m: int, n: int, leapyear: bool)
    requires 0 <= m <= n <= 12
    ensures DaysBeforeMonth(m, leapyear) <= DaysBeforeMonth(n, leapyear)
    decreases n - m
  {
    if m < n {
      MonthsGrow(m, n - 1, leapyear);
      NextMonth(n, leapyear);
    }
  }

  lemma {:induction false} YearsGrow(g: bool, y: int, z: int)
    requires Origin(g) <= y <= z
    ensures DaysBefore(g, y) <= DaysBefore(g, z)
    decreases z - y
  {
    if y < z { YearsGrow(g, y, z - 1); }
  }

  lemma InYear(g: bool, a: Date)
    requires Dated(g, a)
    ensures 0 <= DaysBeforeMonth(a.month - 1, Leap(g, a.year)) + a.day - 1 < YearLength(Leap(g, a.year))
  {
    NextMonth(a.month, Leap(g, a.year));
    MonthsGrow(0, a.month - 1, Leap(g, a.year));
  }

  lemma LaterMonth(m: int, n: int, day: int, leapyear: bool)
    requires 1 <= m < n <= 12 && day <= MonthLength(m, leapyear)
    ensures DaysBeforeMonth(m - 1, leapyear) + day <= DaysBeforeMonth(n - 1, leapyear)
  {
    NextMonth(m, leapyear);
    MonthsGrow(m, n - 1, leapyear);
  }

  function Count(g: bool, a: Date): int
    requires Dated(g, a) && a.year >= Origin(g)
  {
    DaysBefore(g, a.year) + DaysBeforeMonth(a.month - 1, Leap(g, a.year)) + a.day - 1
  }

  lemma CountGrows(g: bool, a: Date, b: Date)
    requires Dated(g, a) && Dated(g, b) && Earlier(a, b) && a.year >= Origin(g)
    ensures Count(g, a) < Count(g, b)
  {
    if a.year < b.year {
      InYear(g, a);
      InYear(g, b);
      YearsGrow(g, a.year + 1, b.year);
    } else if a.month < b.month {
      LaterMonth(a.month, b.month, a.day, Leap(g, a.year));
    }
  }

  lemma InCalendar(g: bool, a: Date, b: Date)
    requires Dated(g, a) && Dated(g, b) && Earlier(a, b) && !Earlier(a, First(g))
    ensures Number(g, a) < Number(g, b)
  {
    CountsDays(g, a.year, a.month, a.day);
    CountsDays(g, b.year, b.month, b.day);
    CountGrows(g, a, b);
  }

  // Dates and numbers are in the same order, so different dates have different numbers.
  lemma Monotone(a: Date, b: Date)
    requires Civil(a) && Civil(b) && Earlier(a, b)
    ensures Utc(a) < Utc(b)
  {
    var ga, gb := !Earlier(a, SWITCH), !Earlier(b, SWITCH);
    if ga == gb {
      InCalendar(ga, a, b);
    } else {
      if a != LAST_JULIAN { InCalendar(false, a, LAST_JULIAN); }
      if b != SWITCH { InCalendar(true, SWITCH, b); }
      Epoch();
    }
  }

  // Every number from the first one on is the number of a date.
  lemma {:induction false} EveryNumber(n: int) returns (a: Date)
    requires n >= Utc(First(false))
    ensures Civil(a) && Utc(a) == n
    decreases n - Utc(First(false))
  {
    if n == Utc(First(false)) {
      a := First(false);
    } else {
      var b := EveryNumber(n - 1);
      NextDay(b);
      a := Tomorrow(b);
    }
  }

  // Truncated division leaves a remainder of the dividend's sign.
  lemma MonthBorrow(m: int)
    ensures var r := m - 12 * Quot(m, 12);
      if r < 0 then r + 12 == m % 12 && Quot(m, 12) - 1 == m / 12 else r == m % 12 && Quot(m, 12) == m / 12
  {
  }

  // clock_calendar2utc: any month is brought into its year; months count from 1.
  method ClockCalendar2utc(year0: int, month0: int, day: int, julian: bool) returns (t: int)
    ensures var year, month := year0 + (month0 - 1) / 12, (month0 - 1) % 12 + 1;
      && 12 * year + month == 12 * year0 + month0 && 1 <= month <= 12
      && t == if julian then Utc(Date(year, month, day)) else Gregorian2utc(year, month, day) - JD_OF_EPOCH
  {
    var year, month := year0, month0;
    var dyear := Quot(month - 1, 12);
    MonthBorrow(month - 1);
    month := month - 12 * dyear;
    year := year + dyear;
    if month < 1 {
      month := month + 12;
      year := year - 1;
    }
    if !julian {
      return Gregorian2utc(year, month, day) - JD_OF_EPOCH;
    }
    var isgreg;
    if year > GREG_YEAR {
      isgreg := true;
    } else if year < GREG_YEAR {
      isgreg := false;
    } else if month > GREG_MONTH {
      isgreg := true;
    } else if month < GREG_MONTH {
      isgreg := false;
    } else {
      isgreg := day >= GREG_DAY;
    }
    if isgreg {
      t := Gregorian2utc(year, month, day) - JD_OF_EPOCH;
    } else {
      t := Julian2utc(year, month, day) - JD_OF_EPOCH;
    }
  }
}
