/** The proleptic Gregorian calendar as java.time's LocalDate sees it.
    A date is its epoch day: the number of days after 1970-01-01 (negative before it),
    which is what LocalDate.toEpochDay returns. Day arithmetic (plusDays, minusDays,
    ChronoUnit.DAYS.between) is then plain integer arithmetic. */
module Calendar {

  type Day = int

  /** A year-month-day triple; `Valid` says it names a real date. */
  datatype CivilDate = CivilDate(year: int, month: int, day: int)

  predicate IsLeapYear(y: int) {
    y % 4 == 0 && (y % 100 != 0 || y % 400 == 0)
  }

  function YearLength(y: int): int {
    if IsLeapYear(y) then 366 else 365
  }

  function MonthLength(y: int, m: int): int
    requires 1 <= m <= 12
  {
    if m == 2 then (if IsLeapYear(y) then 29 else 28)
    else if m == 4 || m == 6 || m == 9 || m == 11 then 30
    else 31
  }

  predicate Valid(c: CivilDate) {
    1 <= c.month <= 12 && 1 <= c.day <= MonthLength(c.year, c.month)
  }

  /** Days of year `y` before the first of month `m`; month 13 stands for the next year's start. */
  function DaysBeforeMonth(y: int, m: int): int
    requires 1 <= m <= 13
  {
    var leap := if m > 2 && IsLeapYear(y) then 1 else 0;
    leap +
    (match m
     case 1 => 0    case 2 => 31   case 3 => 59   case 4 => 90
     case 5 => 120  case 6 => 151  case 7 => 181  case 8 => 212
     case 9 => 243  case 10 => 273 case 11 => 304 case 12 => 334
     case _ => 365)
  }

  lemma MonthStep(y: int, m: int)
    requires 1 <= m <= 12
    ensures DaysBeforeMonth(y, m + 1) == DaysBeforeMonth(y, m) + MonthLength(y, m)
    ensures DaysBeforeMonth(y, 13) == YearLength(y)
  {
  }

  /** Leap years before year `y`, counted from year 0 (negative below it). */
  function LeapsBefore(y: int): int {
    (y - 1) / 4 - (y - 1) / 100 + (y - 1) / 400
  }

  /** Epoch day of January 1st of year `y`. */
  function DaysBeforeYear(y: int): int {
    365 * (y - 1970) + LeapsBefore(y) - LeapsBefore(1970)
  }

  /** Moving from year `y - 1` to `y` passes one multiple of 4, 100 or 400 exactly when `y` is one. */
  lemma MultiplesStep(y: int)
    ensures y / 4 - (y - 1) / 4 == if y % 4 == 0 then 1 else 0
    ensures y / 100 - (y - 1) / 100 == if y % 100 == 0 then 1 else 0
    ensures y / 400 - (y - 1) / 400 == if y % 400 == 0 then 1 else 0
  {
  }

  lemma YearStep(y: int)
    ensures DaysBeforeYear(y + 1) == DaysBeforeYear(y) + YearLength(y)
  {
    MultiplesStep(y);
  }

  lemma {:induction false} YearsIncrease(a: int, b: int)
    requires a < b
    ensures DaysBeforeYear(a + 1) <= DaysBeforeYear(b)
    decreases b - a
  {
    YearStep(a);
    if a + 1 < b {
      YearsIncrease(a + 1, b);
      YearStep(a + 1);
    }
  }

  /** At most one year contains a given day. */
  lemma YearUnique(n: Day, a: int, b: int)
    requires DaysBeforeYear(a) <= n < DaysBeforeYear(a + 1)
    requires DaysBeforeYear(b) <= n < DaysBeforeYear(b + 1)
    ensures a == b
  {
    if a < b {
      YearsIncrease(a, b);
      assert false;
    } else if b < a {
      YearsIncrease(b, a);
      assert false;
    }
  }

  /** A year estimate from the mean year length of 146097 / 400 days; off by at most one. */
  function YearGuess(n: Day): (g: int)
    ensures DaysBeforeYear(g - 1) <= n < DaysBeforeYear(g + 2)
  {
    var g := 1970 + (400 * n) / 146097;
    YearStep(g - 1);
    YearStep(g);
    YearStep(g + 1);
    g
  }

  /** The year in which day `n` falls. */
  function YearOf(n: Day): (r: int)
    ensures DaysBeforeYear(r) <= n < DaysBeforeYear(r + 1)
  {
    var g := YearGuess(n);
    YearStep(g - 1);
    YearStep(g);
    if n < DaysBeforeYear(g) then g - 1
    else if n < DaysBeforeYear(g + 1) then g
    else g + 1
  }

  /** The month, from `m` on, in which day `o` (counted from 0) of year `y` falls. */
  function MonthFrom(y: int, o: int, m: int): (r: int)
    requires 1 <= m <= 12 && DaysBeforeMonth(y, m) <= o < YearLength(y)
    ensures m <= r <= 12 && DaysBeforeMonth(y, r) <= o < DaysBeforeMonth(y, r + 1)
    decreases 12 - m
  {
    MonthStep(y, m);
    if m == 12 || o < DaysBeforeMonth(y, m + 1) then m else MonthFrom(y, o, m + 1)
  }

  lemma MonthUnique(y: int, o: int, a: int, b: int)
    requires 1 <= a <= 12 && 1 <= b <= 12
    requires DaysBeforeMonth(y, a) <= o < DaysBeforeMonth(y, a + 1)
    requires DaysBeforeMonth(y, b) <= o < DaysBeforeMonth(y, b + 1)
    ensures a == b
  {
  }

  /** LocalDate.toEpochDay (and LocalDate.of) for a valid date. */
  function EpochDay(c: CivilDate): Day
    requires Valid(c)
  {
    DaysBeforeYear(c.year) + DaysBeforeMonth(c.year, c.month) + c.day - 1
  }

  /** Some valid date is named by day `n`: the one in year YearOf(n), in the month MonthFrom finds. */
  lemma {:induction false} CivilExists(n: Day)
    ensures exists c :: Valid(c) && EpochDay(c) == n
  {
    var y := YearOf(n);
    YearStep(y);
    var m := MonthFrom(y, n - DaysBeforeYear(y), 1);
    MonthStep(y, m);
    var c := CivilDate(y, m, n - DaysBeforeYear(y) - DaysBeforeMonth(y, m) + 1);
    assert Valid(c) && EpochDay(c) == n;
  }

  /** The day of a valid date lies within its own year. */
  lemma WithinYear(c: CivilDate)
    requires Valid(c)
    ensures DaysBeforeYear(c.year) <= EpochDay(c) < DaysBeforeYear(c.year + 1)
  {
    MonthStep(c.year, c.month);
    YearStep(c.year);
  }

  /** Distinct valid dates are distinct days. */
  lemma {:induction false} EpochDayInjective(c: CivilDate, d: CivilDate)
    requires Valid(c) && Valid(d) && EpochDay(c) == EpochDay(d)
    ensures c == d
  {
    WithinYear(c);
    WithinYear(d);
    YearUnique(EpochDay(c), c.year, d.year);
    MonthStep(c.year, c.month);
    MonthStep(c.year, d.month);
    MonthUnique(c.year, EpochDay(c) - DaysBeforeYear(c.year), c.month, d.month);
  }

  /** A day names at most one valid date. */
  lemma OneDatePerDay(n: Day)
    ensures forall c, d :: Valid(c) && Valid(d) && EpochDay(c) == n && EpochDay(d) == n ==> c == d
  {
    forall c, d | Valid(c) && Valid(d) && EpochDay(c) == n && EpochDay(d) == n
      ensures c == d
    {
      EpochDayInjective(c, d);
    }
  }

  /** LocalDate.ofEpochDay: the valid date that day `n` names. */
  function ToCivil(n: Day): (c: CivilDate)
    ensures Valid(c) && EpochDay(c) == n
  {
    CivilExists(n);
    OneDatePerDay(n);
    var c :| Valid(c) && EpochDay(c) == n;
    c
  }

  /** Every valid date is named by exactly one day: EpochDay and ToCivil are inverse. */
  lemma {:induction false} EpochDayToCivil(c: CivilDate)
    requires Valid(c)
    ensures ToCivil(EpochDay(c)) == c
  {
    EpochDayInjective(ToCivil(EpochDay(c)), c);
  }

  /** java.time's DayOfWeek value: Monday = 1 ... Sunday = 7; 1970-01-01 was a Thursday. */
  function DayOfWeek(n: Day): (r: int)
    ensures 1 <= r <= 7
    ensures r == 7 <==> (n + 4) % 7 == 0
  {
    (n + 3) % 7 + 1
  }

  /** Known values of LocalDate.toEpochDay and getDayOfWeek: 1970-01-01 is day 0, a Thursday;
      2000-01-01 is day 10957, a Saturday; 2016-03-01 is day 16861, a Tuesday. */
  lemma EpochAnchors()
    ensures EpochDay(CivilDate(1970, 1, 1)) == 0 && DayOfWeek(0) == 4
    ensures EpochDay(CivilDate(2000, 1, 1)) == 10957 && DayOfWeek(10957) == 6
    ensures EpochDay(CivilDate(2016, 3, 1)) == 16861 && DayOfWeek(16861) == 2
  {
  }

  /** The next calendar date, field by field. */
  function Tomorrow(c: CivilDate): (t: CivilDate)
    requires Valid(c)
    ensures Valid(t)
  {
    if c.day < MonthLength(c.year, c.month) then CivilDate(c.year, c.month, c.day + 1)
    else if c.month < 12 then CivilDate(c.year, c.month + 1, 1)
    else CivilDate(c.year + 1, 1, 1)
  }

  /** The previous calendar date, field by field. */
  function Yesterday(c: CivilDate): (t: CivilDate)
    requires Valid(c)
    ensures Valid(t)
  {
    if c.day > 1 then CivilDate(c.year, c.month, c.day - 1)
    else if c.month > 1 then CivilDate(c.year, c.month - 1, MonthLength(c.year, c.month - 1))
    else CivilDate(c.year - 1, 12, 31)
  }

  /** Tomorrow is one day on: LocalDate.plusDays(1). */
  lemma TomorrowIsNextDay(c: CivilDate)
    requires Valid(c)
    ensures EpochDay(Tomorrow(c)) == EpochDay(c) + 1
  {
    MonthStep(c.year, c.month);
    if c.day == MonthLength(c.year, c.month) && c.month == 12 {
      YearStep(c.year);
    }
  }

  /** Yesterday is one day back: LocalDate.minusDays(1). */
  lemma YesterdayIsPreviousDay(c: CivilDate)
    requires Valid(c)
    ensures EpochDay(Yesterday(c)) == EpochDay(c) - 1
  {
    if c.day > 1 {
    } else if c.month > 1 {
      MonthStep(c.year, c.month - 1);
    } else {
      YearStep(c.year - 1);
      MonthStep(c.year - 1, 12);
    }
  }

  /** Tomorrow and Yesterday undo each other. */
  lemma StepsUndo(c: CivilDate)
    requires Valid(c)
    ensures Yesterday(Tomorrow(c)) == c
    ensures Tomorrow(Yesterday(c)) == c
  {
    TomorrowIsNextDay(c);
    YesterdayIsPreviousDay(c);
    YesterdayIsPreviousDay(Tomorrow(c));
    TomorrowIsNextDay(Yesterday(c));
    EpochDayInjective(Yesterday(Tomorrow(c)), c);
    EpochDayInjective(Tomorrow(Yesterday(c)), c);
  }

  /** Only December 31st steps forward into another year, and it steps to January 1st. */
  lemma ForwardIntoNewYear(c: CivilDate)
    requires Valid(c) && Tomorrow(c).year != c.year
    ensures c.month == 12 && c.day == 31 && Tomorrow(c) == CivilDate(c.year + 1, 1, 1)
  {
  }

  /** Only January 1st steps back into another year, and it steps to December 31st. */
  lemma BackIntoOldYear(c: CivilDate)
    requires Valid(c) && Yesterday(c).year != c.year
    ensures c.month == 1 && c.day == 1 && Yesterday(c) == CivilDate(c.year - 1, 12, 31)
  {
  }
}
